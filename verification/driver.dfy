/**
  The per-file driver `LogScrubber.scrub_log`: after its guards it reads the
  input's lines, scrubs each in file order with one generator for the whole
  run, and writes the results in the same order.  Files are sequences of
  lines here, each line carrying its own terminator.
 */
module Driver {
  import opened Policy
  import opened Scrubber

  /** Every line of a file scrubbed in order, the generator position carried from line to line. */
  function ScrubLines(lines: seq<string>, ps: seq<Pattern>, policy: Policy, gen: Generator, drawn: nat): (out: seq<string>)
    ensures |out| == |lines|
    ensures !policy.Fake? ==>
      forall i :: 0 <= i < |lines| ==> out[i] == ScrubLine(lines[i], ps, policy, gen, drawn).text
    ensures !AllGood(ps) ==> out == lines
    decreases |lines|
  {
    if |lines| == 0 then []
    else
      var first := ScrubLine(lines[0], ps, policy, gen, drawn);
      var rest := ScrubLines(lines[1..], ps, policy, gen, first.draws);
      assert forall i :: 1 <= i < |lines| ==> lines[1..][i - 1] == lines[i];
      [first.text] + rest
  }

  /** The generator position each line starts from: the previous line's start plus what
      scrubbing the previous line drew. */
  predicate Threaded(lines: seq<string>, starts: seq<nat>, ps: seq<Pattern>, policy: Policy, gen: Generator, drawn: nat)
    requires |starts| == |lines|
  {
    && (|lines| > 0 ==> starts[0] == drawn)
    && forall i :: 0 <= i < |lines| - 1 ==> starts[i + 1] == ScrubLine(lines[i], ps, policy, gen, starts[i]).draws
  }

  /** The write loop of `scrub_log`: line `i` of the output is line `i` of the input scrubbed
      from the generator position that line starts at. */
  method ScrubLog(lines: seq<string>, ps: seq<Pattern>, policy: Policy, gen: Generator, drawn: nat)
    returns (out: seq<string>, starts: seq<nat>)
    ensures |out| == |lines| && |starts| == |lines|
    ensures Threaded(lines, starts, ps, policy, gen, drawn)
    ensures forall i :: 0 <= i < |lines| ==> out[i] == ScrubLine(lines[i], ps, policy, gen, starts[i]).text
    ensures out == ScrubLines(lines, ps, policy, gen, drawn)
  {
    out, starts := [], [];
    var position := drawn;
    for i := 0 to |lines|
      invariant |out| == i && |starts| == i
      invariant i > 0 ==> starts[0] == drawn
      invariant forall j :: 0 <= j < i - 1 ==> starts[j + 1] == ScrubLine(lines[j], ps, policy, gen, starts[j]).draws
      invariant position == if i == 0 then drawn else ScrubLine(lines[i - 1], ps, policy, gen, starts[i - 1]).draws
      invariant forall j :: 0 <= j < i ==> out[j] == ScrubLine(lines[j], ps, policy, gen, starts[j]).text
    {
      var text, draws := ScrubLineLoop(lines[i], ps, policy, gen, position);
      out, starts := out + [text], starts + [position];
      position := draws;
    }
    ThreadedOutput(lines, starts, out, ps, policy, gen, drawn);
  }

  /** Lines scrubbed one by one from threaded generator positions are `ScrubLines`' output. */
  lemma {:induction false} ThreadedOutput(lines: seq<string>, starts: seq<nat>, out: seq<string>, ps: seq<Pattern>, policy: Policy, gen: Generator, drawn: nat)
    requires |starts| == |lines| && |out| == |lines|
    requires Threaded(lines, starts, ps, policy, gen, drawn)
    requires forall i :: 0 <= i < |lines| ==> out[i] == ScrubLine(lines[i], ps, policy, gen, starts[i]).text
    ensures out == ScrubLines(lines, ps, policy, gen, drawn)
    decreases |lines|
  {
    if |lines| > 0 {
      var first := ScrubLine(lines[0], ps, policy, gen, drawn);
      assert Threaded(lines[1..], starts[1..], ps, policy, gen, first.draws) by {
        forall i | 0 <= i < |lines| - 2
          ensures starts[1..][i + 1] == ScrubLine(lines[1..][i], ps, policy, gen, starts[1..][i]).draws
        {
          assert starts[i + 2] == ScrubLine(lines[i + 1], ps, policy, gen, starts[i + 1]).draws;
        }
      }
      ThreadedOutput(lines[1..], starts[1..], out[1..], ps, policy, gen, first.draws);
      assert out == [out[0]] + out[1..];
    }
  }

  /** `scrub_log`: nothing is written when the input is missing, the output is not named or
      the pattern list is empty; otherwise the scrubbed lines are written. */
  function ScrubFile(source: Option<seq<string>>, outputNamed: bool, ps: seq<Pattern>, replaceWith: Option<string>, gen: Generator): (written: Option<seq<string>>)
    ensures written.None? <==> source.None? || !outputNamed || |ps| == 0
    ensures written.Some? ==> |written.value| == |source.value|
    ensures written.Some? && !AllGood(ps) ==> written.value == source.value
    ensures written.Some? && !Dispatch(replaceWith).Fake? ==> forall i :: 0 <= i < |source.value| ==>
      written.value[i] == ScrubLine(source.value[i], ps, Dispatch(replaceWith), gen, 0).text
  {
    if source.None? || !outputNamed || |ps| == 0 then None
    else Some(ScrubLines(source.value, ps, Dispatch(replaceWith), gen, 0))
  }
}
