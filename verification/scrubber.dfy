/**
  The line-scrubbing engine: a left fold over the ordered pattern list.  Each
  rule rewrites the output of the previous one; the first rule that raises a
  regular-expression error makes the engine give back the ORIGINAL line,
  discarding what earlier rules did and skipping the later ones.

  The fake-data generator is an explicit value: `gen(c, k)` is what it returns
  for category `c` when asked for the `k`-th time.  Under a fake policy it is
  asked once per rule, before the rule is applied, so one value stands in for
  every match of that rule and a value is spent even when nothing matches or
  the rule turns out to be broken.
 */
module Scrubber {
  import opened Text
  import opened Policy

  /** A rule as the engine sees it: `Bad` raises `re.error` (an invalid pattern or an invalid
      replacement template); `Good(needle)` replaces every occurrence of a literal needle. */
  datatype Pattern = Bad | Good(needle: string)

  type Generator = (Category, nat) -> string

  /** The scrubbed line and the generator position after it. */
  datatype Scrubbed = Scrubbed(text: string, draws: nat)

  /** Where the fold over the rules ends: all rules applied, or a rule raised after `drawn` draws. */
  datatype Fold = Done(text: string, drawn: nat) | Failed(drawn: nat)

  predicate AllGood(ps: seq<Pattern>) {
    forall i :: 0 <= i < |ps| ==> ps[i].Good?
  }

  /** No valid rule's needle occurs in `s`. */
  predicate NoMatch(s: string, ps: seq<Pattern>) {
    forall i :: 0 <= i < |ps| && ps[i].Good? ==> !Occurs(s, ps[i].needle)
  }

  /** The replacement text one rule uses, and the generator position after choosing it. */
  function Replacement(policy: Policy, gen: Generator, drawn: nat): (string, nat) {
    match policy
    case Delete => ("", drawn)
    case Literal(s) => (s, drawn)
    case Fake(c) => (gen(c, drawn), drawn + 1)
  }

  /** What one rule hands to the substitution, read from the `replace_with` setting: no value
      gives the empty text, a reserved keyword gives the generator's next value of its
      category and spends one draw, and any other string is itself the text. */
  lemma ReplacementOfSetting(replaceWith: Option<string>, gen: Generator, drawn: nat)
    ensures var (rep, next) := Replacement(Dispatch(replaceWith), gen, drawn);
      && (replaceWith.None? ==> rep == "" && next == drawn)
      && (replaceWith.Some? && replaceWith.value !in Keywords ==> rep == replaceWith.value && next == drawn)
      && (forall c :: replaceWith == Some(Keyword(c)) ==> rep == gen(c, drawn) && next == drawn + 1)
  {
  }

  /** The rules applied in list order, each to the text the previous one produced. */
  function FoldRules(cur: string, ps: seq<Pattern>, policy: Policy, gen: Generator, drawn: nat): (r: Fold)
    ensures r.Done? <==> AllGood(ps)
    ensures r.drawn >= drawn
    ensures !policy.Fake? ==> r.drawn == drawn
    ensures r.Done? && policy.Delete? ==> |r.text| <= |cur|
    decreases |ps|
  {
    if |ps| == 0 then Done(cur, drawn)
    else
      var (rep, next) := Replacement(policy, gen, drawn);
      match ps[0]
      case Bad => Failed(next)
      case Good(needle) =>
        DeleteNeverGrows(cur, needle);
        assert forall i :: 1 <= i < |ps| ==> ps[1..][i - 1] == ps[i];
        FoldRules(ReplaceAll(cur, needle, rep), ps[1..], policy, gen, next)
  }

  /** `LogScrubber._scrub_line`: the fold's result, or the untouched line if a rule raised. */
  function ScrubLine(line: string, ps: seq<Pattern>, policy: Policy, gen: Generator, drawn: nat): (r: Scrubbed)
    ensures |ps| == 0 ==> r == Scrubbed(line, drawn)
    ensures !AllGood(ps) ==> r.text == line
    ensures policy.Delete? ==> |r.text| <= |line|
    ensures !policy.Fake? ==> r.draws == drawn
  {
    match FoldRules(line, ps, policy, gen, drawn)
    case Done(text, d) => Scrubbed(text, d)
    case Failed(d) => Scrubbed(line, d)
  }

  /** The fold over `a + b` is the fold over `a` continued with `b` from where it stopped. */
  lemma {:induction false} FoldAppend(cur: string, a: seq<Pattern>, b: seq<Pattern>, policy: Policy, gen: Generator, drawn: nat)
    ensures FoldRules(cur, a + b, policy, gen, drawn) ==
      match FoldRules(cur, a, policy, gen, drawn)
      case Done(t, d) => FoldRules(t, b, policy, gen, d)
      case Failed(d) => Failed(d)
    decreases |a|
  {
    if |a| == 0 {
      assert a + b == b;
    } else {
      assert (a + b)[0] == a[0];
      assert (a + b)[1..] == a[1..] + b;
      var (rep, next) := Replacement(policy, gen, drawn);
      match a[0]
      case Bad =>
      case Good(needle) =>
        FoldAppend(ReplaceAll(cur, needle, rep), a[1..], b, policy, gen, next);
    }
  }

  /** Scrubbing with a valid first rule is scrubbing that rule's output with the remaining rules,
      as long as none of them raises. */
  lemma ScrubFirstRule(line: string, needle: string, ps: seq<Pattern>, policy: Policy, gen: Generator, drawn: nat)
    requires AllGood(ps)
    ensures
      var (rep, next) := Replacement(policy, gen, drawn);
      ScrubLine(line, [Good(needle)] + ps, policy, gen, drawn) ==
      ScrubLine(ReplaceAll(line, needle, rep), ps, policy, gen, next)
  {
  }

  /** With only valid rules, scrubbing with `a + b` is scrubbing with `a` and then with `b`. */
  lemma ScrubChain(line: string, a: seq<Pattern>, b: seq<Pattern>, policy: Policy, gen: Generator, drawn: nat)
    requires AllGood(a) && AllGood(b)
    ensures
      var first := ScrubLine(line, a, policy, gen, drawn);
      ScrubLine(line, a + b, policy, gen, drawn) == ScrubLine(first.text, b, policy, gen, first.draws)
  {
    FoldAppend(line, a, b, policy, gen, drawn);
    assert AllGood(a + b) by {
      forall i | 0 <= i < |a + b|
        ensures (a + b)[i].Good?
      {
        if i >= |a| { assert (a + b)[i] == b[i - |a|]; }
      }
    }
  }

  /** Under a fake policy the generator is asked once per rule up to and including the first
      broken one; under the other policies it is never asked. */
  lemma {:induction false} DrawsPerRule(cur: string, ps: seq<Pattern>, policy: Policy, gen: Generator, drawn: nat)
    ensures var r := FoldRules(cur, ps, policy, gen, drawn);
      var used := if r.Done? then |ps| else FirstBad(ps) + 1;
      r.drawn == drawn + (if policy.Fake? then used else 0)
    decreases |ps|
  {
    if |ps| > 0 {
      var (rep, next) := Replacement(policy, gen, drawn);
      match ps[0]
      case Bad =>
      case Good(needle) =>
        DrawsPerRule(ReplaceAll(cur, needle, rep), ps[1..], policy, gen, next);
    }
  }

  /** The index of the first rule that raises, or `|ps|` when none does. */
  function FirstBad(ps: seq<Pattern>): (k: nat)
    ensures k <= |ps|
    ensures k < |ps| ==> ps[k].Bad?
    ensures forall j :: 0 <= j < k ==> ps[j].Good?
    decreases |ps|
  {
    if |ps| == 0 || ps[0].Bad? then 0 else 1 + FirstBad(ps[1..])
  }

  /** A line no valid rule matches comes back unchanged under every policy. */
  lemma {:induction false} FoldWithoutMatch(cur: string, ps: seq<Pattern>, policy: Policy, gen: Generator, drawn: nat)
    requires NoMatch(cur, ps)
    ensures FoldRules(cur, ps, policy, gen, drawn).Done? ==> FoldRules(cur, ps, policy, gen, drawn).text == cur
    decreases |ps|
  {
    if |ps| > 0 {
      var (rep, next) := Replacement(policy, gen, drawn);
      match ps[0]
      case Bad =>
      case Good(needle) =>
        assert !Occurs(cur, needle);
        assert NoMatch(cur, ps[1..]) by {
          forall i | 0 <= i < |ps[1..]| && ps[1..][i].Good?
            ensures !Occurs(cur, ps[1..][i].needle)
          {
            assert ps[1..][i] == ps[i + 1];
          }
        }
        FoldWithoutMatch(cur, ps[1..], policy, gen, next);
    }
  }

  lemma ScrubWithoutMatch(line: string, ps: seq<Pattern>, policy: Policy, gen: Generator, drawn: nat)
    requires NoMatch(line, ps)
    ensures ScrubLine(line, ps, policy, gen, drawn).text == line
  {
    FoldWithoutMatch(line, ps, policy, gen, drawn);
  }

  /** Under deletion with non-empty needles and only valid rules, a step that matches makes
      the line strictly shorter, so the line comes back unchanged only when nothing matched. */
  lemma {:induction false} DeleteShrinksOnMatch(cur: string, ps: seq<Pattern>, gen: Generator, drawn: nat)
    requires AllGood(ps)
    requires forall i :: 0 <= i < |ps| ==> |ps[i].needle| > 0
    requires !NoMatch(cur, ps)
    ensures |FoldRules(cur, ps, Delete, gen, drawn).text| < |cur|
    decreases |ps|
  {
    var needle := ps[0].needle;
    var next := ReplaceAll(cur, needle, "");
    DeleteNeverGrows(cur, needle);
    assert forall i :: 1 <= i < |ps| ==> ps[1..][i - 1] == ps[i];
    if !Occurs(cur, needle) {
      var i :| 0 <= i < |ps| && ps[i].Good? && Occurs(cur, ps[i].needle);
      assert i > 0 && ps[1..][i - 1] == ps[i];
      DeleteShrinksOnMatch(next, ps[1..], gen, drawn);
    }
  }

  /** Under deletion with non-empty needles, the line comes back unchanged exactly when
      some rule raises or no valid rule matches the original line. */
  lemma DeleteUnchangedIff(line: string, ps: seq<Pattern>, gen: Generator, drawn: nat)
    requires forall i :: 0 <= i < |ps| && ps[i].Good? ==> |ps[i].needle| > 0
    ensures ScrubLine(line, ps, Delete, gen, drawn).text == line <==> !AllGood(ps) || NoMatch(line, ps)
  {
    if NoMatch(line, ps) {
      ScrubWithoutMatch(line, ps, Delete, gen, drawn);
    } else if AllGood(ps) {
      DeleteShrinksOnMatch(line, ps, gen, drawn);
    }
  }

  /** `replace_with=""` is literal replacement by the empty text, which rewrites exactly as
      deletion does. */
  lemma {:induction false} EmptyLiteralDeletes(cur: string, ps: seq<Pattern>, gen: Generator, drawn: nat)
    ensures FoldRules(cur, ps, Literal(""), gen, drawn) == FoldRules(cur, ps, Delete, gen, drawn)
    decreases |ps|
  {
    if |ps| > 0 {
      match ps[0]
      case Bad =>
      case Good(needle) =>
        EmptyLiteralDeletes(ReplaceAll(cur, needle, ""), ps[1..], gen, drawn);
    }
  }

  /** Under a fake policy a single valid rule puts the same generated value into every gap
      between the pieces of the line: all its matches share one value. */
  lemma FakeRuleSharesOneValue(line: string, needle: string, c: Category, gen: Generator, drawn: nat)
    requires |needle| > 0
    ensures ScrubLine(line, [Good(needle)], Fake(c), gen, drawn) ==
      Scrubbed(Join(Split(line, needle), gen(c, drawn)), drawn + 1)
  {
    var value := gen(c, drawn);
    ReplaceIsJoinSplit(line, needle, value);
    assert [Good(needle)][1..] == [];
    assert FoldRules(line, [Good(needle)], Fake(c), gen, drawn)
        == FoldRules(ReplaceAll(line, needle, value), [], Fake(c), gen, drawn + 1);
  }

  /** The loop of `_scrub_line`: the replacement is chosen before the rule is applied, and the
      first rule that raises returns the original line at once. */
  method ScrubLineLoop(line: string, ps: seq<Pattern>, policy: Policy, gen: Generator, drawn: nat)
    returns (text: string, draws: nat)
    ensures Scrubbed(text, draws) == ScrubLine(line, ps, policy, gen, drawn)
  {
    var current := line;
    draws := drawn;
    for i := 0 to |ps|
      invariant FoldRules(line, ps, policy, gen, drawn) == FoldRules(current, ps[i..], policy, gen, draws)
    {
      var (rep, next) := Replacement(policy, gen, draws);
      draws := next;
      assert ps[i..][1..] == ps[i + 1..];
      match ps[i]
      case Bad =>
        return line, draws;
      case Good(needle) =>
        current := ReplaceAll(current, needle, rep);
    }
    assert ps[|ps|..] == [];
    text := current;
  }
}
