/**
  A concrete stand-in for Python's `re.sub` when the pattern is a literal
  needle: every leftmost, non-overlapping occurrence of the needle is replaced
  by one fixed replacement text, scanning left to right.  An empty needle
  behaves like the empty regular expression: it matches before every
  character and once at the end.

  `Split` and `Join` give a second description of the same rewrite: cut the
  text at the occurrences and glue the pieces back with the replacement.
  `Split` is pinned down by `JoinSplit` (the pieces glued with the needle give
  the text back) and `SplitPiecesClean` (no occurrence is left in a piece or
  starts inside one), so the cut is the leftmost, non-overlapping one.
 */
module Text {

  /** `needle` occurs in `s` starting at index `i`. */
  predicate MatchAt(s: string, needle: string, i: int) {
    0 <= i && i + |needle| <= |s| && s[i..i + |needle|] == needle
  }

  /** `needle` occurs somewhere in `s`; the empty needle occurs in every text. */
  predicate Occurs(s: string, needle: string) {
    exists i | 0 <= i <= |s| :: MatchAt(s, needle, i)
  }

  /** The empty pattern's rewrite: `rep` before every character and at the end. */
  function FillGaps(s: string, rep: string): string
    decreases |s|
  {
    if |s| == 0 then rep else rep + [s[0]] + FillGaps(s[1..], rep)
  }

  /** Every leftmost, non-overlapping occurrence of `needle` in `s` becomes `rep`; a text in
      which the needle does not occur comes back unchanged, whatever the replacement. */
  function ReplaceAll(s: string, needle: string, rep: string): (r: string)
    ensures !Occurs(s, needle) ==> r == s
    decreases |s|
  {
    if |needle| == 0 then
      assert MatchAt(s, needle, 0);
      FillGaps(s, rep)
    else if |s| < |needle| then s
    else if s[..|needle|] == needle then
      assert MatchAt(s, needle, 0);
      rep + ReplaceAll(s[|needle|..], needle, rep)
    else
      OccursFromTail(s, needle);
      assert [s[0]] + s[1..] == s;
      [s[0]] + ReplaceAll(s[1..], needle, rep)
  }

  /** How many occurrences `ReplaceAll` rewrites. */
  function Count(s: string, needle: string): nat
    decreases |s|
  {
    if |needle| == 0 then |s| + 1
    else if |s| < |needle| then 0
    else if s[..|needle|] == needle then 1 + Count(s[|needle|..], needle)
    else Count(s[1..], needle)
  }

  /** The pieces of `s` between the occurrences of a non-empty `needle`
      (Python's `s.split(needle)`). */
  function Split(s: string, needle: string): (pieces: seq<string>)
    requires |needle| > 0
    ensures |pieces| >= 1
    decreases |s|
  {
    if |s| < |needle| then [s]
    else if s[..|needle|] == needle then [[]] + Split(s[|needle|..], needle)
    else
      var rest := Split(s[1..], needle);
      [[s[0]] + rest[0]] + rest[1..]
  }

  /** The pieces glued together with `sep` between neighbours (Python's `sep.join(pieces)`). */
  function Join(pieces: seq<string>, sep: string): string
    requires |pieces| >= 1
    decreases |pieces|
  {
    if |pieces| == 1 then pieces[0] else pieces[0] + sep + Join(pieces[1..], sep)
  }

  /** An occurrence in the tail of `s` is an occurrence in `s`, one index later. */
  lemma OccursInTail(s: string, needle: string, i: int)
    requires |s| > 0 && MatchAt(s[1..], needle, i)
    ensures MatchAt(s, needle, i + 1)
  {
  }

  /** An occurrence past the first character is an occurrence in the tail. */
  lemma OccursInTailBack(s: string, needle: string, i: int)
    requires MatchAt(s, needle, i) && i > 0
    ensures MatchAt(s[1..], needle, i - 1)
  {
  }

  /** A text whose tail holds the needle holds it too. */
  lemma OccursFromTail(s: string, needle: string)
    requires |s| > 0
    ensures Occurs(s[1..], needle) ==> Occurs(s, needle)
  {
    if Occurs(s[1..], needle) {
      var i :| 0 <= i <= |s[1..]| && MatchAt(s[1..], needle, i);
      OccursInTail(s, needle, i);
    }
  }

  /** Isolates the nonlinear step `ReplaceLength` and `FillGapsLength` need. */
  lemma Distribute(c: int, d: int)
    ensures (1 + c) * d == d + c * d
  {
  }

  /** Isolates the nonlinear step `DeleteNeverGrows` needs. */
  lemma Shrink(c: nat, d: nat)
    ensures c * (0 - d) <= 0
    ensures c > 0 ==> c * (0 - d) <= 0 - d
  {
  }

  /** Every rewritten occurrence adds `|rep| - |needle|` characters. */
  lemma {:induction false} ReplaceLength(s: string, needle: string, rep: string)
    ensures |ReplaceAll(s, needle, rep)| == |s| + Count(s, needle) * (|rep| - |needle|)
    decreases |s|
  {
    if |needle| == 0 {
      FillGapsLength(s, rep);
    } else if |s| < |needle| {
    } else if s[..|needle|] == needle {
      var t := s[|needle|..];
      ReplaceLength(t, needle, rep);
      Distribute(Count(t, needle), |rep| - |needle|);
    } else {
      ReplaceLength(s[1..], needle, rep);
    }
  }

  lemma {:induction false} FillGapsLength(s: string, rep: string)
    ensures |FillGaps(s, rep)| == |s| + (|s| + 1) * |rep|
    decreases |s|
  {
    if |s| > 0 {
      FillGapsLength(s[1..], rep);
      Distribute(|s|, |rep|);
    }
  }

  /** The scan rewrites something exactly when the needle occurs; the empty needle occurs,
      and is rewritten, everywhere. */
  lemma {:induction false} CountPositiveIffOccurs(s: string, needle: string)
    ensures Count(s, needle) > 0 <==> Occurs(s, needle)
    decreases |s|
  {
    if |needle| == 0 {
      assert MatchAt(s, needle, 0);
    } else if |s| < |needle| {
    } else if s[..|needle|] == needle {
      assert MatchAt(s, needle, 0);
    } else {
      CountPositiveIffOccurs(s[1..], needle);
      if Occurs(s[1..], needle) {
        var i :| MatchAt(s[1..], needle, i);
        OccursInTail(s, needle, i);
      }
      if Occurs(s, needle) {
        var i :| MatchAt(s, needle, i);
        assert !MatchAt(s, needle, 0);
        OccursInTailBack(s, needle, i);
      }
    }
  }

  /** Deleting occurrences never lengthens a text, and shortens it when a non-empty needle occurs. */
  lemma DeleteNeverGrows(s: string, needle: string)
    ensures |ReplaceAll(s, needle, "")| <= |s|
    ensures |needle| > 0 && Occurs(s, needle) ==> |ReplaceAll(s, needle, "")| < |s|
  {
    ReplaceLength(s, needle, "");
    CountPositiveIffOccurs(s, needle);
    Shrink(Count(s, needle), |needle|);
  }

  /** Gluing onto the first piece moves out of the join. */
  lemma {:induction false} JoinConsFirst(c: char, pieces: seq<string>, sep: string)
    requires |pieces| >= 1
    ensures Join([[c] + pieces[0]] + pieces[1..], sep) == [c] + Join(pieces, sep)
  {
  }

  /** Splitting at a needle and joining back with the same needle is the identity. */
  lemma {:induction false} JoinSplit(s: string, needle: string)
    requires |needle| > 0
    ensures Join(Split(s, needle), needle) == s
    decreases |s|
  {
    if |s| < |needle| {
    } else if s[..|needle|] == needle {
      var t := s[|needle|..];
      JoinSplit(t, needle);
      var p := [[]] + Split(t, needle);
      assert p[1..] == Split(t, needle);
      assert Join(p, needle) == [] + needle + t;
      assert s == s[..|needle|] + t;
    } else {
      var rest := Split(s[1..], needle);
      JoinSplit(s[1..], needle);
      JoinConsFirst(s[0], rest, needle);
      assert [s[0]] + s[1..] == s;
    }
  }

  /** `ReplaceAll` agrees with the reference: split at the needle, join with the replacement
      (Python's `rep.join(s.split(needle))`). */
  lemma {:induction false} ReplaceIsJoinSplit(s: string, needle: string, rep: string)
    requires |needle| > 0
    ensures ReplaceAll(s, needle, rep) == Join(Split(s, needle), rep)
    decreases |s|
  {
    if |s| < |needle| {
    } else if s[..|needle|] == needle {
      var t := s[|needle|..];
      ReplaceIsJoinSplit(t, needle, rep);
      var p := [[]] + Split(t, needle);
      assert p[1..] == Split(t, needle);
    } else {
      var rest := Split(s[1..], needle);
      ReplaceIsJoinSplit(s[1..], needle, rep);
      JoinConsFirst(s[0], rest, rep);
    }
  }

  /** One piece more than there are rewritten occurrences. */
  lemma {:induction false} SplitCount(s: string, needle: string)
    requires |needle| > 0
    ensures |Split(s, needle)| == Count(s, needle) + 1
    decreases |s|
  {
    if |s| < |needle| {
    } else if s[..|needle|] == needle {
      SplitCount(s[|needle|..], needle);
    } else {
      SplitCount(s[1..], needle);
    }
  }

  /** No piece `Split` cuts holds the needle, and no occurrence starts inside a piece that the
      needle follows: the scan cut out every leftmost occurrence, so `Split` is pinned down by
      this together with `JoinSplit`. */
  lemma {:induction false} SplitPiecesClean(s: string, needle: string)
    requires |needle| > 0
    ensures forall k :: 0 <= k < |Split(s, needle)| ==> !Occurs(Split(s, needle)[k], needle)
    ensures forall k :: 0 <= k < |Split(s, needle)| - 1 ==>
      !Occurs(Split(s, needle)[k] + needle[..|needle| - 1], needle)
    decreases |s|
  {
    var pieces := Split(s, needle);
    var part := needle[..|needle| - 1];
    if |s| < |needle| {
    } else if s[..|needle|] == needle {
      var rest := Split(s[|needle|..], needle);
      SplitPiecesClean(s[|needle|..], needle);
      assert forall k :: 1 <= k < |pieces| ==> pieces[k] == rest[k - 1];
      assert pieces[0] == [];
    } else {
      var rest := Split(s[1..], needle);
      SplitPiecesClean(s[1..], needle);
      JoinSplit(s, needle);
      assert forall k :: 1 <= k < |pieces| ==> pieces[k] == rest[k];
      if |pieces| == 1 {
        assert s == pieces[0];
        FirstPieceClean(s, needle, pieces[0], rest[0]);
      } else {
        assert s == pieces[0] + needle + Join(pieces[1..], needle);
        assert pieces[0] + part <= s by {
          assert (pieces[0] + needle)[..|pieces[0]| + |part|] == pieces[0] + part;
        }
        FirstPieceClean(s, needle, pieces[0], rest[0]);
        assert pieces[0] + part == [s[0]] + (rest[0] + part);
        FirstPieceClean(s, needle, pieces[0] + part, rest[0] + part);
      }
    }
  }

  /** A prefix of `s` made of its first character and a needle-free text is needle-free,
      when `s` does not start with the needle. */
  lemma FirstPieceClean(s: string, needle: string, p: string, q: string)
    requires |s| > 0 && |needle| > 0
    requires p == [s[0]] + q && p <= s
    requires |s| < |needle| || s[..|needle|] != needle
    requires !Occurs(q, needle)
    ensures !Occurs(p, needle)
  {
    if Occurs(p, needle) {
      var i :| 0 <= i <= |p| && MatchAt(p, needle, i);
      if i > 0 {
        OccursInTailBack(p, needle, i);
      }
    }
  }
}
