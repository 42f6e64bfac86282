/**
  The positions a rewriting pass comes to look at, and how the output of a pass
  splits at them: inside one text, and between two texts put together.
 */
module CitationScan {
  import opened Wrappers
  import opened Chars
  import opened Citations

  // ------------------------------------------------------- inside one text

  /** Where the pass looks after it has looked at i. */
  function NextLook(pass: Pass, s: string, i: nat, sources: seq<Source>): (n: nat)
    requires i < |s|
    ensures i < n <= |s|
  {
    match Match(pass, s, i, sources)
    case None => i + 1
    case Some(hit) => hit.end
  }

  /** What the pass writes for position i. */
  function PieceAt(pass: Pass, s: string, i: nat, sources: seq<Source>): string
    requires i < |s|
  {
    match Match(pass, s, i, sources)
    case None => [s[i]]
    case Some(hit) => hit.text
  }

  predicate FlagAt(pass: Pass, s: string, i: nat, sources: seq<Source>)
    requires i < |s|
  {
    match Match(pass, s, i, sources)
    case None => false
    case Some(hit) => hit.flagged
  }

  lemma SubLooks(pass: Pass, s: string, i: nat, sources: seq<Source>)
    requires i < |s|
    ensures Sub(pass, s, i, sources) == PieceAt(pass, s, i, sources) + Sub(pass, s, NextLook(pass, s, i, sources), sources)
    ensures Flags(pass, s, i, sources) == (FlagAt(pass, s, i, sources) || Flags(pass, s, NextLook(pass, s, i, sources), sources))
  {
    hide Match;
  }

  /** The pass, looking at a, comes to look at i: no match swallows i. */
  predicate Reaches(pass: Pass, s: string, a: nat, i: nat, sources: seq<Source>)
    requires a <= |s|
    decreases |s| - a
  {
    a == i || (a < i && a < |s| && Reaches(pass, s, NextLook(pass, s, a, sources), i, sources))
  }

  /** What the pass writes for the part from a up to i. */
  function Written(pass: Pass, s: string, a: nat, i: nat, sources: seq<Source>): string
    requires a <= |s|
    decreases |s| - a
  {
    if a >= i || a == |s| then ""
    else
      PieceAt(pass, s, a, sources)
      + Written(pass, s, NextLook(pass, s, a, sources), i, sources)
  }

  /** Whether the pass flags anything in the part from a up to i. */
  predicate FlagsBefore(pass: Pass, s: string, a: nat, i: nat, sources: seq<Source>)
    requires a <= |s|
    decreases |s| - a
  {
    a < i && a < |s| &&
    (FlagAt(pass, s, a, sources)
     || FlagsBefore(pass, s, NextLook(pass, s, a, sources), i, sources))
  }

  /** The output splits at every position the pass looks at. */
  lemma {:induction false} SubSplits(pass: Pass, s: string, a: nat, i: nat, sources: seq<Source>)
    requires a <= |s| && Reaches(pass, s, a, i, sources)
    ensures a <= i <= |s|
    ensures Sub(pass, s, a, sources) == Written(pass, s, a, i, sources) + Sub(pass, s, i, sources)
    ensures Flags(pass, s, a, sources) == (FlagsBefore(pass, s, a, i, sources) || Flags(pass, s, i, sources))
    decreases |s| - a
  {
    hide Match, Sub, Flags, PieceAt, FlagAt, NextLook;
    if a == i {
      assert "" + Sub(pass, s, i, sources) == Sub(pass, s, i, sources);
    } else {
      var n := NextLook(pass, s, a, sources);
      SubLooks(pass, s, a, sources);
      SubSplits(pass, s, n, i, sources);
      Associative(PieceAt(pass, s, a, sources), Written(pass, s, n, i, sources), Sub(pass, s, i, sources));
    }
  }

  lemma {:induction false} ReachesOn(pass: Pass, s: string, a: nat, i: nat, j: nat, sources: seq<Source>)
    requires a <= |s| && Reaches(pass, s, a, i, sources) && i <= |s|
    ensures i <= j ==> (Reaches(pass, s, a, j, sources) <==> Reaches(pass, s, i, j, sources))
    decreases |s| - a
  {
    hide Match;
    if a != i { ReachesOn(pass, s, NextLook(pass, s, a, sources), i, j, sources); }
  }

  /** Where nothing matches, text is copied. */
  lemma {:induction false} CopiedRun(pass: Pass, s: string, i: nat, e: nat, sources: seq<Source>)
    requires i <= e <= |s| && forall k :: i <= k < e ==> Match(pass, s, k, sources).None?
    ensures Reaches(pass, s, i, e, sources) && Written(pass, s, i, e, sources) == s[i..e]
    ensures !FlagsBefore(pass, s, i, e, sources)
    decreases e - i
  {
    hide Match;
    if i < e {
      CopiedRun(pass, s, i + 1, e, sources);
      assert s[i..e] == [s[i]] + s[i + 1..e];
    }
  }

  /** A match the pass looks at is replaced by its text. */
  lemma HitReplaced(pass: Pass, s: string, i: nat, sources: seq<Source>)
    requires i < |s| && Reaches(pass, s, 0, i, sources) && Match(pass, s, i, sources).Some?
    ensures var hit := Match(pass, s, i, sources).value;
            && Sub(pass, s, 0, sources) == Written(pass, s, 0, i, sources) + (hit.text + Sub(pass, s, hit.end, sources))
            && (hit.flagged ==> Flags(pass, s, 0, sources))
  {
    hide Match;
    SubSplits(pass, s, 0, i, sources);
  }

  // ------------------------------------------------------- two texts together

  /** The same match, found n positions further on. */
  predicate SameHit(outer: Option<Hit>, inner: Option<Hit>, n: nat) {
    if inner.None? then outer.None?
    else outer.Some? && outer.value == inner.value.(end := inner.value.end + n)
  }

  /** What follows x does not change what the pass finds from inside x. */
  ghost predicate Bounded(pass: Pass, x: string, y: string, sources: seq<Source>) {
    forall j :: 0 <= j < |x| ==> Match(pass, x + y, j, sources) == Match(pass, x, j, sources)
  }

  /** What stands before y does not change what the pass finds in y. */
  ghost predicate Unaffected(pass: Pass, x: string, y: string, sources: seq<Source>) {
    forall j :: 0 <= j < |y| ==> SameHit(Match(pass, x + y, |x| + j, sources), Match(pass, y, j, sources), |x|)
  }

  lemma {:induction false} SubOfSuffix(pass: Pass, x: string, y: string, j: nat, sources: seq<Source>)
    requires j <= |y| && Unaffected(pass, x, y, sources)
    ensures Sub(pass, x + y, |x| + j, sources) == Sub(pass, y, j, sources)
    ensures Flags(pass, x + y, |x| + j, sources) == Flags(pass, y, j, sources)
    decreases |y| - j
  {
    hide Match, Sub, Flags, SameHit, NextLook, PieceAt, FlagAt;
    if j == |y| {
      NothingLeft(pass, y, sources);
      NothingLeft(pass, x + y, sources);
    } else {
      assert SameHit(Match(pass, x + y, |x| + j, sources), Match(pass, y, j, sources), |x|);
      LooksAlike(pass, x, y, j, sources);
      SubLooks(pass, y, j, sources);
      SubLooks(pass, x + y, |x| + j, sources);
      SubOfSuffix(pass, x, y, NextLook(pass, y, j, sources), sources);
    }
  }

  lemma NothingLeft(pass: Pass, s: string, sources: seq<Source>)
    ensures Sub(pass, s, |s|, sources) == "" && !Flags(pass, s, |s|, sources)
  {
  }

  lemma LooksAlike(pass: Pass, x: string, y: string, j: nat, sources: seq<Source>)
    requires j < |y| && SameHit(Match(pass, x + y, |x| + j, sources), Match(pass, y, j, sources), |x|)
    ensures NextLook(pass, x + y, |x| + j, sources) == |x| + NextLook(pass, y, j, sources)
    ensures PieceAt(pass, x + y, |x| + j, sources) == PieceAt(pass, y, j, sources)
    ensures FlagAt(pass, x + y, |x| + j, sources) == FlagAt(pass, y, j, sources)
  {
    hide Match;
    assert (x + y)[|x| + j] == y[j];
  }

  lemma {:induction false} SubOfPrefix(pass: Pass, x: string, y: string, i: nat, sources: seq<Source>)
    requires i <= |x| && Bounded(pass, x, y, sources) && Unaffected(pass, x, y, sources)
    ensures Sub(pass, x + y, i, sources) == Sub(pass, x, i, sources) + Sub(pass, y, 0, sources)
    ensures Flags(pass, x + y, i, sources) == (Flags(pass, x, i, sources) || Flags(pass, y, 0, sources))
    decreases |x| - i
  {
    hide Match, Unaffected;
    if i == |x| {
      SubOfSuffix(pass, x, y, 0, sources);
      assert "" + Sub(pass, y, 0, sources) == Sub(pass, y, 0, sources);
    } else {
      var m := Match(pass, x, i, sources);
      assert Match(pass, x + y, i, sources) == m;
      var n := if m.None? then i + 1 else m.value.end;
      SubOfPrefix(pass, x, y, n, sources);
      assert (x + y)[i] == x[i];
      Associative(if m.None? then [x[i]] else m.value.text, Sub(pass, x, n, sources), Sub(pass, y, 0, sources));
    }
  }

  /** Where neither part disturbs the other, a pass over both is a pass over each. */
  lemma PassConcat(pass: Pass, x: string, y: string, sources: seq<Source>)
    requires Bounded(pass, x, y, sources) && Unaffected(pass, x, y, sources)
    ensures Sub(pass, x + y, 0, sources) == Sub(pass, x, 0, sources) + Sub(pass, y, 0, sources)
    ensures Flags(pass, x + y, 0, sources) == (Flags(pass, x, 0, sources) || Flags(pass, y, 0, sources))
  {
    hide Match, Bounded, Unaffected;
    SubOfPrefix(pass, x, y, 0, sources);
  }
}
