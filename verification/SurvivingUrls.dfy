/**
  Which URLs of a text the URL pass leaves in it: those right after an opening
  parenthesis that no earlier match swallows.
 */
module SurvivingUrls {
  import opened Wrappers
  import opened Chars
  import opened Citations
  import opened CitationScan
  import opened CitationSeams

  predicate AfterParen(s: string, i: nat) {
    0 < i <= |s| && s[i - 1] == '('
  }

  /** A URL that is not right after an opening parenthesis starts here. */
  predicate OpenUrl(s: string, i: nat) {
    HasUrl(s, i) && !AfterParen(s, i)
  }

  /** Every URL before i that is not after a parenthesis ends by i. */
  ghost predicate NotSwallowed(s: string, i: nat) {
    forall j: nat :: j < i && OpenUrl(s, j) ==> UrlEnd(s, j) <= i
  }

  /** A URL of the text that the pass leaves where it is. */
  ghost predicate Survives(s: string, i: nat) {
    HasUrl(s, i) && AfterParen(s, i) && NotSwallowed(s, i)
  }

  ghost predicate SomeUrlSurvives(s: string) {
    exists i: nat :: Survives(s, i)
  }

  ghost predicate HoldsUrl(s: string) {
    exists q: nat :: HasUrl(s, q)
  }

  lemma HasUrlInside(s: string, i: nat)
    requires HasUrl(s, i)
    ensures i < |s| && s[i] == 'h' && UrlEnd(s, i) > i
  {
    UrlEndIsUrl(s, i);
  }

  /** The pattern of a URL from i to e: a scheme, then as many characters as there are, at least one, before whitespace, a closing parenthesis or an angle bracket. */
  predicate IsUrl(s: string, i: nat, e: nat) {
    IsUrlWith(s, i, "http://", e) || IsUrlWith(s, i, "https://", e)
  }

  predicate IsUrlWith(s: string, i: nat, w: string, e: nat) {
    && i + |w| < e <= |s| && s[i..i + |w|] == w
    && (forall k :: i + |w| <= k < e ==> s[k] != ')' && s[k] != '>' && !IsSpace(s[k]))
    && (e < |s| ==> s[e] == ')' || s[e] == '>' || IsSpace(s[e]))
  }

  lemma MatchesSlice(s: string, i: nat, w: string)
    ensures Matches(s, i, w) <==> i + |w| <= |s| && s[i..i + |w|] == w
  {
    if i + |w| <= |s| {
      var x := s[i..i + |w|];
      assert forall k :: 0 <= k < |w| ==> x[k] == s[i + k];
    }
  }

  lemma SchemeIs(s: string, i: nat, w: string)
    requires IsHttp(w) && Matches(s, i, w)
    ensures SchemeEnd(s, i) == i + |w|
  {
    OneScheme(s, i);
  }

  /** The scanner finds exactly that pattern. */
  lemma UrlEndIffPattern(s: string, i: nat, e: nat)
    ensures UrlEnd(s, i) == e && e > i <==> IsUrl(s, i, e)
  {
    hide UrlEnd, IsUrlWith, Matches;
    if UrlEnd(s, i) == e && e > i { UrlHasPattern(s, i); }
    if IsUrlWith(s, i, "http://", e) { PatternIsUrl(s, i, "http://", e); }
    if IsUrlWith(s, i, "https://", e) { PatternIsUrl(s, i, "https://", e); }
  }

  lemma UrlHasPattern(s: string, i: nat)
    requires UrlEnd(s, i) > i
    ensures IsUrl(s, i, UrlEnd(s, i))
  {
    hide IsUrlWith, RunEnd, Matches;
    if Matches(s, i, "http://") { UrlHasPatternWith(s, i, "http://"); } else { UrlHasPatternWith(s, i, "https://"); }
  }

  lemma UrlHasPatternWith(s: string, i: nat, w: string)
    requires IsHttp(w) && Matches(s, i, w) && UrlEnd(s, i) > i
    ensures IsUrlWith(s, i, w, UrlEnd(s, i))
  {
    hide IsSpace, RunEnd, Matches;
    MatchesSlice(s, i, w);
    SchemeIs(s, i, w);
    RunIsMaximal(s, i + |w|, InUrl);
    assert forall k :: i + |w| <= k < UrlEnd(s, i) ==> In(s[k], InUrl);
  }

  lemma PatternIsUrl(s: string, i: nat, w: string, e: nat)
    requires IsHttp(w) && IsUrlWith(s, i, w, e)
    ensures UrlEnd(s, i) == e && e > i
  {
    hide IsSpace, RunEnd, Matches;
    MatchesSlice(s, i, w);
    SchemeIs(s, i, w);
    RunIs(s, i + |w|, e, InUrl);
  }

  lemma RunIs(s: string, i: nat, j: nat, k: Class)
    requires i <= j <= |s| && (forall m :: i <= m < j ==> In(s[m], k)) && (j < |s| ==> !In(s[j], k))
    ensures RunEnd(s, i, k) == j
  {
    hide In, RunEnd;
    RunIsMaximal(s, i, k);
    if j < |s| { RunStops(s, i, j, k); }
  }

  lemma MatchesOpenUrls(s: string, i: nat, sources: seq<Source>)
    requires i < |s|
    ensures Match(RawUrls, s, i, sources).Some? <==> OpenUrl(s, i)
    ensures Match(RawUrls, s, i, sources).Some? ==> Match(RawUrls, s, i, sources).value.end == UrlEnd(s, i)
  {
    hide HasUrl, UrlEnd, RStripChars, Reference, ByUrl;
    UrlEndIsUrl(s, i);
  }

  predicate IsHttp(w: string) {
    w == "http://" || w == "https://"
  }

  lemma SchemeCharsInUrl(s: string, i: nat, w: string)
    requires Matches(s, i, w) && IsHttp(w)
    ensures forall k :: i <= k < i + |w| ==> In(s[k], InUrl)
  {
    assert forall k :: i <= k < i + |w| ==> s[k] == w[k - i];
  }

  /** Every character of a URL is one that a URL may hold, and the URL goes on as far as they do. */
  lemma UrlIsRun(s: string, i: nat)
    requires HasUrl(s, i)
    ensures forall k :: i <= k < UrlEnd(s, i) ==> In(s[k], InUrl)
    ensures UrlEnd(s, i) < |s| ==> !In(s[UrlEnd(s, i)], InUrl)
  {
    hide In, HasUrl;
    HasUrlInside(s, i);
    var u := SchemeEnd(s, i);
    RunIsMaximal(s, u, InUrl);
    if Matches(s, i, "http://") { SchemeCharsInUrl(s, i, "http://"); } else { SchemeCharsInUrl(s, i, "https://"); }
  }

  /** A URL inside another one ends with it. */
  lemma InnerUrlEnds(s: string, i: nat, j: nat)
    requires HasUrl(s, i) && HasUrl(s, j) && i <= j < UrlEnd(s, i)
    ensures UrlEnd(s, j) == UrlEnd(s, i)
  {
    hide HasUrl, In, UrlEnd;
    HasUrlInside(s, i);
    HasUrlInside(s, j);
    UrlIsRun(s, i);
    UrlIsRun(s, j);
  }

  lemma {:induction false} ReachedFrom(s: string, a: nat, i: nat, sources: seq<Source>)
    requires a <= i <= |s| && NotSwallowed(s, a)
    ensures Reaches(RawUrls, s, a, i, sources) <==> NotSwallowed(s, i)
    decreases i - a
  {
    hide Match, HasUrl, UrlEnd;
    if a < i {
      var n := NextLook(RawUrls, s, a, sources);
      MatchesOpenUrls(s, a, sources);
      if Match(RawUrls, s, a, sources).Some? {
        forall j: nat | j < n && OpenUrl(s, j) ensures UrlEnd(s, j) <= n {
          if j >= a { InnerUrlEnds(s, a, j); }
        }
      }
      if n <= i { ReachedFrom(s, n, i, sources); }
    }
  }

  /** The pass looks at a position exactly when no earlier URL swallows it. */
  lemma ReachedIffNotSwallowed(s: string, i: nat, sources: seq<Source>)
    requires i <= |s|
    ensures Reaches(RawUrls, s, 0, i, sources) <==> NotSwallowed(s, i)
  {
    ReachedFrom(s, 0, i, sources);
  }

  // ------------------------------------------------------- what survives is left

  lemma UrlMovesOn(r: string, rest: string)
    requires HasUrl(rest, 0)
    ensures HasUrl(r + rest, |r|)
  {
    hide HasUrl, UrlEnd;
    UrlEndIsUrl(rest, 0);
    UrlEndIsUrl(r + rest, |r|);
    UrlMoves(r, rest, 0);
  }

  /** What the pass writes from a character that a URL may hold starts with such a character. */
  lemma StillUrlChar(s: string, i: nat, sources: seq<Source>)
    requires i < |s| && In(s[i], InUrl)
    ensures StartsUrlChar(Sub(RawUrls, s, i, sources))
  {
    hide HasUrl, UrlEnd;
    if Match(RawUrls, s, i, sources).Some? { UrlHit(s, i, sources); }
  }

  lemma SchemeCopied(s: string, i: nat, w: string, sources: seq<Source>)
    requires IsHttp(w) && Matches(s, i, w) && i + |w| <= |s| && AfterParen(s, i)
    ensures Sub(RawUrls, s, i, sources) == w + Sub(RawUrls, s, i + |w|, sources)
    ensures forall k :: i <= k < i + |w| ==> Match(RawUrls, s, k, sources).None?
    ensures Reaches(RawUrls, s, i, i + |w|, sources)
  {
    hide Match, HasUrl, UrlEnd;
    assert forall k :: 0 <= k < |w| ==> s[i + k] == w[k];
    forall k | i <= k < i + |w| ensures Match(RawUrls, s, k, sources).None? {
      assert s[k] == w[k - i];
      MatchesOpenUrls(s, k, sources);
      if HasUrl(s, k) { HasUrlInside(s, k); }
    }
    CopiedRun(RawUrls, s, i, i + |w|, sources);
    SubSplits(RawUrls, s, i, i + |w|, sources);
    assert s[i..i + |w|] == w;
  }

  lemma SurvivorWith(s: string, i: nat, w: string, sources: seq<Source>)
    requires IsHttp(w) && HasUrlWith(s, i, w) && AfterParen(s, i)
    ensures HasUrlWith(Sub(RawUrls, s, i, sources), 0, w)
  {
    hide In, AfterParen, Sub, Matches;
    SchemeCopied(s, i, w, sources);
    StillUrlChar(s, i + |w|, sources);
    SchemeThenUrlChar(w, Sub(RawUrls, s, i + |w|, sources));
  }

  lemma SchemeThenUrlChar(w: string, rest: string)
    requires StartsUrlChar(rest)
    ensures HasUrlWith(w + rest, 0, w)
  {
    hide In;
    var t := w + rest;
    assert t[|w|] == rest[0];
    assert forall k :: 0 <= k < |w| ==> t[0 + k] == w[k];
  }

  lemma SurvivorIsLeft(s: string, i: nat, sources: seq<Source>)
    requires HasUrl(s, i) && AfterParen(s, i)
    ensures HasUrl(Sub(RawUrls, s, i, sources), 0)
  {
    hide HasUrlWith;
    assert i <= |s|;
    if HasUrlWith(s, i, "http://") {
      SurvivorWith(s, i, "http://", sources);
    } else {
      SurvivorWith(s, i, "https://", sources);
    }
  }

  // ------------------------------------------------------- what is left survived

  /** A URL in the output from a on is one of the input that the pass looks at and does not match. */
  lemma {:induction false} LeftWasLookedAt(s: string, a: nat, q: nat, sources: seq<Source>) returns (i: nat)
    requires a <= |s| && HasUrl(Sub(RawUrls, s, a, sources), q)
    requires forall k :: 0 <= k < |sources| ==> ColonFree(sources[k].id)
    ensures a <= i < |s| && Reaches(RawUrls, s, a, i, sources)
    ensures HasUrl(s, i) && Match(RawUrls, s, i, sources).None?
    decreases |s| - a
  {
    hide Match, HasUrl, ColonFree;
    HasUrlInside(Sub(RawUrls, s, a, sources), q);
    if q == 0 {
      UrlWasThere(s, a, sources);
      i := a;
    } else {
      var head := PieceHoldsNoUrl(s, a, q, sources);
      var n := NextLook(RawUrls, s, a, sources);
      UrlInRest(head, Sub(RawUrls, s, n, sources), q);
      i := LeftWasLookedAt(s, n, q - |head|, sources);
    }
  }

  /** The piece written for position a; no URL of the output starts inside it but at its first character. */
  lemma PieceHoldsNoUrl(s: string, a: nat, q: nat, sources: seq<Source>) returns (head: string)
    requires a < |s| && HasUrl(Sub(RawUrls, s, a, sources), q) && q > 0
    requires forall k :: 0 <= k < |sources| ==> ColonFree(sources[k].id)
    ensures Sub(RawUrls, s, a, sources) == head + Sub(RawUrls, s, NextLook(RawUrls, s, a, sources), sources)
    ensures |head| <= q
  {
    hide HasUrl, ColonFree, ByUrl, RStripChars, UrlEnd;
    match Match(RawUrls, s, a, sources) {
      case None =>
        head := [s[a]];
      case Some(hit) =>
        head := hit.text;
        var id := ReferenceShape(sources, RStripChars(RStripChars(s[a..UrlEnd(s, a)], ".,;:"), "/"));
        if q < |head| { NoUrlInReference(id, Sub(RawUrls, s, hit.end, sources), q); }
    }
  }

  /**
    The URL pass leaves a URL in the text exactly when the text has one right
    after an opening parenthesis that no earlier match swallows.
   */
  lemma UrlLeftIffOneSurvives(s: string, sources: seq<Source>)
    requires forall k :: 0 <= k < |sources| ==> ColonFree(sources[k].id)
    ensures HoldsUrl(Sub(RawUrls, s, 0, sources)) <==> SomeUrlSurvives(s)
  {
    hide Match, HasUrl, ColonFree, Reaches, AfterParen, NotSwallowed;
    if HoldsUrl(Sub(RawUrls, s, 0, sources)) {
      var q: nat :| HasUrl(Sub(RawUrls, s, 0, sources), q);
      var i := LeftWasLookedAt(s, 0, q, sources);
      MatchesOpenUrls(s, i, sources);
      ReachedIffNotSwallowed(s, i, sources);
      assert Survives(s, i);
    }
    if i: nat :| Survives(s, i) {
      SurvivorIsAt(s, i, sources);
    }
  }

  /** A surviving URL stands in the output where its text was written, still right after the parenthesis. */
  lemma SurvivorIsAt(s: string, i: nat, sources: seq<Source>)
    requires Survives(s, i)
    ensures i < |s| && HasUrl(Sub(RawUrls, s, 0, sources), |Written(RawUrls, s, 0, i, sources)|)
  {
    hide Match, HasUrl, AfterParen, NotSwallowed, Written;
    HasUrlInside(s, i);
    ReachedIffNotSwallowed(s, i, sources);
    SubSplits(RawUrls, s, 0, i, sources);
    SurvivorIsLeft(s, i, sources);
    UrlMovesOn(Written(RawUrls, s, 0, i, sources), Sub(RawUrls, s, i, sources));
  }

  /** The text that enters the URL pass. */
  function Entering(markdown: string, sources: seq<Source>): string {
    Sub(Links, Sub(Markers, markdown, 0, sources), 0, sources)
  }

  /** Validation leaves a URL exactly when one survives in the text that enters the last pass. */
  lemma UrlLeftByValidation(markdown: string, sources: seq<Source>)
    requires forall k :: 0 <= k < |sources| ==> ColonFree(sources[k].id)
    ensures HoldsUrl(Validated(markdown, sources).0) <==> SomeUrlSurvives(Entering(markdown, sources))
  {
    UrlLeftIffOneSurvives(Entering(markdown, sources), sources);
  }

  /** Any other URL that no earlier one swallows is replaced by its reference. */
  lemma OpenUrlReplaced(s: string, i: nat, sources: seq<Source>)
    requires OpenUrl(s, i) && NotSwallowed(s, i)
    ensures i < UrlEnd(s, i) <= |s|
    ensures var known := RStripChars(RStripChars(s[i..UrlEnd(s, i)], ".,;:"), "/");
            && Sub(RawUrls, s, 0, sources) ==
               Written(RawUrls, s, 0, i, sources) + (Reference(sources, known) + Sub(RawUrls, s, UrlEnd(s, i), sources))
            && (ByUrl(sources, known).None? ==> Flags(RawUrls, s, 0, sources))
  {
    hide HasUrl, UrlEnd, RStripChars, Reference, ByUrl, Written, Reaches;
    HasUrlInside(s, i);
    MatchesOpenUrls(s, i, sources);
    ReachedIffNotSwallowed(s, i, sources);
    HitReplaced(RawUrls, s, i, sources);
  }
}
