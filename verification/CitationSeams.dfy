/**
  Two texts put together: when a pass finds the same in each of them as on its
  own, so that validating both together is validating each.
 */
module CitationSeams {
  import opened Wrappers
  import opened Chars
  import opened Citations
  import opened CitationScan

  ghost predicate Splits(pass: Pass, x: string, y: string, sources: seq<Source>) {
    Bounded(pass, x, y, sources) && Unaffected(pass, x, y, sources)
  }

  // ------------------------------------------------------- scanning behind a text

  lemma RunMoves(x: string, y: string, i: nat, k: Class)
    requires i <= |y|
    ensures RunEnd(x + y, |x| + i, k) == |x| + RunEnd(y, i, k)
  {
    assert (x + y)[|x|..|x| + |y|] == y;
    RunInSlice(x + y, |x|, |x| + |y|, i, k);
  }

  lemma MatchesMove(x: string, y: string, i: nat, w: string)
    ensures Matches(x + y, |x| + i, w) <==> Matches(y, i, w)
  {
    var t, n := x + y, |x|;
    assert forall k :: 0 <= k < |y| ==> t[n + k] == y[k];
    if Matches(t, n + i, w) {
      forall k | 0 <= k < |w| ensures y[i + k] == w[k] {
        var m := i + k;
        assert t[n + i + k] == w[k] && t[n + m] == y[m];
      }
    }
    if Matches(y, i, w) {
      forall k | 0 <= k < |w| ensures t[n + i + k] == w[k] {
        var m := i + k;
        assert y[i + k] == w[k] && t[n + m] == y[m];
      }
    }
  }

  lemma SchemeMoves(x: string, y: string, i: nat)
    ensures SchemeEnd(x + y, |x| + i) == |x| + SchemeEnd(y, i)
  {
    hide Matches;
    MatchesMove(x, y, i, "http://");
    MatchesMove(x, y, i, "https://");
  }

  lemma SliceMoves(x: string, y: string, a: nat, b: nat)
    requires a <= b <= |y|
    ensures (x + y)[|x| + a..|x| + b] == y[a..b]
  {
  }

  lemma MarkerMoves(x: string, y: string, i: nat)
    requires i < |y|
    ensures MarkerAt(x + y, |x| + i) == match MarkerAt(y, i) case None => None case Some(e) => Some(|x| + e)
  {
    hide RunEnd;
    var t := x + y;
    assert t[|x| + i] == y[i] && (i + 1 < |y| ==> t[|x| + i + 1] == y[i + 1]);
    if i + 2 <= |y| {
      RunMoves(x, y, i + 2, Digit);
      var j := RunEnd(y, i + 2, Digit);
      assert j < |y| ==> t[|x| + j] == y[j];
    }
  }

  lemma MarkersUnaffected(x: string, y: string, sources: seq<Source>)
    ensures Unaffected(Markers, x, y, sources)
  {
    hide MarkerAt, IsId;
    forall j | 0 <= j < |y| ensures SameHit(Match(Markers, x + y, |x| + j, sources), Match(Markers, y, j, sources), |x|) {
      MarkerMoves(x, y, j);
      MarkerAtIsMarker(y, j);
      if MarkerAt(y, j).Some? {
        SliceMoves(x, y, j, MarkerAt(y, j).value);
        SliceMoves(x, y, j + 1, MarkerAt(y, j).value - 1);
      }
    }
  }

  lemma LinkMoves(x: string, y: string, i: nat)
    requires i < |y|
    ensures LinkAt(x + y, |x| + i) ==
            match LinkAt(y, i) case None => None case Some(link) => Some(Link(|x| + link.labelEnd, |x| + link.urlEnd))
  {
    hide RunEnd, SchemeEnd;
    RunMoves(x, y, i + 1, NotBracket);
    var j := RunEnd(y, i + 1, NotBracket);
    if j + 2 <= |y| {
      SchemeMoves(x, y, j + 2);
      RunMoves(x, y, SchemeEnd(y, j + 2), InLink);
    }
  }

  lemma LinksUnaffected(x: string, y: string, sources: seq<Source>)
    ensures Unaffected(Links, x, y, sources)
  {
    hide LinkAt, RStripChars, Reference, ByUrl;
    forall j | 0 <= j < |y| ensures SameHit(Match(Links, x + y, |x| + j, sources), Match(Links, y, j, sources), |x|) {
      LinkMoves(x, y, j);
      if LinkAt(y, j).Some? {
        var link := LinkAt(y, j).value;
        SliceMoves(x, y, j + 1, link.labelEnd);
        SliceMoves(x, y, link.labelEnd + 2, link.urlEnd);
      }
    }
  }

  lemma UrlMoves(x: string, y: string, i: nat)
    requires i <= |y|
    ensures UrlEnd(x + y, |x| + i) == |x| + UrlEnd(y, i)
  {
    hide RunEnd, SchemeEnd;
    SchemeMoves(x, y, i);
    if SchemeEnd(y, i) <= |y| { RunMoves(x, y, SchemeEnd(y, i), InUrl); }
  }

  /** No URL of y comes to stand right after an opening parenthesis of x. */
  predicate NoNewParen(x: string, y: string) {
    !(x != "" && x[|x| - 1] == '(' && y != "" && y[0] == 'h')
  }

  lemma UrlsUnaffected(x: string, y: string, sources: seq<Source>)
    requires NoNewParen(x, y)
    ensures Unaffected(RawUrls, x, y, sources)
  {
    hide UrlEnd, RStripChars, Reference, ByUrl, HasUrl;
    forall j | 0 <= j < |y| ensures SameHit(Match(RawUrls, x + y, |x| + j, sources), Match(RawUrls, y, j, sources), |x|) {
      UrlMoves(x, y, j);
      UrlEndIsUrl(y, j);
      SliceMoves(x, y, j, UrlEnd(y, j));
    }
  }

  // ------------------------------------------------------- scanning up to a text

  lemma RunStopsInside(x: string, y: string, i: nat, k: Class)
    requires i <= |x|
    ensures RunEnd(x, i, k) == if RunEnd(x + y, i, k) < |x| then RunEnd(x + y, i, k) else |x|
  {
    assert (x + y)[0..|x|] == x;
    RunInSlice(x + y, 0, |x|, i, k);
  }

  lemma RunStopsBy(x: string, y: string, i: nat, t: nat, k: Class)
    requires i <= t < |x| && !In(x[t], k)
    ensures RunEnd(x + y, i, k) == RunEnd(x, i, k) <= t
  {
    hide In;
    RunIsMaximal(x, i, k);
    RunStopsInside(x, y, i, k);
  }

  predicate CloseAfter(s: string, p: nat) {
    exists q :: p < q < |s| && s[q] == ']'
  }

  /** Every opening bracket has a closing one after it. */
  predicate Closed(s: string) {
    forall p :: 0 <= p < |s| && s[p] == '[' ==> CloseAfter(s, p)
  }

  lemma MarkersBounded(x: string, y: string, sources: seq<Source>)
    requires Closed(x)
    ensures Bounded(Markers, x, y, sources)
  {
    hide RunEnd, IsId, In;
    forall j | 0 <= j < |x| ensures Match(Markers, x + y, j, sources) == Match(Markers, x, j, sources) {
      assert forall k :: 0 <= k < |x| ==> (x + y)[k] == x[k];
      if x[j] == '[' {
        MarkerBounded(x, y, j);
        if MarkerAt(x, j).Some? {
          SliceKept(x, y, j, MarkerAt(x, j).value);
          SliceKept(x, y, j + 1, MarkerAt(x, j).value - 1);
        }
      }
    }
  }

  lemma SliceKept(x: string, y: string, a: nat, b: nat)
    requires a <= b <= |x|
    ensures (x + y)[a..b] == x[a..b]
  {
  }

  lemma MarkerBounded(x: string, y: string, j: nat)
    requires j < |x| && CloseAfter(x, j)
    ensures MarkerAt(x + y, j) == MarkerAt(x, j)
  {
    hide RunEnd;
    var q :| j < q < |x| && x[q] == ']';
    assert forall k :: 0 <= k < |x| ==> (x + y)[k] == x[k];
    if j + 2 <= q { RunStopsBy(x, y, j + 2, q, Digit); }
  }

  /** Every scheme that starts in x is ended in x, by whitespace or a closing parenthesis, whatever y is. */
  ghost predicate EndsInside(x: string, y: string) {
    forall j :: 0 <= j < |x| && SchemeEnd(x + y, j) > j ==> StopAfter(x, SchemeEnd(x + y, j))
  }

  ghost predicate StopAfter(x: string, u: nat) {
    exists t :: u <= t < |x| && !In(x[t], InLink)
  }

  lemma SchemeKept(x: string, y: string, j: nat)
    requires SchemeEnd(x + y, j) <= |x|
    ensures SchemeEnd(x, j) == SchemeEnd(x + y, j)
  {
    assert forall k :: 0 <= k < |x| ==> (x + y)[k] == x[k];
    if Matches(x + y, j, "http://") {
      MatchesKept(x, y, j, "http://");
    } else if Matches(x + y, j, "https://") {
      MatchesKept(x, y, j, "https://");
    }
    if Matches(x, j, "http://") { MatchesStill(x, y, j, "http://"); }
    if Matches(x, j, "https://") { MatchesStill(x, y, j, "https://"); }
  }

  lemma MatchesKept(x: string, y: string, j: nat, w: string)
    requires Matches(x + y, j, w) && j + |w| <= |x|
    ensures Matches(x, j, w)
  {
    forall k | 0 <= k < |w| ensures x[j + k] == w[k] {
      assert (x + y)[j + k] == w[k];
    }
  }

  lemma MatchesStill(x: string, y: string, j: nat, w: string)
    requires Matches(x, j, w)
    ensures Matches(x + y, j, w)
  {
    forall k | 0 <= k < |w| ensures (x + y)[j + k] == w[k] {
      assert x[j + k] == w[k];
    }
  }

  lemma NoSchemeStays(x: string, y: string, j: nat)
    requires SchemeEnd(x + y, j) == j
    ensures SchemeEnd(x, j) == j
  {
    if Matches(x, j, "http://") { MatchesStill(x, y, j, "http://"); }
    if Matches(x, j, "https://") { MatchesStill(x, y, j, "https://"); }
  }

  lemma NoSchemeWithoutH(s: string, i: nat)
    requires i >= |s| || s[i] != 'h'
    ensures SchemeEnd(s, i) == i
  {
    SchemeSpan(s, i, i);
  }

  predicate SchemeLetter(c: char) {
    c == 'h' || c == 't' || c == 'p' || c == 's' || c == ':' || c == '/'
  }

  /** A scheme is made of its letters, all of which a URL may hold, and starts with an h. */
  lemma SchemeSpan(t: string, j: nat, p: nat)
    ensures j <= p < SchemeEnd(t, j) ==> p < |t| && SchemeLetter(t[p]) && In(t[p], InUrl) && (p == j ==> t[p] == 'h')
  {
    if j <= p < SchemeEnd(t, j) {
      var w := if Matches(t, j, "http://") then "http://" else "https://";
      assert t[j + (p - j)] == w[p - j];
    }
  }

  /** A closing bracket at the end of x does not meet an opening parenthesis. */
  predicate NoNewLink(x: string, y: string) {
    !(x != "" && x[|x| - 1] == ']' && y != "" && y[0] == '(')
  }

  lemma LinkBounded(x: string, y: string, i: nat)
    requires i < |x| && x[i] == '[' && CloseAfter(x, i) && EndsInside(x, y)
    requires NoNewLink(x, y) && NoNewParen(x, y)
    ensures LinkAt(x + y, i) == LinkAt(x, i)
  {
    hide RunEnd, SchemeEnd, IsSpace, IsDigit;
    var q :| i < q < |x| && x[q] == ']';
    RunStopsBy(x, y, i + 1, q, NotBracket);
    var j := RunEnd(x, i + 1, NotBracket);
    assert forall k :: 0 <= k < |x| ==> (x + y)[k] == x[k];
    RunIsMaximal(x, i + 1, NotBracket);
    if j + 1 < |x| && x[j + 1] == '(' {
      var u := SchemeEnd(x + y, j + 2);
      if j + 2 == |x| {
        SchemeMoves(x, y, 0);
        NoSchemeWithoutH(y, 0);
        NoSchemeStays(x, y, j + 2);
      } else if u > j + 2 {
        assert StopAfter(x, u);
        var t :| u <= t < |x| && !In(x[t], InLink);
        SchemeKept(x, y, j + 2);
        RunStopsBy(x, y, u, t, InLink);
      } else {
        NoSchemeStays(x, y, j + 2);
      }
    }
  }

  lemma LinksBounded(x: string, y: string, sources: seq<Source>)
    requires Closed(x) && EndsInside(x, y) && NoNewLink(x, y) && NoNewParen(x, y)
    ensures Bounded(Links, x, y, sources)
  {
    hide RStripChars, Reference, ByUrl, EndsInside, RunEnd;
    forall j | 0 <= j < |x| ensures Match(Links, x + y, j, sources) == Match(Links, x, j, sources) {
      assert (x + y)[j] == x[j];
      if x[j] == '[' {
        LinkBounded(x, y, j);
        LinkMatchKept(x, y, j, sources);
      }
    }
  }

  lemma LinkMatchKept(x: string, y: string, j: nat, sources: seq<Source>)
    requires j < |x| && LinkAt(x + y, j) == LinkAt(x, j)
    ensures Match(Links, x + y, j, sources) == Match(Links, x, j, sources)
  {
    hide RStripChars, Reference, ByUrl, LinkAt;
    if LinkAt(x, j).Some? {
      var link := LinkAt(x, j).value;
      SliceKept(x, y, j + 1, link.labelEnd);
      SliceKept(x, y, link.labelEnd + 2, link.urlEnd);
    }
  }

  predicate NoOpenBracket(s: string) {
    forall k :: 0 <= k < |s| ==> s[k] != '['
  }

  lemma NothingBracketed(pass: Pass, x: string, y: string, sources: seq<Source>)
    requires NoOpenBracket(x) && !pass.RawUrls?
    ensures Bounded(pass, x, y, sources)
  {
    hide RunEnd, SchemeEnd, RStripChars, Reference, ByUrl;
    assert forall k :: 0 <= k < |x| ==> (x + y)[k] == x[k];
  }

  /** Every URL that starts in x is over by the end of x, or y goes on with a character that no URL holds. */
  ghost predicate UrlsEnd(x: string, y: string) {
    y == "" || !In(y[0], InUrl) || EndsInside(x, y)
  }

  lemma RunUpToSeam(x: string, y: string, i: nat)
    requires i <= |x| && y != "" && !In(y[0], InUrl)
    ensures RunEnd(x + y, i, InUrl) == RunEnd(x, i, InUrl)
  {
    hide In;
    RunStopsInside(x, y, i, InUrl);
    RunIsMaximal(x + y, i, InUrl);
    assert (x + y)[|x|] == y[0];
  }

  lemma SchemeBeforeSeam(x: string, y: string, j: nat)
    requires y != "" && !In(y[0], InUrl) && j < |x|
    ensures SchemeEnd(x + y, j) <= |x|
  {
    hide In, SchemeEnd, SchemeLetter;
    SchemeSpan(x + y, j, |x|);
    assert (x + y)[|x|] == y[0];
  }

  lemma UrlEndBounded(x: string, y: string, j: nat)
    requires j < |x| && UrlsEnd(x, y)
    ensures UrlEnd(x + y, j) == UrlEnd(x, j)
  {
    hide RunEnd, SchemeEnd, In;
    if y == "" {
      assert x + y == x;
    } else {
      var u := SchemeEnd(x + y, j);
      if u == j {
        NoSchemeStays(x, y, j);
      } else if !In(y[0], InUrl) {
        SchemeBeforeSeam(x, y, j);
        SchemeKept(x, y, j);
        RunUpToSeam(x, y, u);
      } else {
        assert StopAfter(x, u);
        StopEndsUrl(x, y, j);
      }
    }
  }

  lemma StopEndsUrl(x: string, y: string, j: nat)
    requires j < |x| && SchemeEnd(x + y, j) > j && StopAfter(x, SchemeEnd(x + y, j))
    ensures UrlEnd(x + y, j) == UrlEnd(x, j)
  {
    hide RunEnd, SchemeEnd, IsSpace;
    var u := SchemeEnd(x + y, j);
    var t :| u <= t < |x| && !In(x[t], InLink);
    SchemeKept(x, y, j);
    RunStopsBy(x, y, u, t, InUrl);
  }

  lemma UrlsBounded(x: string, y: string, sources: seq<Source>)
    requires UrlsEnd(x, y)
    ensures Bounded(RawUrls, x, y, sources)
  {
    hide UrlEnd, RStripChars, Reference, ByUrl, UrlsEnd;
    forall j | 0 <= j < |x| ensures Match(RawUrls, x + y, j, sources) == Match(RawUrls, x, j, sources) {
      assert forall k :: 0 <= k < |x| ==> (x + y)[k] == x[k];
      UrlEndBounded(x, y, j);
      if UrlEnd(x, j) > j { SliceKept(x, y, j, UrlEnd(x, j)); }
    }
  }

  // ------------------------------------------------------- texts that end for sure

  /** A scheme that starts in x is over before a last character that no scheme holds. */
  lemma SchemeBeforeLast(x: string, y: string, j: nat)
    requires j < |x| && !SchemeLetter(x[|x| - 1]) && SchemeEnd(x + y, j) > j
    ensures SchemeEnd(x + y, j) <= |x| - 1
  {
    hide SchemeEnd, SchemeLetter;
    SchemeSpan(x + y, j, |x| - 1);
    assert (x + y)[|x| - 1] == x[|x| - 1];
  }

  /** Whitespace or a closing parenthesis at the end of x ends everything in it. */
  lemma StopEndsAll(x: string, y: string)
    requires x == "" || !In(x[|x| - 1], InLink)
    ensures EndsInside(x, y)
  {
    hide SchemeEnd;
    forall j | 0 <= j < |x| && SchemeEnd(x + y, j) > j ensures StopAfter(x, SchemeEnd(x + y, j)) {
      SchemeBeforeLast(x, y, j);
      assert !In(x[|x| - 1], InLink);
    }
  }

  ghost predicate NoScheme(s: string) {
    forall j :: 0 <= j < |s| ==> SchemeEnd(s, j) == j
  }

  /** Nothing has to end where there is no scheme and none can be completed. */
  lemma NoSchemeEndsAll(x: string, y: string)
    requires NoScheme(x) && (x == "" || !SchemeLetter(x[|x| - 1]))
    ensures EndsInside(x, y)
  {
    hide SchemeEnd;
    forall j | 0 <= j < |x| ensures SchemeEnd(x + y, j) == j {
      if SchemeEnd(x + y, j) > j {
        SchemeBeforeLast(x, y, j);
        SchemeKept(x, y, j);
      }
    }
  }

  // ------------------------------------------------------- whole validation

  /** Each pass treats x and y as it would on their own. */
  ghost predicate Apart(x: string, y: string, sources: seq<Source>) {
    var x1, y1 := Sub(Markers, x, 0, sources), Sub(Markers, y, 0, sources);
    var x2, y2 := Sub(Links, x1, 0, sources), Sub(Links, y1, 0, sources);
    && Splits(Markers, x, y, sources)
    && Splits(Links, x1, y1, sources)
    && Splits(RawUrls, x2, y2, sources)
  }

  /** Two results one after the other. */
  function Joined(a: (string, seq<string>), b: (string, seq<string>)): (string, seq<string>) {
    (a.0 + b.0, if a.1 != [] then a.1 else b.1)
  }

  lemma ValidatedTogether(x: string, y: string, sources: seq<Source>)
    requires Apart(x, y, sources)
    ensures Validated(x + y, sources) == Joined(Validated(x, sources), Validated(y, sources))
  {
    hide Match, Sub, Flags, Splits;
    var x1, y1 := Sub(Markers, x, 0, sources), Sub(Markers, y, 0, sources);
    var x2, y2 := Sub(Links, x1, 0, sources), Sub(Links, y1, 0, sources);
    SplitsConcat(Markers, x, y, sources);
    SplitsConcat(Links, x1, y1, sources);
    SplitsConcat(RawUrls, x2, y2, sources);
  }

  lemma SplitsConcat(pass: Pass, x: string, y: string, sources: seq<Source>)
    requires Splits(pass, x, y, sources)
    ensures Sub(pass, x + y, 0, sources) == Sub(pass, x, 0, sources) + Sub(pass, y, 0, sources)
    ensures Flags(pass, x + y, 0, sources) == (Flags(pass, x, 0, sources) || Flags(pass, y, 0, sources))
  {
    hide Bounded, Unaffected, Sub, Flags;
    PassConcat(pass, x, y, sources);
  }
}
