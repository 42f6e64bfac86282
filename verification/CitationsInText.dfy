/**
  What a source marker, a markdown link or a URL becomes inside an answer,
  whatever stands before and after it.
 */
module CitationsInText {
  import opened Wrappers
  import opened Chars
  import opened Citations
  import opened CitationScan
  import opened CitationSeams
  import opened SurvivingUrls

  // ------------------------------------------------------- text that ends in whitespace

  /** Empty, or ended by whitespace with every bracket closed. */
  predicate Sealed(w: string) {
    w == "" || (IsSpace(w[|w| - 1]) && Closed(w))
  }

  lemma SpaceEnds(c: char)
    requires IsSpace(c)
    ensures !In(c, InLink) && !SchemeLetter(c) && c != ']' && c != ')' && c != '('
  {
  }

  /** A marker or link match ends in a bracket or parenthesis and is replaced by text ending in a bracket. */
  lemma HitEnds(pass: Pass, s: string, i: nat, sources: seq<Source>)
    requires i < |s| && !pass.RawUrls? && Match(pass, s, i, sources).Some?
    ensures var hit := Match(pass, s, i, sources).value;
            && (s[hit.end - 1] == ']' || s[hit.end - 1] == ')')
            && hit.text != "" && hit.text[|hit.text| - 1] == ']'
  {
    hide IsId, RStripChars, ByUrl, RunEnd, SchemeEnd, IsDigit;
    match pass {
      case Markers =>
        MarkerAtIsMarker(s, i);
      case Links =>
        ReferenceEnds(sources, RStripChars(s[LinkAt(s, i).value.labelEnd + 2..LinkAt(s, i).value.urlEnd], "/"));
    }
  }

  lemma ReferenceEnds(sources: seq<Source>, url: string)
    ensures var r := Reference(sources, url);
            |r| > 1 && r[0] == '[' && r[|r| - 1] == ']'
  {
    hide ByUrl;
  }

  lemma {:induction false} LastKept(pass: Pass, w: string, i: nat, sources: seq<Source>)
    requires i < |w| && !pass.RawUrls? && IsSpace(w[|w| - 1])
    ensures var t := Sub(pass, w, i, sources); t != "" && t[|t| - 1] == w[|w| - 1]
    decreases |w| - i
  {
    hide Match, IsSpace;
    SpaceEnds(w[|w| - 1]);
    var n := NextLook(pass, w, i, sources);
    if Match(pass, w, i, sources).Some? { HitEnds(pass, w, i, sources); }
    if n < |w| {
      LastKept(pass, w, n, sources);
    }
  }

  predicate HasClose(s: string) {
    exists q :: 0 <= q < |s| && s[q] == ']'
  }

  lemma {:induction false} CloseKept(pass: Pass, w: string, i: nat, q: nat, sources: seq<Source>)
    requires i <= q < |w| && w[q] == ']' && !pass.RawUrls?
    ensures HasClose(Sub(pass, w, i, sources))
    decreases |w| - i
  {
    hide Match, HasClose;
    match Match(pass, w, i, sources) {
      case None =>
        var rest := Sub(pass, w, i + 1, sources);
        if i < q {
          CloseKept(pass, w, i + 1, q, sources);
          CloseFurther([w[i]], rest);
        } else {
          CloseAt([w[i]] + rest, 0);
        }
      case Some(hit) =>
        HitEnds(pass, w, i, sources);
        var rest := Sub(pass, w, hit.end, sources);
        assert (hit.text + rest)[|hit.text| - 1] == ']';
        CloseAt(hit.text + rest, |hit.text| - 1);
    }
  }

  lemma CloseAt(s: string, q: nat)
    requires q < |s| && s[q] == ']'
    ensures HasClose(s)
  {
  }

  lemma CloseFurther(head: string, rest: string)
    requires HasClose(rest)
    ensures HasClose(head + rest)
    ensures forall p :: 0 <= p < |head| ==> CloseAfter(head + rest, p)
  {
    var q :| 0 <= q < |rest| && rest[q] == ']';
    assert (head + rest)[|head| + q] == ']';
  }

  lemma ClosedPlus(head: string, rest: string)
    requires Closed(rest)
    requires forall p :: 0 <= p < |head| && head[p] == '[' ==> CloseAfter(head, p) || HasClose(rest)
    ensures Closed(head + rest)
  {
    hide CloseAfter, HasClose;
    var t := head + rest;
    forall p | 0 <= p < |t| && t[p] == '[' ensures CloseAfter(t, p) {
      if p < |head| {
        if HasClose(rest) { CloseFurther(head, rest); } else { CloseStill(head, rest, p); }
      } else {
        CloseShifted(head, rest, p - |head|);
      }
    }
  }

  lemma CloseStill(head: string, rest: string, p: nat)
    requires CloseAfter(head, p)
    ensures CloseAfter(head + rest, p)
  {
    var q :| p < q < |head| && head[q] == ']';
    assert (head + rest)[q] == ']';
  }

  lemma CloseShifted(head: string, rest: string, p: nat)
    requires p < |rest| && (head + rest)[|head| + p] == '[' && Closed(rest)
    ensures CloseAfter(head + rest, |head| + p)
  {
    assert rest[p] == '[';
    var q :| p < q < |rest| && rest[q] == ']';
    assert (head + rest)[|head| + q] == ']';
  }

  ghost predicate ClosedFrom(w: string, i: nat) {
    forall p :: i <= p < |w| && w[p] == '[' ==> CloseAfter(w, p)
  }

  lemma ClosedByLast(text: string)
    requires text != "" && text[|text| - 1] == ']'
    ensures forall p :: 0 <= p < |text| && text[p] == '[' ==> CloseAfter(text, p)
  {
  }

  lemma {:induction false} ClosedKept(pass: Pass, w: string, i: nat, sources: seq<Source>)
    requires i <= |w| && !pass.RawUrls? && ClosedFrom(w, i)
    ensures Closed(Sub(pass, w, i, sources))
    decreases |w| - i
  {
    hide Match, Closed, CloseAfter, HasClose;
    if i == |w| {
      EmptyClosed();
    } else {
      match Match(pass, w, i, sources) {
        case None =>
          var rest := Sub(pass, w, i + 1, sources);
          ClosedKept(pass, w, i + 1, sources);
          if w[i] == '[' {
            var q := CloseOf(w, i);
            CloseKept(pass, w, i + 1, q, sources);
          }
          ClosedPlus([w[i]], rest);
        case Some(hit) =>
          ClosedKept(pass, w, hit.end, sources);
          HitEnds(pass, w, i, sources);
          ClosedByLast(hit.text);
          ClosedPlus(hit.text, Sub(pass, w, hit.end, sources));
      }
    }
  }

  lemma EmptyClosed()
    ensures Closed("")
  {
  }

  lemma CloseOf(w: string, p: nat) returns (q: nat)
    requires CloseAfter(w, p)
    ensures p < q < |w| && w[q] == ']'
  {
    q :| p < q < |w| && w[q] == ']';
  }

  lemma SealedKept(pass: Pass, w: string, sources: seq<Source>)
    requires Sealed(w) && !pass.RawUrls?
    ensures Sealed(Sub(pass, w, 0, sources))
  {
    hide Match, IsSpace, CloseAfter;
    if w != "" {
      LastKept(pass, w, 0, sources);
      ClosedKept(pass, w, 0, sources);
    }
  }

  lemma SealedSplits(pass: Pass, w: string, y: string, sources: seq<Source>)
    requires Sealed(w)
    ensures Splits(pass, w, y, sources)
  {
    hide Bounded, Unaffected, EndsInside, CloseAfter, In, IsSpace;
    if w == "" {
      EmptyClosed();
    } else {
      SpaceEnds(w[|w| - 1]);
    }
    StopEndsAll(w, y);
    MarkersBounded(w, y, sources);
    MarkersUnaffected(w, y, sources);
    LinksBounded(w, y, sources);
    LinksUnaffected(w, y, sources);
    UrlsBounded(w, y, sources);
    UrlsUnaffected(w, y, sources);
  }

  /** Text that is sealed off is validated on its own, whatever follows. */
  lemma SealedIsApart(w: string, y: string, sources: seq<Source>)
    requires Sealed(w)
    ensures Validated(w + y, sources) == Joined(Validated(w, sources), Validated(y, sources))
  {
    hide Sealed, Splits, Validated, Joined, Match, Sub;
    var w1, y1 := Sub(Markers, w, 0, sources), Sub(Markers, y, 0, sources);
    var w2, y2 := Sub(Links, w1, 0, sources), Sub(Links, y1, 0, sources);
    SealedKept(Markers, w, sources);
    SealedKept(Links, w1, sources);
    SealedSplits(Markers, w, y, sources);
    SealedSplits(Links, w1, y1, sources);
    SealedSplits(RawUrls, w2, y2, sources);
    ValidatedTogether(w, y, sources);
  }

  // ------------------------------------------------------- nothing to find

  lemma CopiedWhole(pass: Pass, s: string, sources: seq<Source>)
    requires forall k :: 0 <= k < |s| ==> Match(pass, s, k, sources).None?
    ensures Sub(pass, s, 0, sources) == s && !Flags(pass, s, 0, sources)
  {
    hide Match;
    CopiedRun(pass, s, 0, |s|, sources);
    SubSplits(pass, s, 0, |s|, sources);
    assert s[0..|s|] == s && s + "" == s;
  }

  lemma UnbracketedIsQuiet(pass: Pass, s: string, sources: seq<Source>)
    requires NoOpenBracket(s) && !pass.RawUrls?
    ensures Sub(pass, s, 0, sources) == s && !Flags(pass, s, 0, sources)
  {
    hide RunEnd, SchemeEnd, Sub, Flags, IsId, ByUrl;
    CopiedWhole(pass, s, sources);
  }

  predicate NoUrl(s: string) {
    forall k :: 0 <= k < |s| ==> !HasUrl(s, k)
  }

  lemma NoUrlIsQuiet(s: string, sources: seq<Source>)
    requires NoUrl(s)
    ensures Sub(RawUrls, s, 0, sources) == s && !Flags(RawUrls, s, 0, sources)
  {
    hide Match, HasUrl, Sub, Flags;
    forall k | 0 <= k < |s| ensures Match(RawUrls, s, k, sources).None? {
      MatchesOpenUrls(s, k, sources);
    }
    CopiedWhole(RawUrls, s, sources);
  }

  lemma NoSchemeNoUrl(s: string)
    requires NoScheme(s)
    ensures NoUrl(s)
  {
    hide HasUrl, SchemeEnd, RunEnd;
    forall k | 0 <= k < |s| ensures !HasUrl(s, k) {
      UrlEndIsUrl(s, k);
    }
  }

  lemma ColonFreeNoScheme(s: string)
    requires ColonFree(s)
    ensures NoScheme(s)
  {
    SchemesAreSchemes();
    forall i | 0 <= i < |s| ensures SchemeEnd(s, i) == i {
      if Matches(s, i, "http://") { SchemeIsPlain(s, i, "http://"); }
      if Matches(s, i, "https://") { SchemeIsPlain(s, i, "https://"); }
    }
  }

  /** No scheme runs from x into a text that starts with no scheme letter. */
  lemma NoSchemeMeets(x: string, y: string)
    requires NoScheme(x) && (y != "" ==> !SchemeLetter(y[0]))
    ensures forall j :: 0 <= j < |x| ==> SchemeEnd(x + y, j) == j
    ensures EndsInside(x, y)
  {
    hide SchemeEnd, SchemeLetter;
    forall j | 0 <= j < |x| ensures SchemeEnd(x + y, j) == j {
      SchemeSpan(x + y, j, |x|);
      assert y != "" ==> (x + y)[|x|] == y[0];
      if SchemeEnd(x + y, j) > j { SchemeKept(x, y, j); }
    }
  }

  lemma NoSchemeConcat(x: string, y: string)
    requires NoScheme(x) && NoScheme(y) && (y != "" ==> !SchemeLetter(y[0]))
    ensures NoScheme(x + y)
  {
    hide SchemeEnd, SchemeLetter;
    NoSchemeMeets(x, y);
    forall j | 0 <= j < |x + y| ensures SchemeEnd(x + y, j) == j {
      if j >= |x| { SchemeMoves(x, y, j - |x|); }
    }
  }

  /** A pass whose match at the start takes the whole text. */
  lemma WholeMatch(pass: Pass, s: string, sources: seq<Source>)
    requires s != "" && Match(pass, s, 0, sources).Some? && Match(pass, s, 0, sources).value.end == |s|
    ensures Sub(pass, s, 0, sources) == Match(pass, s, 0, sources).value.text
    ensures Flags(pass, s, 0, sources) == Match(pass, s, 0, sources).value.flagged
  {
    hide Match;
    var hit := Match(pass, s, 0, sources).value;
    assert hit.text + "" == hit.text;
  }

  function FlagIf(b: bool): seq<string> {
    if b then [FLAG] else []
  }

  lemma ValidatedIs(s: string, sources: seq<Source>)
    ensures var a := Sub(Markers, s, 0, sources);
            var b := Sub(Links, a, 0, sources);
            Validated(s, sources) ==
            (Sub(RawUrls, b, 0, sources),
             FlagIf(Flags(Markers, s, 0, sources) || Flags(Links, a, 0, sources) || Flags(RawUrls, b, 0, sources)))
  {
    hide Sub, Flags;
  }

  // ------------------------------------------------------- markers

  /** A marker after the ledger was asked. */
  function Checked(m: string, sources: seq<Source>): string
    requires |m| >= 2
  {
    if IsId(sources, m[1..|m| - 1]) then m else UNAVAILABLE
  }

  /** Something in brackets, with neither bracket nor colon inside. */
  predicate Bracketed(r: string) {
    && |r| >= 2 && r[0] == '[' && r[|r| - 1] == ']' && ColonFree(r)
    && forall k :: 0 < k < |r| - 1 ==> r[k] != '[' && r[k] != ']'
  }

  lemma CheckedMarker(m: string, sources: seq<Source>)
    requires IsMarker(m, 0, |m|)
    ensures Bracketed(m) && Bracketed(Checked(m, sources))
    ensures Sub(Markers, m, 0, sources) == Checked(m, sources)
    ensures Flags(Markers, m, 0, sources) == !IsId(sources, m[1..|m| - 1])
  {
    hide Sub, Flags, IsId;
    MarkerAtIsMarker(m, 0);
    WholeMatch(Markers, m, sources);
    assert m[0..|m|] == m;
    MarkerBracketed(m);
    NoteBracketed();
  }

  lemma MarkerBracketed(m: string)
    requires IsMarker(m, 0, |m|)
    ensures Bracketed(m)
  {
    assert forall k :: 0 <= k < |m| ==> k == 0 || k == 1 || k == |m| - 1 || IsDigit(m[k]);
  }

  lemma NoteBracketed()
    ensures Bracketed(UNAVAILABLE)
  {
    assert forall k :: 0 < k < |UNAVAILABLE| - 1 ==> UNAVAILABLE[k] == NOTE[k - 1];
  }

  lemma BracketedIsClosed(z: string, r: string)
    requires NoOpenBracket(z) && Bracketed(r)
    ensures Closed(z + r) && (z + r)[|z + r| - 1] == ']'
    ensures NoScheme(r) && !SchemeLetter(r[0])
    ensures NoOpenBracket(r[1..])
  {
    ColonFreeNoScheme(r);
    var u := z + r;
    assert forall k :: 0 <= k < |z| ==> u[k] == z[k];
    assert u[|u| - 1] == ']';
    assert forall k :: 0 <= k < |r| - 1 ==> r[1..][k] == r[1 + k];
  }

  /** Something in brackets with nothing after it is no link. */
  lemma BracketedIsNoLink(r: string, sources: seq<Source>)
    requires Bracketed(r)
    ensures Sub(Links, r, 0, sources) == r && !Flags(Links, r, 0, sources)
  {
    hide Sub, Flags, In, SchemeEnd;
    BracketedIsClosed("", r);
    forall k | 0 <= k < |r| ensures Match(Links, r, k, sources).None? {
      if k == 0 {
        RunIsMaximal(r, 1, NotBracket);
        var j := RunEnd(r, 1, NotBracket);
      }
    }
    CopiedWhole(Links, r, sources);
  }

  lemma ConcatPass(pass: Pass, x: string, y: string, sources: seq<Source>)
    requires NoOpenBracket(x) && !pass.RawUrls?
    ensures Sub(pass, x + y, 0, sources) == x + Sub(pass, y, 0, sources)
    ensures Flags(pass, x + y, 0, sources) == Flags(pass, y, 0, sources)
  {
    hide Sub, Flags, Bounded, Unaffected;
    NothingBracketed(pass, x, y, sources);
    MarkersUnaffected(x, y, sources);
    LinksUnaffected(x, y, sources);
    PassConcat(pass, x, y, sources);
    UnbracketedIsQuiet(pass, x, sources);
  }

  lemma MarkerValidated(z: string, m: string, sources: seq<Source>)
    requires NoOpenBracket(z) && NoScheme(z) && IsMarker(m, 0, |m|)
    ensures Validated(z + m, sources) == (z + Checked(m, sources), FlagIf(!IsId(sources, m[1..|m| - 1])))
  {
    hide Sub, Flags, Validated, IsId, Bracketed, NoOpenBracket, NoScheme, IsMarker;
    MarkerLength(m);
    var r := Checked(m, sources);
    CheckedMarker(m, sources);
    ConcatPass(Markers, z, m, sources);
    BracketedIsNoLink(r, sources);
    ConcatPass(Links, z, r, sources);
    BracketedIsClosed(z, r);
    NoSchemeConcat(z, r);
    NoSchemeNoUrl(z + r);
    NoUrlIsQuiet(z + r, sources);
    ValidatedIs(z + m, sources);
  }

  lemma MarkerLength(m: string)
    requires IsMarker(m, 0, |m|)
    ensures |m| >= 4
  {
  }

  /** What a marker pass makes of a text does not start with a parenthesis unless the text does. */
  lemma ParenKept(y: string, sources: seq<Source>)
    requires y != "" ==> y[0] != '('
    ensures var t := Sub(Markers, y, 0, sources); t != "" ==> t[0] != '('
  {
    hide IsId, RunEnd;
  }

  lemma MarkerApart(z: string, m: string, y: string, sources: seq<Source>)
    requires NoOpenBracket(z) && NoScheme(z) && IsMarker(m, 0, |m|) && (y != "" ==> y[0] != '(')
    ensures Validated(z + m + y, sources) == Joined(Validated(z + m, sources), Validated(y, sources))
  {
    hide Sub, Flags, Validated, IsId, Bracketed, NoOpenBracket, NoScheme, IsMarker, Joined, Bounded, Unaffected, EndsInside, Closed;
    MarkerLength(m);
    var r, u := Checked(m, sources), z + m;
    CheckedMarker(m, sources);
    ConcatPass(Markers, z, m, sources);
    BracketedIsNoLink(r, sources);
    ConcatPass(Links, z, r, sources);
    BracketedIsClosed(z, m);
    BracketedIsClosed(z, r);
    NoSchemeConcat(z, r);
    var y1 := Sub(Markers, y, 0, sources);
    var y2 := Sub(Links, y1, 0, sources);
    ParenKept(y, sources);
    MarkersBounded(u, y, sources);
    MarkersUnaffected(u, y, sources);
    NoSchemeEndsAll(z + r, y1);
    LinksBounded(z + r, y1, sources);
    LinksUnaffected(z + r, y1, sources);
    NoSchemeEndsAll(z + r, y2);
    UrlsBounded(z + r, y2, sources);
    UrlsUnaffected(z + r, y2, sources);
    ValidatedTogether(u, y, sources);
  }

  /**
    A marker inside an answer stays exactly when it names a source and otherwise
    becomes the flagged note; the text around it is validated on its own. Before
    it comes sealed text w, then text z with no opening bracket and no scheme.
   */
  lemma MarkerInText(w: string, z: string, m: string, y: string, sources: seq<Source>)
    requires Sealed(w) && NoOpenBracket(z) && NoScheme(z) && IsMarker(m, 0, |m|) && (y != "" ==> y[0] != '(')
    ensures Validated(w + (z + m + y), sources) ==
            Joined(Validated(w, sources),
                   Joined((z + Checked(m, sources), FlagIf(!IsId(sources, m[1..|m| - 1]))), Validated(y, sources)))
  {
    hide Validated, Sealed, NoOpenBracket, NoScheme, IsMarker, IsId, Joined;
    MarkerLength(m);
    SealedIsApart(w, z + m + y, sources);
    MarkerApart(z, m, y, sources);
    MarkerValidated(z, m, sources);
  }

  lemma BracketStopsMarkers(x: string, y: string, sources: seq<Source>)
    requires y != "" && y[0] == '['
    ensures Bounded(Markers, x, y, sources)
  {
    hide RunEnd, IsId, IsSpace;
    var t := x + y;
    assert t[|x|] == '[' && forall k :: 0 <= k < |x| ==> t[k] == x[k];
    forall j | 0 <= j < |x| ensures Match(Markers, t, j, sources) == Match(Markers, x, j, sources) {
      MarkerAtIsMarker(x, j);
      MarkerStops(x, y, j);
      if MarkerAt(x, j).Some? {
        SliceKept(x, y, j, MarkerAt(x, j).value);
        SliceKept(x, y, j + 1, MarkerAt(x, j).value - 1);
      }
    }
  }

  lemma MarkerStops(x: string, y: string, j: nat)
    requires j < |x| && y != "" && y[0] == '['
    ensures MarkerAt(x + y, j) == MarkerAt(x, j)
  {
    hide RunEnd;
    var t := x + y;
    assert t[|x|] == '[' && forall k :: 0 <= k < |x| ==> t[k] == x[k];
    if j + 2 <= |x| {
      RunStopsInside(x, y, j + 2, Digit);
      RunIsMaximal(t, j + 2, Digit);
    }
  }

  /** In the marker pass every marker is checked on its own, whatever the text around it. */
  lemma MarkerPassChecksEach(x: string, m: string, y: string, sources: seq<Source>)
    requires IsMarker(m, 0, |m|)
    ensures Sub(Markers, x + (m + y), 0, sources) ==
            Sub(Markers, x, 0, sources) + (Checked(m, sources) + Sub(Markers, y, 0, sources))
    ensures !IsId(sources, m[1..|m| - 1]) ==> Flags(Markers, x + (m + y), 0, sources)
  {
    hide Sub, Flags, Bounded, Unaffected, IsId, IsMarker, Bracketed, Closed;
    MarkerLength(m);
    MarkerOpens(m);
    CheckedMarker(m, sources);
    BracketStopsMarkers(x, m + y, sources);
    MarkersUnaffected(x, m + y, sources);
    PassConcat(Markers, x, m + y, sources);
    BracketedIsClosed("", m);
    assert "" + m == m;
    MarkersBounded(m, y, sources);
    MarkersUnaffected(m, y, sources);
    PassConcat(Markers, m, y, sources);
  }

  lemma MarkerOpens(m: string)
    requires IsMarker(m, 0, |m|)
    ensures m[0] == '[' && NoOpenBracket("")
  {
  }
}
