/**
  What a markdown link, a bare URL and a URL in parentheses become inside an
  answer; and the link that validation itself puts together.
 */
module LinksInText {
  import opened Wrappers
  import opened Chars
  import opened Citations
  import opened CitationScan
  import opened CitationSeams
  import opened SurvivingUrls
  import opened CitationsInText
  import opened Revalidation

  // ------------------------------------------------------- markdown links

  /** A caption: not empty, and without brackets. */
  predicate IsCaption(caption: string) {
    caption != "" && BracketFree(caption)
  }

  /** What a link may point to: a scheme, at least one more character, no whitespace, closing parenthesis or opening bracket. */
  predicate IsTarget(url: string) {
    && 0 < SchemeEnd(url, 0) < |url|
    && forall k :: 0 <= k < |url| ==> In(url[k], InLink) && url[k] != '['
  }

  function InBrackets(t: string): string {
    "[" + t + "]"
  }

  function InParens(t: string): string {
    "(" + t + ")"
  }

  function LinkText(caption: string, url: string): string {
    InBrackets(caption) + InParens(url)
  }

  /** A caption that reads like a marker no source has is replaced before the link is looked at. */
  function LabelAfter(caption: string, sources: seq<Source>): string {
    if FalseMarker(caption, sources) then NOTE else caption
  }

  predicate FalseMarker(caption: string, sources: seq<Source>) {
    IsMarker(InBrackets(caption), 0, |caption| + 2) && !IsId(sources, caption)
  }

  lemma InBracketsAt(t: string, k: nat)
    requires k < |t| + 2
    ensures |InBrackets(t)| == |t| + 2
    ensures InBrackets(t)[k] == if k == 0 then '[' else if k == |t| + 1 then ']' else t[k - 1]
  {
  }

  lemma InParensAt(t: string, k: nat)
    requires k < |t| + 2
    ensures |InParens(t)| == |t| + 2
    ensures InParens(t)[k] == if k == 0 then '(' else if k == |t| + 1 then ')' else t[k - 1]
  {
  }

  lemma CaptionMarker(caption: string, sources: seq<Source>)
    requires IsCaption(caption)
    ensures Sub(Markers, InBrackets(caption), 0, sources) == InBrackets(LabelAfter(caption, sources))
    ensures Flags(Markers, InBrackets(caption), 0, sources) == FalseMarker(caption, sources)
  {
    hide Sub, Flags, IsId, IsMarker;
    var m := InBrackets(caption);
    assert m[1..|m| - 1] == caption && m[0..|m|] == m;
    MarkerAtIsMarker(m, 0);
    if MarkerAt(m, 0).Some? {
      CaptionMarkerEnds(caption);
      WholeMatch(Markers, m, sources);
    } else {
      forall k | 0 <= k < |m| ensures Match(Markers, m, k, sources).None? {
        InBracketsAt(caption, k);
      }
      CopiedWhole(Markers, m, sources);
    }
  }

  lemma CaptionMarkerEnds(caption: string)
    requires IsCaption(caption) && MarkerAt(InBrackets(caption), 0).Some?
    ensures MarkerAt(InBrackets(caption), 0) == Some(|caption| + 2)
  {
    var m := InBrackets(caption);
    var e := MarkerAt(m, 0).value;
    MarkerAtIsMarker(m, 0);
    InBracketsAt(caption, e - 1);
  }

  lemma ParensUnbracketed(url: string)
    requires forall k :: 0 <= k < |url| ==> url[k] != '['
    ensures NoOpenBracket(InParens(url))
  {
    forall k | 0 <= k < |url| + 2 ensures InParens(url)[k] != '[' {
      InParensAt(url, k);
    }
  }

  lemma CaptionClosed(z: string, caption: string)
    requires NoOpenBracket(z) && IsCaption(caption)
    ensures Closed(z + InBrackets(caption)) && Closed(InBrackets(caption))
  {
    var m := InBrackets(caption);
    InBracketsAt(caption, |caption| + 1);
    assert (z + m)[|z| + |caption| + 1] == ']';
    forall p | 0 <= p < |m| && m[p] == '[' ensures CloseAfter(m, p) {
      assert m[|caption| + 1] == ']';
    }
  }

  /** The marker pass over a link. */
  lemma LinkAfterMarkers(z: string, caption: string, url: string, sources: seq<Source>)
    requires NoOpenBracket(z) && IsCaption(caption) && IsTarget(url)
    ensures Sub(Markers, z + LinkText(caption, url), 0, sources) == z + LinkText(LabelAfter(caption, sources), url)
    ensures Flags(Markers, z + LinkText(caption, url), 0, sources) == FalseMarker(caption, sources)
  {
    hide Sub, Flags, NoOpenBracket, FalseMarker, LabelAfter, Closed, Bounded, Unaffected, SchemeEnd, In, InBrackets, InParens;
    var m, tail := InBrackets(caption), InParens(url);
    ParensUnbracketed(url);
    CaptionClosed("", caption);
    MarkersBounded(m, tail, sources);
    MarkersUnaffected(m, tail, sources);
    PassConcat(Markers, m, tail, sources);
    CaptionMarker(caption, sources);
    UnbracketedIsQuiet(Markers, tail, sources);
    ConcatPass(Markers, z, m + tail, sources);
  }

  lemma LinkChars(caption: string, url: string, k: nat)
    requires k < |caption| + |url| + 4
    ensures |LinkText(caption, url)| == |caption| + |url| + 4
    ensures LinkText(caption, url)[k] ==
            if k < |caption| + 2 then InBrackets(caption)[k] else InParens(url)[k - |caption| - 2]
  {
  }

  lemma LinkFound(caption: string, url: string)
    requires IsCaption(caption) && IsTarget(url)
    ensures LinkAt(LinkText(caption, url), 0) == Some(Link(|caption| + 1, |caption| + 3 + |url|))
  {
    hide SchemeEnd, In, RunEnd, InBrackets, InParens, LinkText;
    var s, n := LinkText(caption, url), |caption|;
    forall k | 0 <= k < |s|
      ensures |s| == n + |url| + 4
      ensures k <= n + 1 ==> s[k] == if k == 0 then '[' else if k == n + 1 then ']' else caption[k - 1]
      ensures k >= n + 2 ==> s[k] == if k == n + 2 then '(' else if k == |s| - 1 then ')' else url[k - n - 3]
    {
      LinkLength(caption, url);
      LinkChars(caption, url, k);
      if k <= n + 1 { InBracketsAt(caption, k); } else { InParensAt(url, k - n - 2); }
    }
    LinkLength(caption, url);
    LabelRun(s, caption);
    TargetMoves(s, n + 3, url);
    TargetRun(s, n + 3, url);
  }

  lemma LinkLength(caption: string, url: string)
    ensures |LinkText(caption, url)| == |caption| + |url| + 4
  {
  }

  lemma LabelRun(s: string, caption: string)
    requires IsCaption(caption) && |s| > |caption| + 1 && s[|caption| + 1] == ']'
    requires forall k :: 0 < k <= |caption| ==> s[k] == caption[k - 1]
    ensures RunEnd(s, 1, NotBracket) == |caption| + 1
  {
    RunStops(s, 1, |caption| + 1, NotBracket);
  }

  /** A target embedded in a text: its scheme is found there. */
  lemma TargetMoves(s: string, i: nat, url: string)
    requires i + |url| <= |s| && forall k :: i <= k < i + |url| ==> s[k] == url[k - i]
    requires 0 < SchemeEnd(url, 0)
    ensures SchemeEnd(s, i) == i + SchemeEnd(url, 0)
  {
    hide SchemeEnd;
    var before, rest := s[..i], s[i + |url|..];
    assert s == before + (url + rest) by {
      assert s[i..i + |url|] == url;
    }
    SchemeMoves(before, url + rest, 0);
    SchemeLonger(url, rest);
  }

  lemma SchemeLonger(url: string, rest: string)
    requires 0 < SchemeEnd(url, 0)
    ensures SchemeEnd(url + rest, 0) == SchemeEnd(url, 0)
  {
    if Matches(url, 0, "http://") {
      MatchesStill(url, rest, 0, "http://");
    } else {
      MatchesStill(url, rest, 0, "https://");
      OneScheme(url + rest, 0);
    }
  }

  lemma TargetRun(s: string, i: nat, url: string)
    requires IsTarget(url) && i + |url| < |s| && s[i + |url|] == ')'
    requires forall k :: i <= k < i + |url| ==> s[k] == url[k - i]
    ensures RunEnd(s, i + SchemeEnd(url, 0), InLink) == i + |url|
  {
    hide SchemeEnd, IsSpace;
    RunStops(s, i + SchemeEnd(url, 0), i + |url|, InLink);
  }

  function Known(url: string): string {
    RStripChars(url, "/")
  }

  /** The link pass over a link. */
  lemma LinkAfterLinks(z: string, caption: string, url: string, sources: seq<Source>)
    requires NoOpenBracket(z) && IsCaption(caption) && IsTarget(url)
    ensures Sub(Links, z + LinkText(caption, url), 0, sources) == z + (caption + " " + Reference(sources, Known(url)))
    ensures Flags(Links, z + LinkText(caption, url), 0, sources) == ByUrl(sources, Known(url)).None?
  {
    hide Sub, Flags, NoOpenBracket, Reference, ByUrl, RStripChars, LinkAt, IsCaption, IsTarget;
    var s := LinkText(caption, url);
    LinkFound(caption, url);
    LinkSlices(caption, url);
    WholeMatch(Links, s, sources);
    ConcatPass(Links, z, s, sources);
  }

  lemma LinkSlices(caption: string, url: string)
    ensures var s, n := LinkText(caption, url), |caption|;
            |s| == n + |url| + 4 && s[1..n + 1] == caption && s[n + 3..n + 3 + |url|] == url
  {
  }

  /** The last thing left of a link: its label, and something in brackets without a colon. */
  lemma LabelHoldsNoUrl(z: string, name: string, id: string)
    requires NoUrl(z + name) && ColonFree(id)
    ensures NoUrl(z + (name + " " + InBrackets(id)))
    ensures forall y :: EndsInside(z + (name + " " + InBrackets(id)), y)
  {
    hide HasUrl, EndsInside;
    var x, n := z + (name + " " + InBrackets(id)), |z + name|;
    assert x == (z + name) + (" " + InBrackets(id));
    TailIsPlain(id);
    UrlBeforeSpace(z + name, " " + InBrackets(id));
    forall y ensures EndsInside(x, y) {
      EndsBeforeTail(z + name, " " + InBrackets(id), y);
    }
  }

  lemma TailIsPlain(id: string)
    requires ColonFree(id)
    ensures var tail := " " + InBrackets(id);
            ColonFree(tail) && |tail| > 1 && tail[0] == ' ' && tail[|tail| - 1] == ']'
  {
  }

  lemma UrlBeforeSpace(x: string, tail: string)
    requires NoUrl(x) && tail != "" && tail[0] == ' ' && ColonFree(tail)
    ensures NoUrl(x + tail)
  {
    hide HasUrl;
    var t := x + tail;
    ColonFreeNoScheme(tail);
    NoSchemeNoUrl(tail);
    forall k | 0 <= k < |t| ensures !HasUrl(t, k) {
      if HasUrl(t, k) {
        if k < |x| { UrlInPrefix(x, tail, k); } else { UrlInRest(x, tail, k); }
      }
    }
  }

  lemma UrlInPrefix(x: string, tail: string, k: nat)
    requires k < |x| && tail != "" && (tail[0] == ' ' || tail[0] == ')') && HasUrl(x + tail, k)
    ensures HasUrl(x, k)
  {
    var t := x + tail;
    assert t[|x|] == tail[0];
    HasUrlInside(t, k);
    SchemeSpan(t, k, |x|);
    SchemeOf(t, k);
    SchemeKept(x, tail, k);
    SchemeOf(x, k);
    assert SchemeEnd(t, k) < |x| ==> t[SchemeEnd(t, k)] == x[SchemeEnd(t, k)];
  }

  /** A URL is a scheme followed by a character that a URL may hold. */
  lemma SchemeOf(s: string, k: nat)
    ensures HasUrl(s, k) <==> SchemeEnd(s, k) > k && SchemeEnd(s, k) < |s| && In(s[SchemeEnd(s, k)], InUrl)
  {
    hide In;
    OneScheme(s, k);
  }

  lemma EndsBeforeTail(x: string, tail: string, y: string)
    requires |tail| > 1 && tail[0] == ' ' && tail[|tail| - 1] == ']' && ColonFree(tail)
    ensures EndsInside(x + tail, y)
  {
    hide SchemeEnd, SchemeLetter;
    var s := x + tail;
    ColonFreeNoScheme(tail);
    assert s[|s| - 1] == ']' && s[|x|] == ' ';
    LettersAreNot();
    forall j | 0 <= j < |s| && SchemeEnd(s + y, j) > j ensures StopAfter(s, SchemeEnd(s + y, j)) {
      SchemeBeforeLast(s, y, j);
      SchemeKept(s, y, j);
      if j < |x| {
        SchemeSpan(s, j, |x|);
        SpaceIsStop();
        assert !In(s[|x|], InLink);
      } else {
        SchemeMoves(x, tail, j - |x|);
      }
    }
  }

  lemma LettersAreNot()
    ensures !SchemeLetter(']') && !SchemeLetter(' ') && !SchemeLetter('c')
  {
  }

  lemma SpaceIsStop()
    ensures !In(' ', InLink) && !In(')', InLink)
  {
  }

  /** Replacing a false marker in the label brings no URL in. */
  lemma LabelAfterHoldsNoUrl(z: string, caption: string, sources: seq<Source>)
    requires NoUrl(z + caption)
    ensures NoUrl(z + LabelAfter(caption, sources))
  {
    hide HasUrl, IsId;
    if FalseMarker(caption, sources) {
      InBracketsAt(caption, 1);
      ColonFreeNoScheme(NOTE);
      NoSchemeNoUrl(NOTE);
      forall k | 0 <= k < |z + NOTE| ensures !HasUrl(z + NOTE, k) {
        if HasUrl(z + NOTE, k) {
          if k < |z| { SameStart(z, NOTE, caption, k); } else { UrlInRest(z, NOTE, k); }
        }
      }
    }
  }

  lemma SameStart(z: string, a: string, b: string, k: nat)
    requires k < |z| && a != "" && a[0] == 'c' && b != "" && b[0] == 'S' && HasUrl(z + a, k)
    ensures HasUrl(z + b, k)
  {
    hide HasUrl, SchemeEnd, SchemeLetter;
    var s, t := z + a, z + b;
    LettersAreNot();
    SchemeOf(s, k);
    SchemeSpan(s, k, |z|);
    assert s[|z|] == 'c' && t[|z|] == 'S';
    SchemeKept(z, a, k);
    SchemeStill(z, b, k);
    SchemeOf(t, k);
    LetterInUrl();
    assert SchemeEnd(s, k) < |z| ==> s[SchemeEnd(s, k)] == z[SchemeEnd(s, k)] == t[SchemeEnd(s, k)];
  }

  lemma LetterInUrl()
    ensures In('S', InUrl)
  {
  }

  lemma SchemeStill(z: string, y: string, k: nat)
    requires SchemeEnd(z, k) > k
    ensures SchemeEnd(z + y, k) == SchemeEnd(z, k)
  {
    if Matches(z, k, "http://") {
      MatchesStill(z, y, k, "http://");
    } else {
      MatchesStill(z, y, k, "https://");
      OneScheme(z + y, k);
    }
  }

  /** The label and reference that a link becomes. */
  function Cited(caption: string, url: string, sources: seq<Source>): string {
    LabelAfter(caption, sources) + " " + Reference(sources, Known(url))
  }

  function LinkFlags(caption: string, url: string, sources: seq<Source>): seq<string> {
    FlagIf(FalseMarker(caption, sources) || ByUrl(sources, Known(url)).None?)
  }

  lemma CitedHoldsNoUrl(z: string, caption: string, url: string, sources: seq<Source>)
    requires NoUrl(z + caption) && ColonFreeIds(sources)
    ensures NoUrl(z + Cited(caption, url, sources))
    ensures forall y :: EndsInside(z + Cited(caption, url, sources), y)
    ensures (z + Cited(caption, url, sources)) != "" && (z + Cited(caption, url, sources))[|z + Cited(caption, url, sources)| - 1] == ']'
  {
    hide NoUrl, EndsInside, Reference, LabelAfter, ColonFree, ByUrl;
    var id := ReferenceShape(sources, Known(url));
    LabelAfterHoldsNoUrl(z, caption, sources);
    LabelHoldsNoUrl(z, LabelAfter(caption, sources), id);
    ReferenceEnds(sources, Known(url));
    var r := Reference(sources, Known(url));
    var t := z + Cited(caption, url, sources);
    assert t == (z + (LabelAfter(caption, sources) + " ")) + r;
    assert t[|t| - 1] == r[|r| - 1];
  }

  lemma LabelIsCaption(caption: string, sources: seq<Source>)
    requires IsCaption(caption)
    ensures IsCaption(LabelAfter(caption, sources))
  {
    hide FalseMarker;
    assert BracketFree(NOTE);
  }

  lemma LinkValidated(z: string, caption: string, url: string, sources: seq<Source>)
    requires NoOpenBracket(z) && IsCaption(caption) && IsTarget(url) && NoUrl(z + caption) && ColonFreeIds(sources)
    ensures Validated(z + LinkText(caption, url), sources) ==
            (z + Cited(caption, url, sources), LinkFlags(caption, url, sources))
  {
    hide Sub, Flags, Validated, NoOpenBracket, IsCaption, IsTarget, NoUrl, Reference, ByUrl, RStripChars, FalseMarker,
         LabelAfter, LinkText, ColonFreeIds, EndsInside;
    var name := LabelAfter(caption, sources);
    LabelIsCaption(caption, sources);
    LinkAfterMarkers(z, caption, url, sources);
    LinkAfterLinks(z, name, url, sources);
    CitedHoldsNoUrl(z, caption, url, sources);
    NoUrlIsQuiet(z + Cited(caption, url, sources), sources);
    CitedIs(caption, url, sources);
    ValidatedIs(z + LinkText(caption, url), sources);
  }

  /** A link's own text ends every search that starts in it. */
  lemma LinkTextEnds(z: string, caption: string, url: string, y: string)
    requires NoOpenBracket(z) && IsCaption(caption) && IsTarget(url)
    ensures var x := z + LinkText(caption, url);
            Closed(x) && x != "" && x[|x| - 1] == ')' && EndsInside(x, y)
  {
    hide In, SchemeEnd, CloseAfter, InBrackets, InParens, EndsInside;
    var m, tail := InBrackets(caption), InParens(url);
    var x := z + LinkText(caption, url);
    assert x == (z + m) + tail;
    InParensAt(url, |url| + 1);
    assert x[|x| - 1] == tail[|tail| - 1];
    ParensUnbracketed(url);
    CaptionClosed(z, caption);
    ClosedPlus(z + m, tail);
    SpaceIsStop();
    StopEndsAll(x, y);
  }

  lemma LinkApart(z: string, caption: string, url: string, y: string, sources: seq<Source>)
    requires NoOpenBracket(z) && IsCaption(caption) && IsTarget(url) && NoUrl(z + caption) && ColonFreeIds(sources)
    ensures Validated(z + LinkText(caption, url) + y, sources) ==
            Joined(Validated(z + LinkText(caption, url), sources), Validated(y, sources))
  {
    hide Sub, Flags, Validated, NoOpenBracket, IsCaption, IsTarget, NoUrl, Reference, ByUrl, RStripChars, FalseMarker,
         LabelAfter, LinkText, Closed, Bounded, Unaffected, EndsInside, Joined, Cited, ColonFreeIds;
    var name, u := LabelAfter(caption, sources), z + LinkText(caption, url);
    var u1, u2 := z + LinkText(name, url), z + Cited(caption, url, sources);
    LabelIsCaption(caption, sources);
    LinkAfterMarkers(z, caption, url, sources);
    LinkAfterLinks(z, name, url, sources);
    assert u2 == Sub(Links, u1, 0, sources) by { CitedIs(caption, url, sources); }
    CitedHoldsNoUrl(z, caption, url, sources);
    var y1 := Sub(Markers, y, 0, sources);
    var y2 := Sub(Links, y1, 0, sources);
    LinkTextEnds(z, caption, url, y);
    MarkersBounded(u, y, sources);
    MarkersUnaffected(u, y, sources);
    LinkTextEnds(z, name, url, y1);
    LinksBounded(u1, y1, sources);
    LinksUnaffected(u1, y1, sources);
    UrlsBounded(u2, y2, sources);
    UrlsUnaffected(u2, y2, sources);
    ValidatedTogether(u, y, sources);
  }

  lemma CitedIs(caption: string, url: string, sources: seq<Source>)
    ensures Cited(caption, url, sources) == LabelAfter(caption, sources) + " " + Reference(sources, Known(url))
  {
  }

  /**
    A markdown link inside an answer becomes its label and the bracketed id of
    the first source with its URL, or the flagged note; the text around it is
    validated on its own. Label and text before it need only hold no URL.
   */
  lemma LinkInText(w: string, z: string, caption: string, url: string, y: string, sources: seq<Source>)
    requires Sealed(w) && NoOpenBracket(z) && IsCaption(caption) && IsTarget(url) && NoUrl(z + caption) && ColonFreeIds(sources)
    ensures Validated(w + (z + LinkText(caption, url) + y), sources) ==
            Joined(Validated(w, sources),
                   Joined((z + Cited(caption, url, sources), LinkFlags(caption, url, sources)), Validated(y, sources)))
  {
    hide Validated, Sealed, NoOpenBracket, IsCaption, IsTarget, NoUrl, Joined, Cited, LinkFlags, LinkText, ColonFreeIds;
    SealedIsApart(w, z + LinkText(caption, url) + y, sources);
    LinkApart(z, caption, url, y, sources);
    LinkValidated(z, caption, url, sources);
  }

  /** In the link pass every link that no earlier one swallows is replaced, whatever the text around it. */
  lemma LinkPassReplacesEach(s: string, i: nat, sources: seq<Source>)
    requires i < |s| && LinkAt(s, i).Some? && Reaches(Links, s, 0, i, sources)
    ensures var link := LinkAt(s, i).value;
            var known := Known(s[link.labelEnd + 2..link.urlEnd]);
            && Sub(Links, s, 0, sources) ==
               Written(Links, s, 0, i, sources)
               + (s[i + 1..link.labelEnd] + " " + Reference(sources, known) + Sub(Links, s, link.urlEnd + 1, sources))
            && (ByUrl(sources, known).None? ==> Flags(Links, s, 0, sources))
  {
    hide LinkAt, RStripChars, ByUrl, Reference, Written, Reaches, Sub, Flags;
    HitReplaced(Links, s, i, sources);
  }

  // ------------------------------------------------------- bare URLs

  /** A URL from its first to its last character, without an opening bracket. */
  predicate IsPlainUrl(url: string) {
    HasUrl(url, 0) && UrlEnd(url, 0) == |url| && NoOpenBracket(url)
  }

  /** No scheme starts in z once the URL follows, and z does not put it in parentheses. */
  ghost predicate LeadsTo(z: string, url: string) {
    && NoOpenBracket(z) && (z != "" ==> z[|z| - 1] != '(')
    && forall j :: 0 <= j < |z| ==> SchemeEnd(z + url, j) == j
  }

  function KnownUrl(url: string): string {
    RStripChars(RStripChars(url, ".,;:"), "/")
  }

  lemma LeadHolds(z: string, url: string)
    requires LeadsTo(z, url)
    ensures NoUrl(z) && EndsInside(z, url) && NoNewParen(z, url)
  {
    hide SchemeEnd, NoOpenBracket;
    forall j | 0 <= j < |z| ensures SchemeEnd(z, j) == j {
      NoSchemeStays(z, url, j);
    }
    NoSchemeNoUrl(z);
  }

  lemma UnbracketedConcat(x: string, y: string)
    requires NoOpenBracket(x) && NoOpenBracket(y)
    ensures NoOpenBracket(x + y)
  {
  }

  lemma UrlAlone(url: string, sources: seq<Source>)
    requires IsPlainUrl(url)
    ensures Sub(RawUrls, url, 0, sources) == Reference(sources, KnownUrl(url))
    ensures Flags(RawUrls, url, 0, sources) == ByUrl(sources, KnownUrl(url)).None?
  {
    hide Sub, Flags, HasUrl, UrlEnd, ByUrl, Reference, RStripChars, NoOpenBracket;
    HasUrlInside(url, 0);
    assert url[0..|url|] == url;
    WholeMatch(RawUrls, url, sources);
  }

  lemma UrlValidated(z: string, url: string, sources: seq<Source>)
    requires LeadsTo(z, url) && IsPlainUrl(url)
    ensures Validated(z + url, sources) == (z + Reference(sources, KnownUrl(url)), FlagIf(ByUrl(sources, KnownUrl(url)).None?))
  {
    hide Sub, Flags, Validated, UrlEnd, ByUrl, Reference, RStripChars, NoOpenBracket, HasUrl, EndsInside, Bounded, Unaffected, SchemeEnd, NoUrl;
    var u := z + url;
    UnbracketedConcat(z, url);
    UnbracketedIsQuiet(Markers, u, sources);
    UnbracketedIsQuiet(Links, u, sources);
    LeadHolds(z, url);
    UrlsBounded(z, url, sources);
    UrlsUnaffected(z, url, sources);
    PassConcat(RawUrls, z, url, sources);
    NoUrlIsQuiet(z, sources);
    UrlAlone(url, sources);
    ValidatedIs(u, sources);
  }

  /** A first character that no URL holds is still first after the first two passes. */
  lemma FirstKept(pass: Pass, y: string, sources: seq<Source>)
    requires !pass.RawUrls? && (y == "" || !In(y[0], InUrl))
    ensures Sub(pass, y, 0, sources) == "" || !In(Sub(pass, y, 0, sources)[0], InUrl)
  {
    hide IsSpace, MarkerAt, LinkAt;
    if y != "" {
      NotBracketNoMatch(pass, y, sources);
      assert ([y[0]] + Sub(pass, y, 1, sources))[0] == y[0];
    }
  }

  lemma NotBracketNoMatch(pass: Pass, y: string, sources: seq<Source>)
    requires !pass.RawUrls? && y != "" && !In(y[0], InUrl)
    ensures Match(pass, y, 0, sources).None?
  {
    hide RunEnd, SchemeEnd, IsId, ByUrl;
    assert y[0] != '[' by { OpenInUrl(); }
  }

  lemma OpenInUrl()
    ensures In('[', InUrl)
  {
  }

  lemma UrlApart(z: string, url: string, y: string, sources: seq<Source>)
    requires LeadsTo(z, url) && IsPlainUrl(url) && (y == "" || !In(y[0], InUrl))
    ensures Validated(z + url + y, sources) == Joined(Validated(z + url, sources), Validated(y, sources))
  {
    hide Sub, Flags, Validated, UrlEnd, NoOpenBracket, HasUrl, EndsInside, Bounded, Unaffected, SchemeEnd, Joined, In;
    var u := z + url;
    UnbracketedConcat(z, url);
    UnbracketedIsQuiet(Markers, u, sources);
    UnbracketedIsQuiet(Links, u, sources);
    var y1 := Sub(Markers, y, 0, sources);
    var y2 := Sub(Links, y1, 0, sources);
    FirstKept(Markers, y, sources);
    FirstKept(Links, y1, sources);
    NothingBracketed(Markers, u, y, sources);
    MarkersUnaffected(u, y, sources);
    NothingBracketed(Links, u, y1, sources);
    LinksUnaffected(u, y1, sources);
    UrlsBounded(u, y2, sources);
    HInUrl();
    UrlsUnaffected(u, y2, sources);
    ValidatedTogether(u, y, sources);
  }

  lemma HInUrl()
    ensures In('h', InUrl)
  {
  }

  /**
    A URL inside an answer that is not in parentheses becomes the bracketed id of
    the first source with it, trailing punctuation and slashes aside, or the
    flagged note; the text around it is validated on its own.
   */
  lemma UrlInText(w: string, z: string, url: string, y: string, sources: seq<Source>)
    requires Sealed(w) && LeadsTo(z, url) && IsPlainUrl(url) && (y == "" || !In(y[0], InUrl))
    ensures Validated(w + (z + url + y), sources) ==
            Joined(Validated(w, sources),
                   Joined((z + Reference(sources, KnownUrl(url)), FlagIf(ByUrl(sources, KnownUrl(url)).None?)), Validated(y, sources)))
  {
    hide Validated, Sealed, LeadsTo, IsPlainUrl, In, Joined, Reference, ByUrl;
    SealedIsApart(w, z + url + y, sources);
    UrlApart(z, url, y, sources);
    UrlValidated(z, url, sources);
  }

  // ------------------------------------------------------- URLs in parentheses

  /** A URL with no other URL in it that would be replaced. */
  ghost predicate IsSingleUrl(url: string) {
    IsPlainUrl(url) && forall k: nat :: 0 < k < |url| ==> !OpenUrl(url, k)
  }

  lemma ParensQuiet(z: string, url: string, sources: seq<Source>)
    requires NoScheme(z) && IsSingleUrl(url)
    ensures HasUrl(z + InParens(url), |z| + 1)
    ensures Sub(RawUrls, z + InParens(url), 0, sources) == z + InParens(url) && !Flags(RawUrls, z + InParens(url), 0, sources)
  {
    hide Sub, Flags, UrlEnd, HasUrl, SchemeEnd, Match, NoOpenBracket;
    var u := z + InParens(url);
    assert u == (z + "(") + (url + ")");
    ParenStarts(z, InParens(url));
    UrlMovesOn(z + "(", url + ")") by { UrlLonger(url); }
    forall k | 0 <= k < |u| ensures Match(RawUrls, u, k, sources).None? {
      MatchesOpenUrls(u, k, sources);
      if HasUrl(u, k) { InsideParens(z, url, k); }
    }
    CopiedWhole(RawUrls, u, sources);
  }

  lemma UrlLonger(url: string)
    requires HasUrl(url, 0)
    ensures HasUrl(url + ")", 0)
  {
    hide In;
    if HasUrlWith(url, 0, "http://") {
      MatchesStill(url, ")", 0, "http://");
      assert (url + ")")[7] == url[7];
    } else {
      MatchesStill(url, ")", 0, "https://");
      assert (url + ")")[8] == url[8];
    }
  }

  lemma ParenStarts(z: string, c: string)
    requires NoScheme(z) && c != "" && c[0] == '('
    ensures forall j :: 0 <= j < |z| ==> SchemeEnd(z + c, j) == j
  {
    hide SchemeEnd;
    NoSchemeMeets(z, c);
  }

  /** Any URL of a parenthesised URL is right after the parenthesis or guarded inside. */
  lemma InsideParens(z: string, url: string, k: nat)
    requires NoScheme(z) && IsSingleUrl(url) && HasUrl(z + InParens(url), k)
    ensures AfterParen(z + InParens(url), k)
  {
    hide HasUrl, SchemeEnd, UrlEnd, NoOpenBracket;
    var u := z + InParens(url);
    HasUrlInside(u, k);
    ParenStarts(z, InParens(url));
    if k < |z| {
      SchemeOf(u, k);
    } else {
      assert u[|z|] == '(' && u[|u| - 1] == ')';
      assert u == (z + "(") + (url + ")");
      UrlInRest(z + "(", url + ")", k);
      if k > |z| + 1 {
        var i := k - |z| - 1;
        UrlInPrefix(url, ")", i);
        assert !OpenUrl(url, i);
        assert u[k - 1] == url[i - 1];
      }
    }
  }

  lemma ParensPlain(z: string, url: string)
    requires NoOpenBracket(z) && NoOpenBracket(url)
    ensures var u := z + InParens(url);
            NoOpenBracket(u) && u != "" && u[|u| - 1] == ')'
  {
    ParensUnbracketed(url);
    UnbracketedConcat(z, InParens(url));
    InParensAt(url, |url| + 1);
    assert (z + InParens(url))[|z| + |url| + 1] == ')';
  }

  lemma ParensApart(z: string, url: string, y: string, sources: seq<Source>)
    requires NoOpenBracket(z) && NoScheme(z) && IsSingleUrl(url)
    ensures Validated(z + InParens(url), sources) == (z + InParens(url), [])
    ensures Validated(z + InParens(url) + y, sources) == Joined((z + InParens(url), []), Validated(y, sources))
  {
    hide Sub, Flags, Validated, UrlEnd, NoOpenBracket, HasUrl, EndsInside, Bounded, Unaffected, SchemeEnd, Joined, In, InParens, NoScheme;
    var u := z + InParens(url);
    ParensPlain(z, url);
    UnbracketedIsQuiet(Markers, u, sources);
    UnbracketedIsQuiet(Links, u, sources);
    ParensQuiet(z, url, sources);
    ValidatedIs(u, sources);
    var y1 := Sub(Markers, y, 0, sources);
    var y2 := Sub(Links, y1, 0, sources);
    NothingBracketed(Markers, u, y, sources);
    MarkersUnaffected(u, y, sources);
    NothingBracketed(Links, u, y1, sources);
    LinksUnaffected(u, y1, sources);
    SpaceIsStop();
    StopEndsAll(u, y2);
    UrlsBounded(u, y2, sources);
    UrlsUnaffected(u, y2, sources);
    ValidatedTogether(u, y, sources);
  }

  /** A URL in parentheses inside an answer passes through unflagged, whatever the ledger. */
  lemma ParenthesisedUrlInText(w: string, z: string, url: string, y: string, sources: seq<Source>)
    requires Sealed(w) && NoOpenBracket(z) && NoScheme(z) && IsSingleUrl(url)
    ensures Validated(w + (z + InParens(url) + y), sources) ==
            Joined(Validated(w, sources), Joined((z + InParens(url), []), Validated(y, sources)))
  {
    hide Validated, Sealed, NoOpenBracket, NoScheme, IsSingleUrl, Joined, InParens;
    SealedIsApart(w, z + InParens(url) + y, sources);
    ParensApart(z, url, y, sources);
  }

  // ------------------------------------------------------- a link put together

  lemma TargetOf(url: string)
    requires IsSingleUrl(url)
    ensures IsTarget(url)
  {
    hide SchemeEnd, UrlEnd, IsSpace;
    SchemeOf(url, 0);
    UrlIsRun(url, 0);
  }

  lemma EmptyLead()
    ensures NoOpenBracket("") && NoScheme("")
  {
  }

  /**
    A link with a known URL, with another URL in parentheses right behind it,
    comes out as an unflagged link from a valid reference to that other URL,
    whether or not any source has it; validating again would change it.
   */
  lemma FabricatedLinkSurvives(caption: string, url: string, other: string, sources: seq<Source>) returns (id: string)
    requires IsCaption(caption) && IsTarget(url) && NoUrl(caption) && !FalseMarker(caption, sources)
    requires ByUrl(sources, Known(url)).Some? && IsSingleUrl(other)
    requires PlainIds(sources) && ColonFreeIds(sources) && forall k :: 0 <= k < |sources| ==> sources[k].id != ""
    ensures IsId(sources, id)
    ensures var text := LinkText(caption, url) + InParens(other);
            var r := caption + " " + LinkText(id, other);
            && Validated(text, sources) == (r, [])
            && LinkAt(r, |caption| + 1) == Some(Link(|caption| + |id| + 2, |caption| + |id| + |other| + 4))
            && Validated(r, sources) != (r, [])
  {
    hide Validated, IsSingleUrl, InParens, IsTarget, NoUrl, Known, FalseMarker, ColonFreeIds, LinkText, LinkAt;
    var k := ByUrl(sources, Known(url)).value;
    id := sources[k].id;
    assert BracketFree(sources[k].id) && sources[k].id != "";
    LinkMeetsParens(caption, url, other, id, sources);
    LinkBehind(caption + " ", id, other);
    var text, r := LinkText(caption, url) + InParens(other), caption + " " + LinkText(id, other);
    RevalidationIsQuietIffNoLinks(text, sources);
  }

  lemma LinkBehind(before: string, id: string, other: string)
    requires IsCaption(id) && IsSingleUrl(other)
    ensures var r := before + LinkText(id, other);
            && |before| < |r|
            && LinkAt(r, |before|) == Some(Link(|before| + |id| + 1, |before| + |id| + 3 + |other|))
            && !NoLinks(r)
  {
    hide IsSingleUrl, IsTarget, LinkText, LinkAt;
    TargetOf(other);
    LinkLength(id, other);
    LinkFound(id, other);
    LinkMoves(before, LinkText(id, other), 0);
    assert LinkAt(before + LinkText(id, other), |before|).Some?;
  }

  lemma LinkMeetsParens(caption: string, url: string, other: string, id: string, sources: seq<Source>)
    requires IsCaption(caption) && IsTarget(url) && NoUrl(caption) && !FalseMarker(caption, sources) && ColonFreeIds(sources)
    requires ByUrl(sources, Known(url)).Some? && id == sources[ByUrl(sources, Known(url)).value].id && IsSingleUrl(other)
    ensures Validated(LinkText(caption, url) + InParens(other), sources) == (caption + " " + LinkText(id, other), [])
  {
    hide Validated, NoOpenBracket, NoScheme, IsSingleUrl, InParens, IsCaption, IsTarget, NoUrl, ByUrl, Known, FalseMarker, ColonFreeIds;
    var c := LinkText(caption, url);
    EmptyLead();
    assert "" + c == c && "" + caption == caption && "" + InParens(other) == InParens(other);
    LinkApart("", caption, url, InParens(other), sources);
    LinkValidated("", caption, url, sources);
    ParensApart("", other, "", sources);
    assert "" + Cited(caption, url, sources) == Cited(caption, url, sources);
    Associative(caption + " ", InBrackets(id), InParens(other));
  }

  lemma ShortUrl(url: string, c: char)
    requires url == "https://" + [c] && 'a' <= c <= 'z'
    ensures IsSingleUrl(url) && IsTarget(url) && NoOpenBracket(url) && Known(url) == url
  {
    hide IsDigit;
    assert |url| == 9 && url[8] == c && forall k :: 0 <= k < 8 ==> url[k] == "https://"[k];
    assert Matches(url, 0, "https://");
    OneScheme(url, 0);
    LowerInUrl(c);
    SchemeOf(url, 0);
    RunOver(url);
    forall k: nat | 0 < k < |url| ensures !OpenUrl(url, k) {
      if HasUrl(url, k) { HasUrlInside(url, k); SchemeOf(url, k); TooShort(url, k); }
    }
    forall k | 0 <= k < |url| ensures In(url[k], InLink) {
      SchemeSpan(url, 0, k);
    }
  }

  lemma LowerInUrl(c: char)
    requires 'a' <= c <= 'z'
    ensures In(c, InUrl) && In(c, InLink) && c != '['
  {
  }

  lemma RunOver(url: string)
    requires |url| == 9 && SchemeEnd(url, 0) == 8 && In(url[8], InUrl)
    ensures UrlEnd(url, 0) == 9
  {
    hide In, SchemeEnd;
    assert RunEnd(url, 9, InUrl) == 9;
    assert RunEnd(url, 8, InUrl) == 9;
  }

  lemma TooShort(url: string, k: nat)
    requires |url| == 9 && 0 < k < 9 && SchemeEnd(url, k) > k
    ensures k <= 2
  {
  }

  /** For instance: source S1 is known, y is not, and the answer links S1 to y without a flag. */
  lemma FabricatedLinkExample(text: string, x: string, y: string, sources: seq<Source>)
    requires x == "https://x" && y == "https://y" && sources == [Source("S1", x)]
    requires text == "[b](" + x + ")(" + y + ")"
    ensures ByUrl(sources, y).None?
    ensures Validated(text, sources) == ("b [S1](" + y + ")", [])
    ensures Validated(Validated(text, sources).0, sources) != Validated(text, sources)
  {
    hide Validated, IsSingleUrl, IsTarget, NoOpenBracket, UrlEnd, HasUrl, SchemeEnd, LinkAt;
    ShortUrl(x, 'x');
    ShortUrl(y, 'y');
    OneSource(sources, x, y);
    var caption := "b";
    PlainCaption(caption, sources);
    var id := FabricatedLinkSurvives(caption, x, y, sources);
    assert id == "S1";
    assert text == LinkText(caption, x) + InParens(y);
    assert caption + " " + LinkText(id, y) == "b [S1](" + y + ")";
  }

  lemma OneSource(sources: seq<Source>, x: string, y: string)
    requires sources == [Source("S1", x)] && Known(x) == x && x != y
    ensures ByUrl(sources, x) == Some(0) && ByUrl(sources, y).None?
    ensures PlainIds(sources) && ColonFreeIds(sources) && forall id :: IsId(sources, id) <==> id == "S1"
  {
    assert sources[0].id == "S1";
  }

  lemma PlainCaption(caption: string, sources: seq<Source>)
    requires caption == "b"
    ensures IsCaption(caption) && NoUrl(caption) && !FalseMarker(caption, sources)
  {
    hide UrlEnd, IsId;
    assert InBrackets(caption)[1] == 'b';
    forall k | 0 <= k < |caption| ensures !HasUrl(caption, k) {
      UrlEndIsUrl(caption, k);
    }
  }
}
