/**
  Citation validation: three left-to-right rewriting passes over an answer, for
  source markers, markdown links and raw URLs, against the ledger of sources.
 */
module Citations {
  import opened Wrappers
  import opened Chars

  /** A ledger entry; a source without a URL has the empty one. */
  datatype Source = Source(id: string, url: string)

  /** What a pass puts in place of a match that ends at `end`. */
  datatype Hit = Hit(end: nat, text: string, flagged: bool)

  datatype Pass = Markers | Links | RawUrls

  const NOTE := "citation unavailable"
  const UNAVAILABLE := "[" + NOTE + "]"
  const FLAG := "fabricated_citation_removed"

  // ------------------------------------------------------- the ledger

  predicate IsId(sources: seq<Source>, id: string) {
    exists k :: 0 <= k < |sources| && sources[k].id == id
  }

  function RStripChars(s: string, chars: string): string {
    if s != "" && s[|s| - 1] in chars then RStripChars(s[..|s| - 1], chars) else s
  }

  /** rstrip drops every trailing character of the set, and nothing else. */
  lemma {:induction false} RStripCharsIs(s: string, chars: string)
    ensures var r := RStripChars(s, chars);
            && |r| <= |s| && r == s[..|r|]
            && (forall k :: |r| <= k < |s| ==> s[k] in chars)
            && (r == "" || r[|r| - 1] !in chars)
  {
    if s != "" && s[|s| - 1] in chars {
      RStripCharsIs(s[..|s| - 1], chars);
    } else {
      assert s[..|s|] == s;
    }
  }

  /** The first source whose URL, without trailing slashes, is the given one. */
  function ByUrl(sources: seq<Source>, url: string): (r: Option<nat>)
    ensures r.Some? ==> r.value < |sources| && RStripChars(sources[r.value].url, "/") == url
    ensures forall j :: 0 <= j < (if r.Some? then r.value else |sources|) ==> RStripChars(sources[j].url, "/") != url
  {
    if sources == [] then None
    else
      var n := |sources| - 1;
      var before := ByUrl(sources[..n], url);
      if before.Some? then before else if RStripChars(sources[n].url, "/") == url then Some(n) else None
  }

  /** The bracketed reference for a URL: its source's id, or the note that there is none. */
  function Reference(sources: seq<Source>, url: string): string {
    var source := ByUrl(sources, url);
    if source.Some? then "[" + sources[source.value].id + "]" else UNAVAILABLE
  }

  // ------------------------------------------------------- scanners

  predicate Matches(s: string, i: nat, w: string) {
    i + |w| <= |s| && forall k :: 0 <= k < |w| ==> s[i + k] == w[k]
  }

  /** The pattern of a source marker between p and e: an S and digits in brackets. */
  predicate IsMarker(s: string, p: int, e: int) {
    && 0 <= p && p + 4 <= e <= |s| && s[p] == '[' && s[p + 1] == 'S' && s[e - 1] == ']'
    && forall k :: p + 2 <= k < e - 1 ==> IsDigit(s[k])
  }

  function MarkerAt(s: string, i: nat): (r: Option<nat>)
    requires i < |s|
    ensures r.Some? ==> i < r.value <= |s|
  {
    if s[i] == '[' && i + 1 < |s| && s[i + 1] == 'S' then
      var j := RunEnd(s, i + 2, Digit);
      if j > i + 2 && j < |s| && s[j] == ']' then Some(j + 1) else None
    else None
  }

  lemma MarkerAtIsMarker(s: string, i: nat)
    requires i < |s|
    ensures MarkerAt(s, i).Some? ==> IsMarker(s, i, MarkerAt(s, i).value)
    ensures forall e :: IsMarker(s, i, e) ==> MarkerAt(s, i).Some? && MarkerAt(s, i).value == e
  {
    if s[i] == '[' && i + 1 < |s| && s[i + 1] == 'S' {
      RunIsMaximal(s, i + 2, Digit);
      var j := RunEnd(s, i + 2, Digit);
      forall e | IsMarker(s, i, e) ensures e == j + 1 {
        assert !IsDigit(s[e - 1]);
      }
    }
  }

  /** End of http:// or https:// at a position; the position itself when there is neither. */
  function SchemeEnd(s: string, i: nat): (j: nat)
    ensures j == i || i < j <= |s|
  {
    if Matches(s, i, "http://") then i + 7 else if Matches(s, i, "https://") then i + 8 else i
  }

  lemma OneScheme(s: string, i: nat)
    ensures !(Matches(s, i, "http://") && Matches(s, i, "https://"))
  {
    assert Matches(s, i, "http://") ==> s[i + 4] == "http://"[4];
    assert Matches(s, i, "https://") ==> s[i + 4] == "https://"[4];
  }

  /** A URL at a position: where it ends; the position itself when there is none. */
  function UrlEnd(s: string, i: nat): (j: nat)
    ensures j == i || i < j <= |s|
  {
    var u := SchemeEnd(s, i);
    if u == i || RunEnd(s, u, InUrl) == u then i else RunEnd(s, u, InUrl)
  }

  /** The caption of a markdown link and its URL, by their positions. */
  datatype Link = Link(labelEnd: nat, urlEnd: nat)

  function LinkAt(s: string, i: nat): (r: Option<Link>)
    requires i < |s|
    ensures r.Some? ==> i + 1 < r.value.labelEnd && r.value.labelEnd + 2 <= r.value.urlEnd < |s|
  {
    if s[i] != '[' then None
    else
      var j := RunEnd(s, i + 1, NotBracket);
      if j == i + 1 || j + 2 > |s| || s[j + 1] != '(' then None
      else
        var u := SchemeEnd(s, j + 2);
        if u == j + 2 then None
        else
          var v := RunEnd(s, u, InLink);
          if v == u || v == |s| || s[v] != ')' then None else Some(Link(j, v))
  }

  // ------------------------------------------------------- rewriting

  function Match(pass: Pass, s: string, i: nat, sources: seq<Source>): (r: Option<Hit>)
    requires i < |s|
    ensures r.Some? ==> i < r.value.end <= |s|
  {
    match pass
    case Markers =>
      (match MarkerAt(s, i)
       case None => None
       case Some(e) =>
         if IsId(sources, s[i + 1..e - 1]) then Some(Hit(e, s[i..e], false)) else Some(Hit(e, UNAVAILABLE, true)))
    case Links =>
      (match LinkAt(s, i)
       case None => None
       case Some(link) =>
         var url := RStripChars(s[link.labelEnd + 2..link.urlEnd], "/");
         Some(Hit(link.urlEnd + 1, s[i + 1..link.labelEnd] + " " + Reference(sources, url), ByUrl(sources, url).None?)))
    case RawUrls =>
      if (i > 0 && s[i - 1] == '(') || UrlEnd(s, i) == i then None
      else
        var url := RStripChars(RStripChars(s[i..UrlEnd(s, i)], ".,;:"), "/");
        Some(Hit(UrlEnd(s, i), Reference(sources, url), ByUrl(sources, url).None?))
  }

  /** One pass from position i on: every leftmost match replaced, all other characters kept. */
  function Sub(pass: Pass, s: string, i: nat, sources: seq<Source>): string
    requires i <= |s|
    decreases |s| - i
  {
    if i == |s| then ""
    else match Match(pass, s, i, sources)
      case None => [s[i]] + Sub(pass, s, i + 1, sources)
      case Some(hit) => hit.text + Sub(pass, s, hit.end, sources)
  }

  /** Whether the pass flags anything from position i on. */
  predicate Flags(pass: Pass, s: string, i: nat, sources: seq<Source>)
    requires i <= |s|
    decreases |s| - i
  {
    i < |s| &&
    match Match(pass, s, i, sources)
    case None => Flags(pass, s, i + 1, sources)
    case Some(hit) => hit.flagged || Flags(pass, s, hit.end, sources)
  }

  // --------------------------------------------- markers name sources

  ghost predicate MarkersValid(s: string, sources: seq<Source>) {
    forall p, e :: IsMarker(s, p, e) ==> IsId(sources, s[p + 1..e - 1])
  }

  predicate BracketFree(s: string) {
    forall k :: 0 <= k < |s| ==> s[k] != '[' && s[k] != ']'
  }

  ghost predicate PlainIds(sources: seq<Source>) {
    forall k :: 0 <= k < |sources| ==> BracketFree(sources[k].id)
  }

  /** Some opening bracket or space comes before any closing bracket. */
  ghost predicate Interrupts(r: string) {
    exists p :: 0 <= p < |r| && r[p] in {'[', ' '} && forall k :: 0 <= k < p ==> r[k] != ']'
  }

  /** In r followed by rest, every marker that starts inside r is valid. */
  ghost predicate HeadValid(r: string, rest: string, sources: seq<Source>) {
    forall p, e :: p < |r| && IsMarker(r + rest, p, e) ==> IsId(sources, (r + rest)[p + 1..e - 1])
  }

  /** However the text goes on, every marker that starts inside r is valid. */
  ghost predicate SafeHead(r: string, sources: seq<Source>) {
    forall rest :: HeadValid(r, rest, sources)
  }

  ghost predicate SafeText(r: string, sources: seq<Source>) {
    Interrupts(r) && SafeHead(r, sources)
  }

  lemma UnavailableIsSafe(sources: seq<Source>)
    ensures SafeText(UNAVAILABLE, sources)
  {
    assert UNAVAILABLE[0] == '[';
    forall rest ensures HeadValid(UNAVAILABLE, rest, sources) {
      var t := UNAVAILABLE + rest;
      assert forall k :: 0 <= k < |UNAVAILABLE| ==> t[k] == UNAVAILABLE[k];
      assert t[1] == 'c';
    }
  }

  lemma BracketedIdIsSafe(id: string, sources: seq<Source>)
    requires IsId(sources, id) && BracketFree(id)
    ensures SafeText("[" + id + "]", sources)
  {
    var r := "[" + id + "]";
    var n := |r|;
    assert r[0] == '[' && r[n - 1] == ']';
    assert forall k :: 0 < k < n - 1 ==> r[k] == id[k - 1];
    forall rest ensures HeadValid(r, rest, sources) {
      var t := r + rest;
      assert forall k :: 0 <= k < n ==> t[k] == r[k];
      assert t[n - 1] == ']' && !IsDigit(']') && t[1..n - 1] == id;
    }
  }

  lemma LabelledIsSafe(caption: string, r: string, sources: seq<Source>)
    requires SafeText(r, sources) && forall k :: 0 <= k < |caption| ==> caption[k] != ']'
    ensures SafeText(caption + " " + r, sources)
  {
    var n := |caption|;
    var head := caption + " ";
    var x := head + r;
    assert x[n] == ' ' && forall k :: 0 <= k < n ==> x[k] == caption[k];
    forall rest ensures HeadValid(x, rest, sources) {
      assert x + rest == head + (r + rest);
      assert HeadValid(r, rest, sources);
      LabelledHead(caption, r, rest, sources);
    }
  }

  lemma LabelledHead(caption: string, r: string, rest: string, sources: seq<Source>)
    requires HeadValid(r, rest, sources) && forall k :: 0 <= k < |caption| ==> caption[k] != ']'
    ensures HeadValid(caption + " " + r, rest, sources)
  {
    var n, head, u := |caption|, caption + " ", r + rest;
    var t := caption + " " + r + rest;
    assert t == head + u;
    assert t[n] == ' ' && !IsDigit(' ');
    assert forall k :: 0 <= k < n ==> t[k] == caption[k];
    forall p, e | n < p < n + 1 + |r| && IsMarker(t, p, e) ensures IsId(sources, t[p + 1..e - 1]) {
      MarkerInRest(head, u, p, e);
    }
  }

  lemma MarkerInRest(r: string, rest: string, p: int, e: int)
    requires p >= |r| && IsMarker(r + rest, p, e)
    ensures IsMarker(rest, p - |r|, e - |r|)
    ensures (r + rest)[p + 1..e - 1] == rest[p - |r| + 1..e - |r| - 1]
  {
    var t, n := r + rest, |r|;
    assert forall k :: 0 <= k < |rest| ==> rest[k] == t[k + n];
    forall k | p - n + 2 <= k < e - n - 1 ensures IsDigit(rest[k]) {
      assert IsDigit(t[k + n]);
    }
  }

  lemma ReferenceIsSafe(sources: seq<Source>, url: string)
    requires PlainIds(sources)
    ensures SafeText(Reference(sources, url), sources)
  {
    var source := ByUrl(sources, url);
    if source.Some? {
      BracketedIdIsSafe(sources[source.value].id, sources);
    } else {
      UnavailableIsSafe(sources);
    }
  }

  lemma BracketSlice(s: string, i: nat, e: nat)
    requires i + 1 < e <= |s| && s[i] == '[' && s[e - 1] == ']'
    ensures s[i..e] == "[" + s[i + 1..e - 1] + "]"
  {
    var x, y := s[i..e], "[" + s[i + 1..e - 1] + "]";
    assert |x| == |y| && forall k :: 0 <= k < |y| ==> x[k] == y[k];
  }

  lemma MarkerHitIsSafe(s: string, i: nat, sources: seq<Source>)
    requires i < |s| && PlainIds(sources) && MarkerAt(s, i).Some?
    ensures var e := MarkerAt(s, i).value;
            e > i + 1 && (IsId(sources, s[i + 1..e - 1]) ==> SafeText(s[i..e], sources))
  {
    hide SafeText, BracketFree, IsDigit;
    var e := MarkerAt(s, i).value;
    MarkerAtIsMarker(s, i);
    if IsId(sources, s[i + 1..e - 1]) {
      BracketSlice(s, i, e);
      BracketedIdIsSafe(s[i + 1..e - 1], sources);
    }
  }

  lemma LinkHitIsSafe(s: string, i: nat, link: Link, url: string, sources: seq<Source>)
    requires i < |s| && PlainIds(sources) && LinkAt(s, i) == Some(link)
    ensures SafeText(s[i + 1..link.labelEnd] + " " + Reference(sources, url), sources)
  {
    hide SafeText, Reference, PlainIds, SchemeEnd, IsSpace, IsDigit;
    RunIsMaximal(s, i + 1, NotBracket);
    ReferenceIsSafe(sources, url);
    LabelledIsSafe(s[i + 1..link.labelEnd], Reference(sources, url), sources);
  }

  /** Whatever a pass inserts can neither hold nor complete an invalid marker. */
  lemma HitIsSafe(pass: Pass, s: string, i: nat, sources: seq<Source>)
    requires i < |s| && PlainIds(sources) && Match(pass, s, i, sources).Some?
    ensures SafeText(Match(pass, s, i, sources).value.text, sources)
  {
    hide SafeText, PlainIds, MarkerAt, LinkAt, Reference, RStripChars, ByUrl, UrlEnd, IsId;
    match pass {
      case Markers =>
        MarkerHitIsSafe(s, i, sources);
        UnavailableIsSafe(sources);
      case Links =>
        var link := LinkAt(s, i).value;
        LinkHitIsSafe(s, i, link, RStripChars(s[link.labelEnd + 2..link.urlEnd], "/"), sources);
      case RawUrls =>
        ReferenceIsSafe(sources, RStripChars(RStripChars(s[i..UrlEnd(s, i)], ".,;:"), "/"));
    }
  }

  /** n characters that are neither bracket nor space, then a closing bracket. */
  ghost predicate ClosesAt(t: string, n: nat) {
    n < |t| && t[n] == ']' && forall k :: 0 <= k < n ==> t[k] !in {'[', ']', ' '}
  }

  /** The first n + 1 characters of t are those of s from i on. */
  ghost predicate Copied(s: string, i: nat, t: string, n: nat) {
    n < |t| && i + n < |s| && forall k :: 0 <= k <= n ==> s[i + k] == t[k]
  }

  lemma CopiedOneMore(s: string, i: nat, u: string, n: nat)
    requires i < |s| && Copied(s, i + 1, u, n)
    ensures Copied(s, i, [s[i]] + u, n + 1)
  {
    var t := [s[i]] + u;
    forall k | 0 < k <= n + 1 ensures s[i + k] == t[k] {
      var m := k - 1;
      assert s[i + 1 + m] == u[m];
    }
  }

  lemma InterruptedNeverCloses(r: string, rest: string, n: nat)
    requires Interrupts(r)
    ensures !ClosesAt(r + rest, n)
  {
    var p :| 0 <= p < |r| && r[p] in {'[', ' '} && forall k :: 0 <= k < p ==> r[k] != ']';
    assert (r + rest)[p] == r[p];
    if n < p { assert (r + rest)[n] == r[n]; }
  }

  lemma ClosesLater(c: char, u: string, n: nat)
    requires ClosesAt([c] + u, n) && n > 0
    ensures ClosesAt(u, n - 1)
  {
    assert forall k :: 0 <= k < |u| ==> u[k] == ([c] + u)[k + 1];
  }

  /** The outputs of a pass from every position of the input. */
  ghost function Outputs(pass: Pass, s: string, sources: seq<Source>): (outs: seq<string>)
    ensures |outs| == |s| + 1 && forall j :: 0 <= j <= |s| ==> outs[j] == Sub(pass, s, j, sources)
  {
    seq(|s| + 1, j requires 0 <= j <= |s| => Sub(pass, s, j, sources))
  }

  /** Output from position j starts with the copied character, or never closes. */
  ghost predicate CopiesOrNeverCloses(s: string, outs: seq<string>, j: nat)
    requires j < |s| && |outs| == |s| + 1
  {
    outs[j] == [s[j]] + outs[j + 1] || forall n :: n >= 0 ==> !ClosesAt(outs[j], n)
  }

  lemma PassCopiesOrNeverCloses(pass: Pass, s: string, sources: seq<Source>, j: nat)
    requires j < |s| && PlainIds(sources)
    ensures CopiesOrNeverCloses(s, Outputs(pass, s, sources), j)
  {
    if Match(pass, s, j, sources).Some? {
      var hit := Match(pass, s, j, sources).value;
      HitIsSafe(pass, s, j, sources);
      assert Outputs(pass, s, sources)[j] == hit.text + Sub(pass, s, hit.end, sources);
      forall n: nat ensures !ClosesAt(hit.text + Sub(pass, s, hit.end, sources), n) {
        InterruptedNeverCloses(hit.text, Sub(pass, s, hit.end, sources), n);
      }
    }
  }

  /** Such a beginning of a pass's output was copied, character by character, from its input. */
  lemma {:induction false} ClosedTextWasCopied(s: string, outs: seq<string>, i: nat, n: nat)
    requires i <= |s| && |outs| == |s| + 1 && outs[|s|] == "" && ClosesAt(outs[i], n)
    requires forall j :: 0 <= j < |s| ==> CopiesOrNeverCloses(s, outs, j)
    ensures Copied(s, i, outs[i], n)
    decreases n
  {
    assert CopiesOrNeverCloses(s, outs, i);
    if n > 0 {
      ClosesLater(s[i], outs[i + 1], n);
      ClosedTextWasCopied(s, outs, i + 1, n - 1);
      CopiedOneMore(s, i, outs[i + 1], n - 1);
    }
  }

  lemma PassCopiesClosedText(pass: Pass, s: string, i: nat, sources: seq<Source>, n: nat)
    requires i <= |s| && PlainIds(sources) && ClosesAt(Sub(pass, s, i, sources), n)
    ensures Copied(s, i, Sub(pass, s, i, sources), n)
  {
    var outs := Outputs(pass, s, sources);
    forall j | 0 <= j < |s| ensures CopiesOrNeverCloses(s, outs, j) {
      PassCopiesOrNeverCloses(pass, s, sources, j);
    }
    ClosedTextWasCopied(s, outs, i, n);
  }

  /** Every marker of the input that a pass leaves alone is valid. */
  ghost predicate LeftoversValid(pass: Pass, s: string, sources: seq<Source>) {
    forall p, e :: IsMarker(s, p, e) && Match(pass, s, p, sources).None? ==> IsId(sources, s[p + 1..e - 1])
  }

  lemma NoMarkersInNothing(sources: seq<Source>)
    ensures MarkersValid("", sources)
  {
  }

  lemma HitHeadValid(pass: Pass, s: string, i: nat, rest: string, sources: seq<Source>)
    requires i < |s| && PlainIds(sources) && Match(pass, s, i, sources).Some?
    ensures HeadValid(Match(pass, s, i, sources).value.text, rest, sources)
  {
    hide Match, HeadValid, PlainIds, Interrupts;
    HitIsSafe(pass, s, i, sources);
  }

  lemma {:induction false} PassKeepsMarkersValid(pass: Pass, s: string, i: nat, sources: seq<Source>)
    requires i <= |s| && PlainIds(sources) && LeftoversValid(pass, s, sources)
    ensures MarkersValid(Sub(pass, s, i, sources), sources)
    decreases |s| - i
  {
    hide Match, HeadValid, MarkersValid, PlainIds, LeftoversValid, SafeText;
    if i == |s| {
      NoMarkersInNothing(sources);
    } else {
      match Match(pass, s, i, sources) {
        case Some(hit) =>
          var rest := Sub(pass, s, hit.end, sources);
          HitHeadValid(pass, s, i, rest, sources);
          PassKeepsMarkersValid(pass, s, hit.end, sources);
          AfterHead(hit.text, rest, sources);
          assert Sub(pass, s, i, sources) == hit.text + rest;
        case None =>
          var rest := Sub(pass, s, i + 1, sources);
          PassKeepsMarkersValid(pass, s, i + 1, sources);
          CopiedHeadIsSafe(pass, s, i, sources);
          AfterHead([s[i]], rest, sources);
          assert Sub(pass, s, i, sources) == [s[i]] + rest;
      }
    }
  }

  /** Markers of a concatenation start in its head or lie in its rest. */
  lemma AfterHead(r: string, rest: string, sources: seq<Source>)
    requires HeadValid(r, rest, sources) && MarkersValid(rest, sources)
    ensures MarkersValid(r + rest, sources)
  {
    forall p, e | IsMarker(r + rest, p, e) && p >= |r| ensures IsId(sources, (r + rest)[p + 1..e - 1]) {
      MarkerInRest(r, rest, p, e);
    }
  }

  lemma MarkerCloses(c: char, u: string, e: nat)
    requires IsMarker([c] + u, 0, e)
    ensures ClosesAt(u, e - 2)
  {
    var t := [c] + u;
    assert forall k :: 0 <= k < |u| ==> u[k] == t[k + 1];
    forall k | 0 <= k < e - 2 ensures u[k] !in {'[', ']', ' '} {
      assert k > 0 ==> IsDigit(t[k + 1]);
    }
  }

  lemma CopiedHeadIsSafe(pass: Pass, s: string, i: nat, sources: seq<Source>)
    requires i < |s| && PlainIds(sources) && LeftoversValid(pass, s, sources) && Match(pass, s, i, sources).None?
    ensures HeadValid([s[i]], Sub(pass, s, i + 1, sources), sources)
  {
    var u := Sub(pass, s, i + 1, sources);
    forall e | IsMarker([s[i]] + u, 0, e) ensures IsId(sources, ([s[i]] + u)[1..e - 1]) {
      MarkerCloses(s[i], u, e);
      assert Copied(s, i + 1, u, e - 2) by { PassCopiesClosedText(pass, s, i + 1, sources, e - 2); }
      CopiedOneMore(s, i, u, e - 2);
      CopiedMarker(s, i, [s[i]] + u, e);
    }
  }

  lemma CopiedMarker(s: string, i: nat, t: string, e: nat)
    requires IsMarker(t, 0, e) && Copied(s, i, t, e - 1)
    ensures IsMarker(s, i, i + e) && s[i + 1..i + e - 1] == t[1..e - 1]
  {
    forall k | i + 2 <= k < i + e - 1 ensures IsDigit(s[k]) {
      var m := k - i;
      assert s[i + m] == t[m];
    }
    assert s[i + 0] == t[0] && s[i + 1] == t[1] && s[i + (e - 1)] == t[e - 1];
  }

  // --------------------------------------------- which URLs survive

  predicate HasUrlWith(s: string, i: int, scheme: string) {
    0 <= i && Matches(s, i, scheme) && i + |scheme| < |s| && In(s[i + |scheme|], InUrl)
  }

  /** A URL starts here: a scheme and at least one character that a URL may hold. */
  predicate HasUrl(s: string, i: int) {
    HasUrlWith(s, i, "http://") || HasUrlWith(s, i, "https://")
  }

  /** Every URL follows an opening parenthesis directly. */
  ghost predicate Guarded(s: string) {
    forall i :: 0 <= i < |s| && HasUrl(s, i) ==> i > 0 && s[i - 1] == '('
  }

  ghost predicate GuardedInside(s: string) {
    forall i :: 0 < i < |s| && HasUrl(s, i) ==> s[i - 1] == '('
  }

  predicate ColonFree(s: string) {
    forall k :: 0 <= k < |s| ==> s[k] != ':'
  }

  lemma UrlEndIsUrl(s: string, i: nat)
    ensures UrlEnd(s, i) > i <==> HasUrl(s, i)
    ensures HasUrl(s, i) ==> s[i] == 'h'
  {
    assert Matches(s, i, "http://") ==> s[i + 4] == "http://"[4] && s[i + 0] == "http://"[0];
    assert Matches(s, i, "https://") ==> s[i + 4] == "https://"[4] && s[i + 0] == "https://"[0];
  }

  lemma RestChars(r: string, rest: string, i: nat, n: nat)
    requires i >= |r| && i + n < |r| + |rest|
    ensures forall k :: i <= k <= i + n ==> (r + rest)[k] == rest[k - |r|]
    ensures forall k :: i - |r| <= k <= i - |r| + n ==> rest[k] == (r + rest)[k + |r|]
  {
  }

  lemma UrlInRest(r: string, rest: string, i: nat)
    requires i >= |r| && HasUrl(r + rest, i)
    ensures HasUrl(rest, i - |r|)
  {
    var t, j := r + rest, i - |r|;
    if HasUrlWith(t, i, "http://") {
      RestChars(r, rest, i, 7);
    } else {
      RestChars(r, rest, i, 8);
    }
  }

  /** What matters about a scheme: it starts with an h, holds no bracket, and has a colon after its letters. */
  predicate IsScheme(w: string) {
    && |w| >= 7 && w[0] == 'h' && w[|w| - 3] == ':'
    && forall k :: 0 <= k < |w| ==> w[k] != '[' && w[k] != ']'
  }

  lemma SchemesAreSchemes()
    ensures IsScheme("http://") && IsScheme("https://")
  {
  }

  lemma SchemeIsPlain(t: string, i: nat, scheme: string)
    requires IsScheme(scheme) && Matches(t, i, scheme)
    ensures forall k :: i <= k < i + |scheme| ==> t[k] != '[' && t[k] != ']'
    ensures t[i] == 'h' && t[i + |scheme| - 3] == ':'
  {
    assert forall k :: i <= k < i + |scheme| ==> t[k] == scheme[k - i];
  }

  lemma NoSchemeInReference(id: string, rest: string, i: nat, scheme: string)
    requires ColonFree(id) && i < |id| + 2 && IsScheme(scheme)
    ensures !Matches("[" + id + "]" + rest, i, scheme)
  {
    var t, n := "[" + id + "]" + rest, |id|;
    assert t[0] == '[' && t[n + 1] == ']' && forall k :: 0 < k <= n ==> t[k] == id[k - 1];
    if Matches(t, i, scheme) { SchemeIsPlain(t, i, scheme); }
  }

  lemma NoUrlInReference(id: string, rest: string, i: nat)
    requires ColonFree(id) && i < |id| + 2
    ensures !HasUrl("[" + id + "]" + rest, i)
  {
    SchemesAreSchemes();
    NoSchemeInReference(id, rest, i, "http://");
    NoSchemeInReference(id, rest, i, "https://");
  }

  /** What the URL pass inserts: something in brackets that holds no colon. */
  lemma ReferenceShape(sources: seq<Source>, url: string) returns (id: string)
    requires forall k :: 0 <= k < |sources| ==> ColonFree(sources[k].id)
    ensures Reference(sources, url) == "[" + id + "]" && ColonFree(id)
  {
    var source := ByUrl(sources, url);
    id := if source.Some? then sources[source.value].id else NOTE;
    assert ColonFree(NOTE);
  }

  lemma UrlHit(s: string, i: nat, sources: seq<Source>)
    requires i < |s| && Match(RawUrls, s, i, sources).Some?
    ensures var hit := Match(RawUrls, s, i, sources).value;
            && HasUrl(s, i) && s[i] == 'h'
            && |hit.text| > 0 && hit.text[0] == '['
            && (hit.end < |s| ==> s[hit.end] != 'h')
  {
    UrlEndIsUrl(s, i);
    RunIsMaximal(s, SchemeEnd(s, i), InUrl);
  }

  /** Where the output does not start with a bracket, the input character was copied. */
  lemma CopyStep(s: string, i: nat, sources: seq<Source>)
    requires i < |s|
    ensures var t := Sub(RawUrls, s, i, sources);
            t != "" && t[0] != '[' ==>
              Match(RawUrls, s, i, sources).None? && t == [s[i]] + Sub(RawUrls, s, i + 1, sources)
  {
    if Match(RawUrls, s, i, sources).Some? {
      UrlHit(s, i, sources);
    }
  }

  /** Output from position j either starts with what was put there or with the copied character. */
  ghost predicate StepAt(s: string, outs: seq<string>, j: nat)
    requires j < |s| && |outs| == |s| + 1
  {
    && (outs[j] != "" && outs[j][0] != '[' ==> outs[j] == [s[j]] + outs[j + 1])
    && (StartsUrlChar(outs[j]) ==> In(s[j], InUrl))
  }

  ghost predicate CopySteps(s: string, outs: seq<string>) {
    |outs| == |s| + 1 && outs[|s|] == "" && forall j :: 0 <= j < |s| ==> StepAt(s, outs, j)
  }

  lemma OutputsCopy(s: string, sources: seq<Source>)
    ensures CopySteps(s, Outputs(RawUrls, s, sources))
  {
    var outs := Outputs(RawUrls, s, sources);
    forall j | 0 <= j < |s| ensures StepAt(s, outs, j) {
      CopyStep(s, j, sources);
      if Match(RawUrls, s, j, sources).Some? { UrlHit(s, j, sources); }
    }
  }

  ghost predicate NoOpening(t: string, n: nat) {
    n < |t| && forall k :: 0 <= k < n ==> t[k] != '['
  }

  /** Output up to its first opening bracket is copied from the input. */
  lemma {:induction false} CopiedUpTo(s: string, outs: seq<string>, i: nat, n: nat)
    requires i <= |s| && CopySteps(s, outs) && NoOpening(outs[i], n)
    ensures n > 0 ==> Copied(s, i, outs[i], n - 1)
    ensures i + n <= |s| && outs[i + n] != "" && outs[i + n][0] == outs[i][n]
    decreases n
  {
    hide In, Copied, StartsUrlChar;
    if n > 0 {
      var t, u := outs[i], outs[i + 1];
      assert StepAt(s, outs, i);
      ShorterOpening(s[i], u, n);
      CopiedUpTo(s, outs, i + 1, n - 1);
      if n > 1 { CopiedOneMore(s, i, u, n - 2); } else { CopiedOne(s, i, t); }
    }
  }

  lemma ShorterOpening(c: char, u: string, n: nat)
    requires NoOpening([c] + u, n) && n > 0
    ensures NoOpening(u, n - 1) && u[n - 1] == ([c] + u)[n]
  {
    assert forall k :: 0 <= k < |u| ==> u[k] == ([c] + u)[k + 1];
  }

  lemma CopiedOne(s: string, i: nat, t: string)
    requires i < |s| && t != "" && t[0] == s[i]
    ensures Copied(s, i, t, 0)
  {
  }

  lemma SchemeWasCopied(s: string, i: nat, outs: seq<string>, scheme: string)
    requires i <= |s| && CopySteps(s, outs) && IsScheme(scheme) && Matches(outs[i], 0, scheme) && |scheme| < |outs[i]|
    ensures Matches(s, i, scheme)
    ensures outs[i + |scheme|] != "" && outs[i + |scheme|][0] == outs[i][|scheme|]
  {
    SchemeIsPlain(outs[i], 0, scheme);
    CopiedUpTo(s, outs, i, |scheme|);
    CopiedScheme(s, i, outs[i], scheme);
  }

  lemma CopiedScheme(s: string, i: nat, t: string, scheme: string)
    requires IsScheme(scheme) && Matches(t, 0, scheme) && Copied(s, i, t, |scheme| - 1)
    ensures Matches(s, i, scheme)
  {
    assert forall k :: 0 <= k < |scheme| ==> t[0 + k] == scheme[k];
  }

  predicate StartsUrlChar(t: string) {
    t != "" && In(t[0], InUrl)
  }

  lemma UrlStartNotReplaced(s: string, i: nat, sources: seq<Source>)
    requires i < |s| && |Sub(RawUrls, s, i, sources)| > 0 && Sub(RawUrls, s, i, sources)[0] == 'h'
    ensures Match(RawUrls, s, i, sources).None?
  {
    CopyStep(s, i, sources);
  }

  lemma SchemeWasThere(s: string, i: nat, outs: seq<string>, scheme: string)
    requires i <= |s| && CopySteps(s, outs) && IsScheme(scheme) && HasUrlWith(outs[i], 0, scheme)
    ensures HasUrlWith(s, i, scheme)
  {
    SchemeWasCopied(s, i, outs, scheme);
    assert i + |scheme| < |s| ==> StepAt(s, outs, i + |scheme|);
  }

  lemma UrlWasInInput(s: string, i: nat, outs: seq<string>)
    requires i <= |s| && CopySteps(s, outs) && HasUrl(outs[i], 0)
    ensures HasUrl(s, i) && outs[i][0] == 'h'
  {
    SchemesAreSchemes();
    UrlEndIsUrl(outs[i], 0);
    if HasUrlWith(outs[i], 0, "http://") {
      SchemeWasThere(s, i, outs, "http://");
    } else {
      SchemeWasThere(s, i, outs, "https://");
    }
  }

  /** A URL at the start of the output was one in the input. */
  lemma UrlWasThere(s: string, i: nat, sources: seq<Source>)
    requires i <= |s| && HasUrl(Sub(RawUrls, s, i, sources), 0)
    ensures HasUrl(s, i) && i < |s| && Match(RawUrls, s, i, sources).None?
  {
    OutputsCopy(s, sources);
    UrlWasInInput(s, i, Outputs(RawUrls, s, sources));
    UrlStartNotReplaced(s, i, sources);
  }

  lemma {:induction false} UrlPassGuards(s: string, i: nat, sources: seq<Source>)
    requires i <= |s| && forall k :: 0 <= k < |sources| ==> ColonFree(sources[k].id)
    ensures GuardedInside(Sub(RawUrls, s, i, sources))
    decreases |s| - i
  {
    var t := Sub(RawUrls, s, i, sources);
    if i < |s| {
      match Match(RawUrls, s, i, sources) {
        case None =>
          var u := Sub(RawUrls, s, i + 1, sources);
          UrlPassGuards(s, i + 1, sources);
          forall q | 0 < q < |t| && HasUrl(t, q) ensures t[q - 1] == '(' {
            UrlInRest([s[i]], u, q);
            if q == 1 {
              UrlWasThere(s, i + 1, sources);
              UrlEndIsUrl(s, i + 1);
            } else {
              assert t[q - 1] == u[q - 2];
            }
          }
        case Some(hit) =>
          var u := Sub(RawUrls, s, hit.end, sources);
          UrlPassGuards(s, hit.end, sources);
          UrlHit(s, i, sources);
          var id := ReferenceShape(sources, RStripChars(RStripChars(s[i..UrlEnd(s, i)], ".,;:"), "/"));
          forall q | 0 < q < |t| && HasUrl(t, q) ensures t[q - 1] == '(' {
            if q < |hit.text| {
              NoUrlInReference(id, u, q);
            } else {
              UrlInRest(hit.text, u, q);
              if q == |hit.text| {
                UrlWasThere(s, hit.end, sources);
                UrlEndIsUrl(s, hit.end);
              } else {
                assert t[q - 1] == u[q - |hit.text| - 1];
              }
            }
          }
      }
    }
  }

  lemma NoUrlAtStart(s: string, sources: seq<Source>)
    ensures !HasUrl(Sub(RawUrls, s, 0, sources), 0)
  {
    if HasUrl(Sub(RawUrls, s, 0, sources), 0) {
      UrlWasThere(s, 0, sources);
      UrlEndIsUrl(s, 0);
    }
  }

  /** Whatever the text, a URL is left in the result only right after an opening parenthesis. */
  lemma UrlPassLeavesOnlyGuarded(s: string, sources: seq<Source>)
    requires forall k :: 0 <= k < |sources| ==> ColonFree(sources[k].id)
    ensures Guarded(Sub(RawUrls, s, 0, sources))
  {
    hide Sub, HasUrl, ColonFree;
    UrlPassGuards(s, 0, sources);
    NoUrlAtStart(s, sources);
  }

  // --------------------------------------------- the whole validation

  /** Valid markers only, no markdown link, and URLs only right after an opening parenthesis. */
  ghost predicate Settled(s: string, sources: seq<Source>) {
    && MarkersValid(s, sources)
    && (forall i :: 0 <= i < |s| ==> LinkAt(s, i).None?)
    && Guarded(s)
  }

  /** A match that puts back what it found, without a flag. */
  predicate Quiet(pass: Pass, s: string, i: nat, sources: seq<Source>)
    requires i < |s|
  {
    match Match(pass, s, i, sources)
    case None => true
    case Some(hit) => hit.text == s[i..hit.end] && !hit.flagged
  }

  lemma SplitAt(s: string, i: nat, e: nat)
    requires i < e <= |s|
    ensures s[i..] == s[i..e] + s[e..]
    ensures e == i + 1 ==> s[i..e] == [s[i]]
  {
  }

  lemma {:induction false} QuietPass(pass: Pass, s: string, i: nat, sources: seq<Source>)
    requires i <= |s| && forall j :: i <= j < |s| ==> Quiet(pass, s, j, sources)
    ensures Sub(pass, s, i, sources) == s[i..] && !Flags(pass, s, i, sources)
    decreases |s| - i
  {
    hide Match;
    if i < |s| {
      assert Quiet(pass, s, i, sources);
      match Match(pass, s, i, sources) {
        case None =>
          QuietPass(pass, s, i + 1, sources);
          SplitAt(s, i, i + 1);
        case Some(hit) =>
          QuietPass(pass, s, hit.end, sources);
          SplitAt(s, i, hit.end);
      }
    }
  }

  lemma SettledIsQuiet(pass: Pass, s: string, sources: seq<Source>)
    requires Settled(s, sources)
    ensures Sub(pass, s, 0, sources) == s && !Flags(pass, s, 0, sources)
  {
    forall j | 0 <= j < |s| ensures Quiet(pass, s, j, sources) {
      if pass.Markers? { MarkerAtIsMarker(s, j); }
      if pass.RawUrls? { UrlEndIsUrl(s, j); }
    }
    QuietPass(pass, s, 0, sources);
    assert s[0..] == s;
  }

  /** _validate_citations: the rewritten answer and the deduplicated flags. */
  method ValidateCitations(markdown: string, sources: seq<Source>) returns (cleaned: string, flags: seq<string>)
    ensures PlainIds(sources) ==> MarkersValid(cleaned, sources)
    ensures (forall k :: 0 <= k < |sources| ==> ColonFree(sources[k].id)) ==> Guarded(cleaned)
    ensures Settled(markdown, sources) ==> cleaned == markdown && flags == []
    ensures cleaned == Validated(markdown, sources).0 && flags == Validated(markdown, sources).1
  {
    flags := [];
    if Flags(Markers, markdown, 0, sources) { flags := [FLAG]; }
    cleaned := Sub(Markers, markdown, 0, sources);
    if Flags(Links, cleaned, 0, sources) { flags := [FLAG]; }
    cleaned := Sub(Links, cleaned, 0, sources);
    if Flags(RawUrls, cleaned, 0, sources) { flags := [FLAG]; }
    cleaned := Sub(RawUrls, cleaned, 0, sources);
    if PlainIds(sources) { EveryMarkerNamesASource(markdown, sources); }
    if forall k :: 0 <= k < |sources| ==> ColonFree(sources[k].id) {
      UrlPassLeavesOnlyGuarded(Sub(Links, Sub(Markers, markdown, 0, sources), 0, sources), sources);
    }
    if Settled(markdown, sources) { SettledTextIsUnchanged(markdown, sources); }
  }

  function Validated(markdown: string, sources: seq<Source>): (string, seq<string>) {
    var a := Sub(Markers, markdown, 0, sources);
    var b := Sub(Links, a, 0, sources);
    (Sub(RawUrls, b, 0, sources),
     if Flags(Markers, markdown, 0, sources) || Flags(Links, a, 0, sources) || Flags(RawUrls, b, 0, sources)
     then [FLAG] else [])
  }

  /** For any text at all, every source marker in the result names a source of the ledger. */
  lemma EveryMarkerNamesASource(markdown: string, sources: seq<Source>)
    requires PlainIds(sources)
    ensures MarkersValid(Validated(markdown, sources).0, sources)
  {
    var a := Sub(Markers, markdown, 0, sources);
    var b := Sub(Links, a, 0, sources);
    forall p, e | IsMarker(markdown, p, e) ensures Match(Markers, markdown, p, sources).Some? {
      MarkerAtIsMarker(markdown, p);
    }
    PassKeepsMarkersValid(Markers, markdown, 0, sources);
    PassKeepsMarkersValid(Links, a, 0, sources);
    PassKeepsMarkersValid(RawUrls, b, 0, sources);
  }

  lemma SettledTextIsUnchanged(markdown: string, sources: seq<Source>)
    requires Settled(markdown, sources)
    ensures Validated(markdown, sources) == (markdown, [])
  {
    SettledIsQuiet(Markers, markdown, sources);
    SettledIsQuiet(Links, markdown, sources);
    SettledIsQuiet(RawUrls, markdown, sources);
  }
}
