/**
  Which markdown links of the text that enters the URL pass are still links in
  its output. Source ids are words: no bracket, colon, parenthesis or space.
 */
module SurvivingLinks {
  import opened Wrappers
  import opened Chars
  import opened Citations
  import opened CitationScan
  import opened CitationSeams
  import opened SurvivingUrls
  import opened Revalidation

  predicate IsWord(id: string) {
    forall k :: 0 <= k < |id| ==> id[k] != '[' && id[k] != ']' && id[k] != ':' && In(id[k], InLink)
  }

  ghost predicate WordIds(sources: seq<Source>) {
    forall k :: 0 <= k < |sources| ==> IsWord(sources[k].id)
  }

  lemma WordsArePlain(sources: seq<Source>)
    requires WordIds(sources)
    ensures PlainIds(sources) && ColonFreeIds(sources)
  {
    hide In;
    forall k | 0 <= k < |sources| ensures BracketFree(sources[k].id) && ColonFree(sources[k].id) {
      assert IsWord(sources[k].id);
    }
  }

  // ------------------------------------------------------- the pattern of a link

  /** A link: its label ends at j, its URL has the scheme w and ends at v. */
  ghost predicate IsLink(s: string, i: nat, j: nat, w: string, v: nat) {
    && IsHttp(w) && i + 1 < j && j + 2 + |w| < v < |s|
    && s[i] == '[' && s[j] == ']' && s[j + 1] == '(' && s[v] == ')'
    && (forall k :: i < k < j ==> s[k] != ']')
    && Matches(s, j + 2, w)
    && (forall k :: j + 2 + |w| <= k < v ==> In(s[k], InLink))
  }

  lemma FoundIsLink(s: string, i: nat) returns (w: string)
    requires i < |s| && LinkAt(s, i).Some?
    ensures IsLink(s, i, LinkAt(s, i).value.labelEnd, w, LinkAt(s, i).value.urlEnd)
  {
    hide IsSpace;
    var j := LinkAt(s, i).value.labelEnd;
    RunIsMaximal(s, i + 1, NotBracket);
    RunIsMaximal(s, SchemeEnd(s, j + 2), InLink);
    w := if Matches(s, j + 2, "http://") then "http://" else "https://";
  }

  lemma LinkIsFound(s: string, i: nat, j: nat, w: string, v: nat)
    requires IsLink(s, i, j, w, v)
    ensures LinkAt(s, i) == Some(Link(j, v))
  {
    hide IsSpace, RunEnd, Matches;
    SchemeIs(s, j + 2, w);
    RunStops(s, i + 1, j, NotBracket);
    RunStops(s, j + 2 + |w|, v, InLink);
  }

  /** The pattern of a markdown link from i, spelt out: its label ends at j, its URL at v. */
  predicate IsLinkText(s: string, i: nat, j: nat, v: nat) {
    && i + 1 < j < |s| && s[i] == '[' && (forall k :: i < k < j ==> s[k] != ']')
    && (IsTargetText(s, j, "http://", v) || IsTargetText(s, j, "https://", v))
  }

  predicate IsTargetText(s: string, j: nat, w: string, v: nat) {
    && j + 2 + |w| < v < |s| && s[j] == ']' && s[j + 1] == '(' && s[j + 2..j + 2 + |w|] == w && s[v] == ')'
    && forall k :: j + 2 + |w| <= k < v ==> s[k] != ')' && !IsSpace(s[k])
  }

  lemma TargetIffLink(s: string, i: nat, j: nat, w: string, v: nat)
    requires IsHttp(w) && i + 1 < j < |s| && s[i] == '[' && (forall k :: i < k < j ==> s[k] != ']')
    ensures IsTargetText(s, j, w, v) <==> IsLink(s, i, j, w, v)
  {
    hide IsSpace, Matches;
    MatchesSlice(s, j + 2, w);
    if IsLink(s, i, j, w, v) {
      assert forall k :: j + 2 + |w| <= k < v ==> In(s[k], InLink);
    }
  }

  /** The scanner finds exactly that pattern. */
  lemma LinkAtIffPattern(s: string, i: nat, j: nat, v: nat)
    requires i < |s|
    ensures LinkAt(s, i) == Some(Link(j, v)) <==> IsLinkText(s, i, j, v)
  {
    hide LinkAt, IsTargetText;
    if LinkAt(s, i) == Some(Link(j, v)) {
      var w := FoundIsLink(s, i);
      TargetIffLink(s, i, j, w, v);
    }
    if IsLinkText(s, i, j, v) {
      var w := if IsTargetText(s, j, "http://", v) then "http://" else "https://";
      TargetIffLink(s, i, j, w, v);
      LinkIsFound(s, i, j, w, v);
    }
  }

  // ------------------------------------------------------- runs up to a closing parenthesis

  /** Nothing but link characters, then a closing parenthesis at n. */
  ghost predicate ClosesRun(t: string, n: nat) {
    n < |t| && t[n] == ')' && forall k :: 0 <= k < n ==> In(t[k], InLink)
  }

  /** Every URL replaced in the part from p up to v names a source. */
  ghost predicate KnownInside(s: string, p: nat, v: nat, sources: seq<Source>) {
    forall k :: p <= k < v && k < |s| && Reaches(RawUrls, s, p, k, sources) ==> Unflagged(s, k, sources)
  }

  predicate Unflagged(s: string, k: nat, sources: seq<Source>)
    requires k < |s|
  {
    match Match(RawUrls, s, k, sources) case None => true case Some(hit) => !hit.flagged
  }

  lemma KnownOneMore(s: string, p: nat, v: nat, sources: seq<Source>)
    requires p < |s| && Unflagged(s, p, sources)
    requires KnownInside(s, NextLook(RawUrls, s, p, sources), v, sources)
    ensures KnownInside(s, p, v, sources)
  {
    hide Match, Unflagged;
    var n := NextLook(RawUrls, s, p, sources);
    forall k | p <= k < v && k < |s| && Reaches(RawUrls, s, p, k, sources) ensures Unflagged(s, k, sources) {
      assert k == p || Reaches(RawUrls, s, n, k, sources);
    }
  }

  lemma KnownAfter(s: string, p: nat, v: nat, sources: seq<Source>)
    requires p < v && p < |s| && KnownInside(s, p, v, sources)
    ensures Unflagged(s, p, sources)
    ensures KnownInside(s, NextLook(RawUrls, s, p, sources), v, sources)
  {
    hide Match, Unflagged;
    var n := NextLook(RawUrls, s, p, sources);
    assert Reaches(RawUrls, s, p, p, sources);
    forall k | n <= k < v && k < |s| && Reaches(RawUrls, s, n, k, sources) ensures Unflagged(s, k, sources) {
      assert Reaches(RawUrls, s, p, k, sources);
    }
  }

  /** What replaces a URL: a known source's id in brackets, or the note, which holds a space. */
  lemma HitShape(s: string, i: nat, sources: seq<Source>) returns (id: string)
    requires i < |s| && Match(RawUrls, s, i, sources).Some? && WordIds(sources)
    ensures Match(RawUrls, s, i, sources).value.text == "[" + id + "]" && BracketFree(id)
    ensures Match(RawUrls, s, i, sources).value.flagged ==> id == NOTE
    ensures !Match(RawUrls, s, i, sources).value.flagged ==> IsWord(id)
  {
    hide In, UrlEnd, RStripChars, ByUrl, IsWord;
    WordsArePlain(sources);
    var source := ByUrl(sources, RStripChars(RStripChars(s[i..UrlEnd(s, i)], ".,;:"), "/"));
    id := if source.Some? then sources[source.value].id else NOTE;
  }

  lemma NoteIsNoRun()
    ensures |NOTE| == 20 && NOTE[8] == ' ' && !In(' ', InLink)
    ensures forall k :: 0 <= k < |NOTE| ==> NOTE[k] != ')'
  {
  }

  lemma BracketedWord(id: string)
    requires IsWord(id)
    ensures forall k :: 0 <= k < |id| + 2 ==> In(("[" + id + "]")[k], InLink)
  {
    hide In;
    var t := "[" + id + "]";
    assert In('[', InLink) && In(']', InLink) by { BracketsInLink(); }
    assert forall k :: 0 < k <= |id| ==> t[k] == id[k - 1];
  }

  lemma BracketsInLink()
    ensures In('[', InLink) && In(']', InLink)
  {
  }

  lemma LongerRun(head: string, rest: string, n: nat)
    requires ClosesRun(rest, n) && forall k :: 0 <= k < |head| ==> In(head[k], InLink)
    ensures ClosesRun(head + rest, |head| + n)
  {
    hide In;
    var t := head + rest;
    assert forall k :: 0 <= k < |head| ==> t[k] == head[k];
    assert forall k :: 0 <= k < |rest| ==> t[|head| + k] == rest[k];
    assert forall k :: |head| <= k < |t| ==> t[k] == rest[k - |head|];
  }

  lemma ShorterRun(head: string, rest: string, n: nat)
    requires ClosesRun(head + rest, n) && n >= |head|
    ensures ClosesRun(rest, n - |head|)
    ensures forall k :: 0 <= k < |head| ==> In(head[k], InLink)
  {
    hide In;
    var t := head + rest;
    assert forall k :: 0 <= k < |head| ==> t[k] == head[k];
    assert forall k :: 0 <= k < |rest| ==> t[|head| + k] == rest[k];
  }

  /** The characters of a URL are link characters, and a URL does not run over a closing parenthesis. */
  lemma UrlInsideRun(s: string, p: nat, v: nat)
    requires HasUrl(s, p) && p <= v < |s| && s[v] == ')'
    ensures UrlEnd(s, p) <= v
  {
    hide HasUrl, UrlEnd;
    UrlIsRun(s, p);
  }

  lemma UrlCharsInLink(s: string, p: nat)
    requires HasUrl(s, p)
    ensures p < UrlEnd(s, p) <= |s|
    ensures forall k :: p <= k < UrlEnd(s, p) ==> In(s[k], InLink)
  {
    hide HasUrl, UrlEnd;
    HasUrlInside(s, p);
    UrlIsRun(s, p);
  }

  /** A run up to a closing parenthesis stays one when every URL in it names a source. */
  lemma {:induction false} RunKept(s: string, p: nat, v: nat, sources: seq<Source>) returns (n: nat)
    requires p <= v < |s| && s[v] == ')' && forall k :: p <= k < v ==> In(s[k], InLink)
    requires WordIds(sources) && KnownInside(s, p, v, sources)
    ensures ClosesRun(Sub(RawUrls, s, p, sources), n) && (p < v ==> n > 0)
    decreases v - p
  {
    hide Match, HasUrl, In, KnownInside, WordIds, IsWord, UrlEnd;
    MatchesOpenUrls(s, p, sources);
    if p < v { KnownAfter(s, p, v, sources); }
    match Match(RawUrls, s, p, sources) {
      case None =>
        if p == v {
          n := 0;
        } else {
          n := RunKept(s, p + 1, v, sources);
          LongerRun([s[p]], Sub(RawUrls, s, p + 1, sources), n);
          n := n + 1;
        }
      case Some(hit) =>
        HasUrlInside(s, p);
        UrlInsideRun(s, p, v);
        var id := HitShape(s, p, sources);
        n := RunKept(s, hit.end, v, sources);
        BracketedWord(id);
        LongerRun(hit.text, Sub(RawUrls, s, hit.end, sources), n);
        n := n + |hit.text|;
    }
  }

  lemma FlaggedBreaksRun(head: string, rest: string, n: nat)
    requires head == "[" + NOTE + "]"
    ensures !ClosesRun(head + rest, n)
  {
    hide In;
    NoteIsNoRun();
    var t := head + rest;
    assert t[9] == NOTE[8];
    assert forall k :: 0 <= k < 22 ==> t[k] == head[k];
    assert forall k :: 0 < k <= 20 ==> head[k] == NOTE[k - 1];
    assert head[0] == '[' && head[21] == ']';
  }

  lemma PastBracketedWord(id: string, rest: string, n: nat)
    requires IsWord(id) && ClosesRun("[" + id + "]" + rest, n)
    ensures n >= |id| + 2
  {
    var head := "[" + id + "]";
    BracketedWord(id);
    assert n < |head| ==> (head + rest)[n] == head[n];
  }

  /** A run up to a closing parenthesis in the output was one in the input, and every URL in it named a source. */
  lemma {:induction false} RunWas(s: string, p: nat, n: nat, sources: seq<Source>) returns (v: nat)
    requires p <= |s| && WordIds(sources) && ClosesRun(Sub(RawUrls, s, p, sources), n)
    ensures p <= v < |s| && s[v] == ')' && (n > 0 ==> v > p)
    ensures forall k :: p <= k < v ==> In(s[k], InLink)
    ensures KnownInside(s, p, v, sources)
    decreases |s| - p
  {
    hide Match, HasUrl, In, KnownInside, WordIds, IsWord, UrlEnd, ClosesRun;
    var t := Sub(RawUrls, s, p, sources);
    RunNotEmpty(t, n);
    MatchesOpenUrls(s, p, sources);
    match Match(RawUrls, s, p, sources) {
      case None =>
        var rest := Sub(RawUrls, s, p + 1, sources);
        assert t == [s[p]] + rest;
        FirstOfRun(s[p], rest, n);
        if n == 0 {
          v := p;
          NothingKnownYet(s, p, sources);
        } else {
          ShorterRun([s[p]], rest, n);
          v := RunWas(s, p + 1, n - 1, sources);
          KnownOneMore(s, p, v, sources);
        }
      case Some(hit) =>
        var rest := Sub(RawUrls, s, hit.end, sources);
        var id := HitShape(s, p, sources);
        if hit.flagged { FlaggedBreaksRun(hit.text, rest, n); }
        PastBracketedWord(id, rest, n);
        ShorterRun(hit.text, rest, n);
        v := RunWas(s, hit.end, n - |hit.text|, sources);
        UrlCharsInLink(s, p);
        KnownOneMore(s, p, v, sources);
    }
  }

  lemma RunNotEmpty(t: string, n: nat)
    requires ClosesRun(t, n)
    ensures t != ""
  {
  }

  lemma FirstOfRun(c: char, rest: string, n: nat)
    requires ClosesRun([c] + rest, n)
    ensures if n == 0 then c == ')' else In(c, InLink)
  {
    hide In;
    assert ([c] + rest)[0] == c;
  }

  lemma NothingKnownYet(s: string, p: nat, sources: seq<Source>)
    ensures KnownInside(s, p, p, sources)
  {
  }

  // ------------------------------------------------------- labels

  /** The first closing bracket of t is at n, with an opening parenthesis after it. */
  ghost predicate ClosesLabel(t: string, n: nat) {
    n + 1 < |t| && t[n] == ']' && t[n + 1] == '(' && forall k :: 0 <= k < n ==> t[k] != ']'
  }

  lemma LabelTail(c: char, rest: string, n: nat)
    requires ClosesLabel([c] + rest, n)
    ensures n > 0 ==> ClosesLabel(rest, n - 1)
    ensures n == 0 ==> c == ']' && rest != "" && rest[0] == '('
  {
    assert forall k :: 0 <= k < |rest| ==> rest[k] == ([c] + rest)[k + 1];
  }

  lemma LabelOfReference(id: string, rest: string, n: nat)
    requires BracketFree(id) && ClosesLabel("[" + id + "]" + rest, n)
    ensures rest != "" && rest[0] == '('
  {
    var head := "[" + id + "]";
    var t := head + rest;
    assert forall k :: 0 <= k < |head| ==> t[k] == head[k];
    assert head[0] == '[' && head[|id| + 1] == ']' && forall k :: 0 < k <= |id| ==> head[k] == id[k - 1];
    assert n == |id| + 1;
  }

  /** Right after a replaced URL comes nothing, or a character that no URL holds and that is copied. */
  lemma AfterHit(s: string, p: nat, sources: seq<Source>)
    requires p < |s| && Match(RawUrls, s, p, sources).Some?
    ensures var rest := Sub(RawUrls, s, Match(RawUrls, s, p, sources).value.end, sources);
            rest == "" || rest[0] != '('
  {
    hide HasUrl, UrlEnd, Reference, ByUrl, RStripChars;
    var e := Match(RawUrls, s, p, sources).value.end;
    MatchesOpenUrls(s, p, sources);
    UrlIsRun(s, p);
    UrlHit(s, p, sources);
    if e < |s| {
      MatchesOpenUrls(s, e, sources);
      if HasUrl(s, e) { HasUrlInside(s, e); }
    }
  }

  /** A label with a link's parenthesis after it was copied from the input. */
  lemma {:induction false} LabelWasCopied(s: string, p: nat, n: nat, sources: seq<Source>)
    requires p <= |s| && WordIds(sources) && ClosesLabel(Sub(RawUrls, s, p, sources), n)
    ensures p + n + 2 <= |s| && forall k :: p <= k < p + n + 2 ==> Match(RawUrls, s, k, sources).None?
    decreases n
  {
    hide Match, In, WordIds, ClosesLabel;
    var t := Sub(RawUrls, s, p, sources);
    LabelNotEmpty(t, n);
    if Match(RawUrls, s, p, sources).Some? {
      var id := HitShape(s, p, sources);
      AfterHit(s, p, sources);
      LabelOfReference(id, Sub(RawUrls, s, Match(RawUrls, s, p, sources).value.end, sources), n);
    } else {
      var rest := Sub(RawUrls, s, p + 1, sources);
      LabelTail(s[p], rest, n);
      if n > 0 {
        LabelWasCopied(s, p + 1, n - 1, sources);
      } else {
        CopyStep(s, p + 1, sources);
      }
    }
  }

  lemma LabelNotEmpty(t: string, n: nat)
    requires ClosesLabel(t, n)
    ensures t != ""
  {
  }

  // ------------------------------------------------------- links that stay

  /** From the link at i on, no URL of its label is replaced and every one replaced in its URL names a source. */
  ghost predicate StaysLink(s: string, i: nat, sources: seq<Source>) {
    && i < |s| && LinkAt(s, i).Some?
    && forall k :: i <= k < LinkAt(s, i).value.urlEnd && Reaches(RawUrls, s, i, k, sources) ==>
         Unflagged(s, k, sources) && (k <= LinkAt(s, i).value.labelEnd ==> Match(RawUrls, s, k, sources).None?)
  }

  lemma {:induction false} UnmatchedIsReached(s: string, i: nat, e: nat, sources: seq<Source>)
    requires i <= e <= |s|
    requires forall k :: i <= k < e && Reaches(RawUrls, s, i, k, sources) ==> Match(RawUrls, s, k, sources).None?
    ensures forall k :: i <= k < e ==> Match(RawUrls, s, k, sources).None?
    decreases e - i
  {
    hide Match;
    if i < e {
      assert Reaches(RawUrls, s, i, i, sources);
      forall k | i + 1 <= k < e && Reaches(RawUrls, s, i + 1, k, sources) ensures Match(RawUrls, s, k, sources).None? {
        assert Reaches(RawUrls, s, i, k, sources);
      }
      UnmatchedIsReached(s, i + 1, e, sources);
    }
  }

  lemma NotAUrl(s: string, i: nat, sources: seq<Source>)
    requires i < |s| && s[i] != 'h'
    ensures Match(RawUrls, s, i, sources).None?
  {
    hide Match, HasUrl;
    MatchesOpenUrls(s, i, sources);
    if HasUrl(s, i) { HasUrlInside(s, i); }
  }

  /** The copied beginning of a link, up to the end of its scheme. */
  lemma LinkHeadCopied(s: string, i: nat, j: nat, w: string, v: nat, sources: seq<Source>)
    requires IsLink(s, i, j, w, v) && forall k :: i <= k <= j ==> Match(RawUrls, s, k, sources).None?
    ensures Sub(RawUrls, s, i, sources) == s[i..j + 2] + (w + Sub(RawUrls, s, j + 2 + |w|, sources))
    ensures forall k :: i <= k < j + 2 + |w| ==> Match(RawUrls, s, k, sources).None?
    ensures Reaches(RawUrls, s, i, j + 2 + |w|, sources)
  {
    hide Match, In, Matches;
    NotAUrl(s, j + 1, sources);
    CopiedRun(RawUrls, s, i, j + 2, sources);
    SubSplits(RawUrls, s, i, j + 2, sources);
    SchemeCopied(s, j + 2, w, sources);
    ReachesOn(RawUrls, s, i, j + 2, j + 2 + |w|, sources);
  }

  lemma HeadMakesLink(s: string, i: nat, j: nat, w: string, v: nat, rest: string, n: nat)
    requires IsLink(s, i, j, w, v) && ClosesRun(rest, n) && n > 0
    ensures IsLink(s[i..j + 2] + (w + rest), 0, j - i, w, j - i + 2 + |w| + n)
  {
    hide In;
    var head := s[i..j + 2];
    var t := head + (w + rest);
    assert forall k :: 0 <= k < |head| ==> t[k] == s[i + k];
    assert forall k :: 0 <= k < |w| ==> t[|head| + k] == w[k];
    assert forall k :: |head| + |w| <= k < |t| ==> t[k] == rest[k - |head| - |w|];
  }

  lemma StayingLink(s: string, i: nat, sources: seq<Source>) returns (w: string, n: nat)
    requires WordIds(sources) && StaysLink(s, i, sources)
    ensures var t := Sub(RawUrls, s, i, sources);
            t != "" && LinkAt(t, 0).Some? && IsLink(t, 0, LinkAt(s, i).value.labelEnd - i, w, n)
  {
    hide Match, In, WordIds, LinkAt, Unflagged, Matches, KnownInside;
    var j, v := LinkAt(s, i).value.labelEnd, LinkAt(s, i).value.urlEnd;
    w := FoundIsLink(s, i);
    UnmatchedIsReached(s, i, j + 1, sources);
    LinkHeadCopied(s, i, j, w, v, sources);
    var u := j + 2 + |w|;
    StayingRun(s, i, u, v, sources);
    n := RunKept(s, u, v, sources);
    HeadMakesLink(s, i, j, w, v, Sub(RawUrls, s, u, sources), n);
    n := j - i + 2 + |w| + n;
    LinkIsFound(Sub(RawUrls, s, i, sources), 0, j - i, w, n);
  }

  lemma StayingRun(s: string, i: nat, u: nat, v: nat, sources: seq<Source>)
    requires i <= u <= |s| && Reaches(RawUrls, s, i, u, sources)
    requires forall k :: i <= k < v && k < |s| && Reaches(RawUrls, s, i, k, sources) ==> Unflagged(s, k, sources)
    ensures KnownInside(s, u, v, sources)
  {
    hide Match, Unflagged;
    forall k | u <= k < v && k < |s| && Reaches(RawUrls, s, u, k, sources) ensures Unflagged(s, k, sources) {
      ReachesOn(RawUrls, s, i, u, k, sources);
    }
  }

  /** A link at the start of the output was one that stays. */
  lemma LeftLinkStayed(s: string, i: nat, sources: seq<Source>)
    requires i <= |s| && WordIds(sources)
    ensures var t := Sub(RawUrls, s, i, sources);
            t != "" && LinkAt(t, 0).Some? ==> StaysLink(s, i, sources)
  {
    hide Match, In, WordIds, LinkAt, Unflagged, KnownInside, Matches, StaysLink, Sub, Reaches;
    if Sub(RawUrls, s, i, sources) != "" && LinkAt(Sub(RawUrls, s, i, sources), 0).Some? {
      var t := Sub(RawUrls, s, i, sources);
      var w := FoundIsLink(t, 0);
      var j, v := LinkAt(t, 0).value.labelEnd, LinkAt(t, 0).value.urlEnd;
      LabelWasCopied(s, i, j, sources);
      var b := i + j + 2;
      CopiedRun(RawUrls, s, i, b, sources);
      SubSplits(RawUrls, s, i, b, sources);
      var rest := Sub(RawUrls, s, b, sources);
      CopiedHead(s, i, b, t, rest, j, w, v);
      SchemeWas(s, b, w, sources);
      SchemeCopied(s, b, w, sources);
      var u := b + |w|;
      RunAfterScheme(t, s[i..b], w, Sub(RawUrls, s, u, sources), j, v);
      var v' := RunWas(s, u, v - j - 2 - |w|, sources);
      LinkIsFound(s, i, i + j, w, v');
      ReachesOn(RawUrls, s, i, b, u, sources);
      StayedInside(s, i, i + j, u, v', sources);
    }
  }

  lemma CopiedHead(s: string, i: nat, b: nat, t: string, rest: string, j: nat, w: string, v: nat)
    requires i + j + 2 == b <= |s| && t == s[i..b] + rest && IsLink(t, 0, j, w, v)
    ensures Matches(rest, 0, w) && |w| < |rest| && AfterParen(s, b)
    ensures s[i] == '[' && s[i + j] == ']' && s[i + j + 1] == '(' && forall k :: i < k < i + j ==> s[k] != ']'
  {
    hide In;
    assert forall k :: 0 <= k < j + 2 ==> t[k] == s[i + k];
    assert forall k :: i <= k < b ==> s[k] == t[k - i];
    assert forall k :: 0 <= k < |rest| ==> rest[k] == t[j + 2 + k];
  }

  lemma SchemeWas(s: string, b: nat, w: string, sources: seq<Source>)
    requires b <= |s| && IsHttp(w) && Matches(Sub(RawUrls, s, b, sources), 0, w) && |w| < |Sub(RawUrls, s, b, sources)|
    ensures Matches(s, b, w) && b + |w| <= |s|
  {
    hide CopySteps;
    SchemesAreSchemes();
    OutputsCopy(s, sources);
    SchemeWasCopied(s, b, Outputs(RawUrls, s, sources), w);
  }

  lemma RunAfterScheme(t: string, head: string, w: string, rest: string, j: nat, v: nat)
    requires t == head + (w + rest) && |head| == j + 2 && IsLink(t, 0, j, w, v)
    ensures ClosesRun(rest, v - j - 2 - |w|)
  {
    hide In, Matches;
    assert forall k :: 0 <= k < |rest| ==> rest[k] == t[j + 2 + |w| + k];
  }

  lemma StayedInside(s: string, i: nat, j: nat, u: nat, v: nat, sources: seq<Source>)
    requires i <= j < u <= v < |s| && LinkAt(s, i) == Some(Link(j, v))
    requires forall k :: i <= k < u ==> Match(RawUrls, s, k, sources).None?
    requires Reaches(RawUrls, s, i, u, sources) && KnownInside(s, u, v, sources)
    ensures StaysLink(s, i, sources)
  {
    hide Match, LinkAt;
    forall k | i <= k < v && Reaches(RawUrls, s, i, k, sources)
      ensures Unflagged(s, k, sources) && (k <= j ==> Match(RawUrls, s, k, sources).None?)
    {
      if k >= u { ReachesOn(RawUrls, s, i, u, k, sources); }
    }
  }

  // ------------------------------------------------------- the exact condition

  lemma NoLinkInReference(id: string, rest: string, q: nat)
    requires BracketFree(id) && 0 < q < |id| + 2
    ensures LinkAt("[" + id + "]" + rest, q).None?
  {
    var t := "[" + id + "]" + rest;
    assert t[q] == if q <= |id| then id[q - 1] else ']';
  }

  /** A link in the output from a on is a link of the input that the pass looks at and that stays. */
  lemma {:induction false} LeftLinkWas(s: string, a: nat, q: nat, sources: seq<Source>) returns (i: nat)
    requires a <= |s| && WordIds(sources)
    requires q < |Sub(RawUrls, s, a, sources)| && LinkAt(Sub(RawUrls, s, a, sources), q).Some?
    ensures a <= i <= |s| && Reaches(RawUrls, s, a, i, sources) && StaysLink(s, i, sources)
    decreases |s| - a
  {
    hide Match, WordIds, LinkAt, StaysLink;
    if q == 0 {
      LeftLinkStayed(s, a, sources);
      i := a;
    } else {
      var n := NextLook(RawUrls, s, a, sources);
      var rest := Sub(RawUrls, s, n, sources);
      var head := [s[a]];
      if Match(RawUrls, s, a, sources).Some? {
        var id := HitShape(s, a, sources);
        head := "[" + id + "]";
        if q < |head| { NoLinkInReference(id, rest, q); }
      }
      LinkMoves(head, rest, q - |head|);
      i := LeftLinkWas(s, n, q - |head|, sources);
    }
  }

  /**
    A link of the text entering the URL pass that the result still holds: no
    earlier URL swallows it, its label holds no URL but after a parenthesis, and
    every such URL inside its own URL names a source.
   */
  ghost predicate LinkSurvives(s: string, i: nat, sources: seq<Source>) {
    && i < |s| && LinkAt(s, i).Some? && NotSwallowed(s, i)
    && forall k :: i <= k < LinkAt(s, i).value.urlEnd && OpenUrl(s, k) && NotSwallowed(s, k) ==>
         k > LinkAt(s, i).value.labelEnd && Names(s, k, sources)
  }

  /** The URL at k, less trailing punctuation and slashes, is that of some source. */
  predicate Names(s: string, k: nat, sources: seq<Source>)
    requires HasUrl(s, k)
  {
    k < UrlEnd(s, k) <= |s| && ByUrl(sources, RStripChars(RStripChars(s[k..UrlEnd(s, k)], ".,;:"), "/")).Some?
  }

  lemma UnflaggedNames(s: string, k: nat, sources: seq<Source>)
    requires k < |s|
    ensures Match(RawUrls, s, k, sources).Some? <==> OpenUrl(s, k)
    ensures OpenUrl(s, k) ==> (Unflagged(s, k, sources) <==> Names(s, k, sources))
    ensures !OpenUrl(s, k) ==> Unflagged(s, k, sources)
  {
    hide HasUrl, UrlEnd, ByUrl, RStripChars, Reference;
    MatchesOpenUrls(s, k, sources);
  }

  lemma SurvivesIffStays(s: string, i: nat, sources: seq<Source>)
    requires i <= |s|
    ensures LinkSurvives(s, i, sources) <==> Reaches(RawUrls, s, 0, i, sources) && StaysLink(s, i, sources)
  {
    hide Match, LinkAt, HasUrl, NotSwallowed, Unflagged, Names, AfterParen;
    ReachedIffNotSwallowed(s, i, sources);
    if Reaches(RawUrls, s, 0, i, sources) && i < |s| {
      forall k | i <= k < |s|
        ensures Reaches(RawUrls, s, i, k, sources) <==> NotSwallowed(s, k)
        ensures Match(RawUrls, s, k, sources).Some? <==> OpenUrl(s, k)
        ensures OpenUrl(s, k) ==> (Unflagged(s, k, sources) <==> Names(s, k, sources))
        ensures !OpenUrl(s, k) ==> Unflagged(s, k, sources)
      {
        ReachesOn(RawUrls, s, 0, i, k, sources);
        ReachedIffNotSwallowed(s, k, sources);
        UnflaggedNames(s, k, sources);
      }
    }
  }

  ghost predicate SomeLinkSurvives(s: string, sources: seq<Source>) {
    exists i: nat :: LinkSurvives(s, i, sources)
  }

  /** The output of the URL pass holds no link exactly when no link of its input survives. */
  lemma NoLinkLeftIffNoneSurvives(s: string, sources: seq<Source>)
    requires WordIds(sources)
    ensures NoLinks(Sub(RawUrls, s, 0, sources)) <==> !SomeLinkSurvives(s, sources)
  {
    hide Match, LinkAt, LinkSurvives, StaysLink, WordIds;
    var r := Sub(RawUrls, s, 0, sources);
    if q :| 0 <= q < |r| && LinkAt(r, q).Some? {
      var i := LeftLinkWas(s, 0, q, sources);
      SurvivesIffStays(s, i, sources);
    }
    if i: nat :| LinkSurvives(s, i, sources) {
      SurvivorInside(s, i, sources);
      SurvivesIffStays(s, i, sources);
      var w, n := StayingLink(s, i, sources);
      SubSplits(RawUrls, s, 0, i, sources);
      LinkMoves(Written(RawUrls, s, 0, i, sources), Sub(RawUrls, s, i, sources), 0);
    }
  }

  lemma SurvivorInside(s: string, i: nat, sources: seq<Source>)
    requires LinkSurvives(s, i, sources)
    ensures i < |s|
  {
  }

  /**
    Validating a result again changes nothing and flags nothing exactly when no
    link survives in the text that entered the last pass.
   */
  lemma RevalidationIsQuietIff(markdown: string, sources: seq<Source>)
    requires WordIds(sources)
    ensures var r := Validated(markdown, sources).0;
            Validated(r, sources) == (r, []) <==> !SomeLinkSurvives(Entering(markdown, sources), sources)
  {
    hide NoLinks, WordIds, SomeLinkSurvives, Sub, Flags, PlainIds, ColonFreeIds;
    WordsArePlain(sources);
    RevalidationIsQuietIffNoLinks(markdown, sources);
    NoLinkLeftIffNoneSurvives(Entering(markdown, sources), sources);
  }
}
