/**
  Chunking of technical documents: split at numbered clauses, or at blank lines
  when there are none, then bound long segments at sentence ends.
 */
module Chunking {
  import opened Wrappers
  import opened Chars

  type Meta = map<string, string>

  datatype Chunk = Chunk(text: string, metadata: Meta)

  // ------------------------------------------------------- clause heads

  /** A clause head: where the space after it ends, and the clause number. */
  datatype Head = Head(end: nat, clause: string)

  /** Digits, and further groups of digits each after a dot. */
  function NumberEnd(s: string, i: nat): (j: nat)
    requires i <= |s|
    ensures i <= j <= |s|
    decreases |s| - i
  {
    var d := RunEnd(s, i, Digit);
    if d > i && d < |s| && s[d] == '.' then
      var more := NumberEnd(s, d + 1);
      if more > d + 1 then more else d
    else d
  }

  /** Space, then up to six hashes with space after them: where the number must start. */
  function IndentEnd(s: string, i: nat): (r: Option<nat>)
    requires i <= |s|
    ensures r.Some? ==> i <= r.value <= |s|
  {
    var a := RunEnd(s, i, Space);
    var h := RunEnd(s, a, Hash);
    if h - a > 6 then None else if h == a then Some(a) else Some(RunEnd(s, h, Space))
  }

  /** A number at position b with space after it. */
  function NumberHead(s: string, b: nat): (r: Option<Head>)
    requires b <= |s|
    ensures r.Some? ==> b < r.value.end <= |s| && r.value.clause != ""
  {
    var n := NumberEnd(s, b);
    var e := RunEnd(s, n, Space);
    if n == b || e == n then None else Some(Head(e, s[b..n]))
  }

  /** A clause head at position i: indentation, a number, and space after it. */
  function ClauseHead(s: string, i: nat): (r: Option<Head>)
    requires i <= |s|
    ensures r.Some? ==> i < r.value.end <= |s| && r.value.clause != ""
  {
    match IndentEnd(s, i)
    case None => None
    case Some(b) => NumberHead(s, b)
  }

  /** A clause number from b up to n: digits, and dots that each stand between two digits. */
  predicate IsNumber(s: string, b: nat, n: nat) {
    b < n <= |s| && forall k :: b <= k < n ==> InNumber(s, b, n, k)
  }

  predicate InNumber(s: string, b: nat, n: nat, k: nat)
    requires b <= k < n <= |s|
  {
    IsDigit(s[k]) || (s[k] == '.' && b < k && k + 1 < n && IsDigit(s[k - 1]) && IsDigit(s[k + 1]))
  }

  predicate AllSpace(s: string, i: nat, j: nat) {
    i <= j <= |s| && forall k :: i <= k < j ==> IsSpace(s[k])
  }

  /**
    The pattern of a clause head from i to e: whitespace up to a; up to six
    hashes up to h and, behind hashes only, whitespace up to b; a number up to
    n; and whitespace up to e, at least one character and as much as there is.
   */
  predicate IsHead(s: string, i: nat, a: nat, h: nat, b: nat, n: nat, e: nat) {
    && AllSpace(s, i, a)
    && a <= h <= a + 6 && h <= |s| && (forall k :: a <= k < h ==> s[k] == '#')
    && AllSpace(s, h, b) && (h == a ==> b == h)
    && IsNumber(s, b, n)
    && n < e && AllSpace(s, n, e) && (e < |s| ==> !IsSpace(s[e]))
  }

  lemma SpaceRun(s: string, i: nat)
    requires i <= |s|
    ensures AllSpace(s, i, RunEnd(s, i, Space))
    ensures RunEnd(s, i, Space) < |s| ==> !IsSpace(s[RunEnd(s, i, Space)])
  {
    hide IsSpace;
    RunIsMaximal(s, i, Space);
  }

  lemma SpaceRunIs(s: string, i: nat, j: nat)
    requires AllSpace(s, i, j) && (j < |s| ==> !IsSpace(s[j]))
    ensures RunEnd(s, i, Space) == j
  {
    hide IsSpace;
    RunIsMaximal(s, i, Space);
    if j < |s| { RunStops(s, i, j, Space); }
    if RunEnd(s, i, Space) < j { assert !In(s[RunEnd(s, i, Space)], Space); }
  }

  lemma SpaceIsNeither(c: char)
    requires IsSpace(c)
    ensures !IsDigit(c) && c != '.' && c != '#'
  {
    hide InBlocks;
    if InBlocks(c as int, BLOCKS) { BlocksHoldNoSpace(c as int, BLOCKS); }
  }

  lemma HashIsNeither()
    ensures !IsDigit('#') && !IsSpace('#') && !IsDigit('.')
  {
  }

  lemma DigitIsNoSpace(c: char)
    requires IsDigit(c)
    ensures !IsSpace(c) && c != '#' && c != '.'
  {
    hide InBlocks;
    if c as int >= 0x660 { BlocksHoldNoSpace(c as int, BLOCKS); }
  }

  lemma {:induction false} BlocksHoldNoSpace(n: int, k: nat)
    requires k <= BLOCKS && InBlocks(n, k)
    ensures !IsWideSpace(n)
  {
    if !(BlockZero(k - 1) <= n < BlockZero(k - 1) + 10) { BlocksHoldNoSpace(n, k - 1); }
  }

  predicate IsWideSpace(n: int) {
    n == 0x1680 || 0x2000 <= n <= 0x200A || n == 0x2028 || n == 0x2029 || n == 0x202F || n == 0x205F || n == 0x3000
  }

  /** The scanner for numbers stops where the pattern does. */
  lemma {:induction false} NumberEndShape(s: string, b: nat)
    requires b <= |s|
    ensures NumberEnd(s, b) > b ==> IsNumber(s, b, NumberEnd(s, b))
    decreases |s| - b
  {
    hide IsDigit;
    DigitRun(s, b);
    var d, n := RunEnd(s, b, Digit), NumberEnd(s, b);
    if d > b {
      if d < |s| && s[d] == '.' && NumberEnd(s, d + 1) > d + 1 {
        NumberEndShape(s, d + 1);
        assert InNumber(s, d + 1, n, d + 1);
        forall k | b <= k < n ensures InNumber(s, b, n, k) {
          if k > d { assert InNumber(s, d + 1, n, k); }
        }
      } else {
        assert n == d;
      }
    }
  }

  lemma DigitRun(s: string, b: nat)
    requires b <= |s|
    ensures forall k :: b <= k < RunEnd(s, b, Digit) ==> IsDigit(s[k])
    ensures RunEnd(s, b, Digit) < |s| ==> !IsDigit(s[RunEnd(s, b, Digit)])
  {
    hide IsDigit;
    RunIsMaximal(s, b, Digit);
    assert forall k :: b <= k < RunEnd(s, b, Digit) ==> In(s[k], Digit);
  }

  lemma {:induction false} NumberEndIs(s: string, b: nat, n: nat)
    requires IsNumber(s, b, n) && (n < |s| ==> !IsDigit(s[n]) && s[n] != '.')
    ensures NumberEnd(s, b) == n
    decreases n - b
  {
    hide IsDigit;
    DigitRun(s, b);
    var d := RunEnd(s, b, Digit);
    assert InNumber(s, b, n, b);
    if d < n {
      assert InNumber(s, b, n, d);
      var next := d + 1;
      forall k | next <= k < n ensures InNumber(s, next, n, k) {
        assert InNumber(s, b, n, k);
      }
      NumberEndIs(s, d + 1, n);
    }
  }

  lemma NumberStartsWithDigit(s: string, b: nat, n: nat)
    requires IsNumber(s, b, n)
    ensures IsDigit(s[b])
  {
    hide IsDigit;
    assert InNumber(s, b, n, b);
  }

  lemma HashRunIs(s: string, a: nat, h: nat)
    requires a <= h <= |s| && (forall k :: a <= k < h ==> s[k] == '#') && (h < |s| ==> s[h] != '#')
    ensures RunEnd(s, a, Hash) == h
  {
    hide IsSpace, IsDigit;
    RunIsMaximal(s, a, Hash);
    if h < |s| { RunStops(s, a, h, Hash); }
    if RunEnd(s, a, Hash) < h { assert !In(s[RunEnd(s, a, Hash)], Hash); }
  }

  /** Whatever the scanner finds has the pattern. */
  lemma FoundIsHead(s: string, i: nat) returns (a: nat, h: nat, b: nat, n: nat)
    requires i <= |s| && ClauseHead(s, i).Some?
    ensures IsHead(s, i, a, h, b, n, ClauseHead(s, i).value.end)
    ensures b <= n <= |s| && ClauseHead(s, i).value.clause == s[b..n]
  {
    hide IsSpace, IsDigit, NumberEnd;
    a := RunEnd(s, i, Space);
    h := RunEnd(s, a, Hash);
    b := IndentEnd(s, i).value;
    n := NumberEnd(s, b);
    SpaceRun(s, i);
    RunIsMaximal(s, a, Hash);
    SpaceRun(s, h);
    NumberEndShape(s, b);
    SpaceRun(s, n);
    assert forall k :: a <= k < h ==> In(s[k], Hash);
  }

  /** Whatever has the pattern is found. */
  lemma HeadIsFound(s: string, i: nat, a: nat, h: nat, b: nat, n: nat, e: nat)
    requires IsHead(s, i, a, h, b, n, e)
    ensures ClauseHead(s, i) == Some(Head(e, s[b..n]))
  {
    hide IsSpace, IsDigit, NumberEnd;
    NumberStartsWithDigit(s, b, n);
    DigitIsNoSpace(s[b]);
    HashIsNeither();
    assert IsSpace(s[n]);
    SpaceIsNeither(s[n]);
    if h > a { assert s[a] == '#'; }
    SpaceRunIs(s, i, a);
    if h < b { SpaceIsNeither(s[h]); }
    HashRunIs(s, a, h);
    SpaceRunIs(s, h, b);
    NumberEndIs(s, b, n);
    SpaceRunIs(s, n, e);
  }

  /** The pattern, with the number it captures. */
  predicate IsHeadOf(s: string, i: nat, a: nat, h: nat, b: nat, n: nat, e: nat, c: string) {
    b <= n <= |s| && c == s[b..n] && IsHead(s, i, a, h, b, n, e)
  }

  /** A clause head starts at i exactly where the pattern of one does, and it is that one. */
  lemma ClauseHeadIffPattern(s: string, i: nat, e: nat, c: string)
    requires i <= |s|
    ensures ClauseHead(s, i) == Some(Head(e, c)) <==>
            exists a: nat, h: nat, b: nat, n: nat :: IsHeadOf(s, i, a, h, b, n, e, c)
  {
    hide ClauseHead, IsHead;
    if ClauseHead(s, i) == Some(Head(e, c)) {
      var a, h, b, n := FoundIsHead(s, i);
      assert IsHeadOf(s, i, a, h, b, n, e, c);
    }
    if a: nat, h: nat, b: nat, n: nat :| IsHeadOf(s, i, a, h, b, n, e, c) {
      HeadIsFound(s, i, a, h, b, n, e);
    }
  }

  /** A line starts here. */
  predicate AtLineStart(text: string, i: nat)
    requires i <= |text|
  {
    i == 0 || text[i - 1] == '\n'
  }

  /** Where the clause head at a position ends; the position itself when there is none. */
  function HeadEnd(text: string, i: nat): (n: nat)
    requires i < |text|
    ensures i <= n <= |text|
  {
    if AtLineStart(text, i) && ClauseHead(text, i).Some? then ClauseHead(text, i).value.end else i
  }

  ghost predicate Increasing(r: seq<nat>, from: nat, bound: nat) {
    && (forall k :: 0 <= k < |r| ==> from <= r[k] < bound)
    && (forall k :: 0 < k < |r| ==> r[k - 1] < r[k])
  }

  /** Starts of the non-overlapping clause heads from position i on, left to right. */
  function ClauseStarts(text: string, i: nat): (r: seq<nat>)
    requires i <= |text|
    ensures Increasing(r, i, |text|)
    decreases |text| - i
  {
    if i == |text| then []
    else
      var n := HeadEnd(text, i);
      if n == i then ClauseStarts(text, i + 1)
      else
        var rest := ClauseStarts(text, n);
        IncreasingCons(i, rest, n, |text|);
        [i] + rest
  }

  lemma IncreasingCons(i: nat, rest: seq<nat>, from: nat, bound: nat)
    requires Increasing(rest, from, bound) && i < from && i < bound
    ensures Increasing([i] + rest, i, bound)
  {
  }

  lemma {:induction false} StartHasHead(text: string, i: nat, p: nat)
    requires i <= |text| && p in ClauseStarts(text, i)
    ensures p < |text| && HeadEnd(text, p) > p
    decreases |text| - i
  {
    hide HeadEnd, Increasing;
    if i < |text| {
      var n := HeadEnd(text, i);
      if n == i { StartHasHead(text, i + 1, p); } else if p != i { StartHasHead(text, n, p); }
    }
  }

  /** Every start begins a line, with a clause head. */
  lemma StartsBeginHeads(text: string, p: nat)
    requires p in ClauseStarts(text, 0)
    ensures p < |text| && (p == 0 || text[p - 1] == '\n') && ClauseHead(text, p).Some?
  {
    hide ClauseHead, Increasing;
    StartHasHead(text, 0, p);
  }

  /** No clause head at the beginning of a line is missed, unless it begins inside one already taken. */
  lemma StartsAreComplete(text: string, p: nat)
    requires p < |text| && (p == 0 || text[p - 1] == '\n') && ClauseHead(text, p).Some?
    ensures p in ClauseStarts(text, 0) ||
            exists q :: q in ClauseStarts(text, 0) && q < p && ClauseHead(text, q).Some? && p < ClauseHead(text, q).value.end
  {
    hide ClauseHead, Increasing, ClauseStarts;
    HeadIsTaken(text, 0, p);
    if q :| q in ClauseStarts(text, 0) && q < p < HeadEnd(text, q) { StartHasHead(text, 0, q); }
  }

  lemma {:induction false} HeadIsTaken(text: string, i: nat, p: nat)
    requires i <= p < |text| && HeadEnd(text, p) > p
    ensures p in ClauseStarts(text, i) || exists q :: q in ClauseStarts(text, i) && q < p < HeadEnd(text, q)
    decreases |text| - i
  {
    hide HeadEnd, Increasing;
    var n := HeadEnd(text, i);
    if n == i {
      HeadIsTaken(text, i + 1, p);
    } else {
      assert i in ClauseStarts(text, i);
      if n <= p {
        HeadIsTaken(text, n, p);
        assert forall q :: q in ClauseStarts(text, n) ==> q in ClauseStarts(text, i);
      }
    }
  }

  // ------------------------------------------------------- paragraphs

  /** Two line breaks in a row begin at m. */
  predicate BlankLineAt(text: string, m: int) {
    0 <= m && m + 2 <= |text| && text[m] == '\n' && text[m + 1] == '\n'
  }

  /** str.find of a blank line; -1 when absent. */
  function FindBlankLine(text: string, i: nat): (r: int)
    requires i <= |text|
    ensures r == -1 || (i <= r && BlankLineAt(text, r))
    ensures forall m :: i <= m < (if r == -1 then |text| else r) ==> !BlankLineAt(text, m)
    decreases |text| - i
  {
    if i + 2 > |text| then -1
    else if BlankLineAt(text, i) then i
    else FindBlankLine(text, i + 1)
  }

  /** text.split("\n\n") */
  function SplitParagraphs(text: string): seq<string>
    decreases |text|
  {
    var i := FindBlankLine(text, 0);
    if i == -1 then [text] else [text[..i]] + SplitParagraphs(text[i + 2..])
  }

  function NonBlank(parts: seq<string>): seq<string> {
    if parts == [] then []
    else
      var n := |parts| - 1;
      if Strip(parts[n]) != "" then NonBlank(parts[..n]) + [parts[n]] else NonBlank(parts[..n])
  }

  /** The parts with a blank line between each and the next. */
  function BlankJoined(parts: seq<string>): string {
    if parts == [] then "" else if |parts| == 1 then parts[0] else parts[0] + "\n\n" + BlankJoined(parts[1..])
  }

  /** A paragraph holds no blank line and, if another follows, does not end in a line break. */
  ghost predicate IsParagraph(x: string, last: bool) {
    && (forall m :: !BlankLineAt(x, m))
    && (last || x == "" || x[|x| - 1] != '\n')
  }

  /** The paragraphs put back together are the text: it is split at its blank lines, from the left, and nowhere else. */
  lemma {:induction false} ParagraphsAreSplit(text: string)
    ensures BlankJoined(SplitParagraphs(text)) == text
    ensures forall k :: 0 <= k < |SplitParagraphs(text)| ==>
              IsParagraph(SplitParagraphs(text)[k], k == |SplitParagraphs(text)| - 1)
    decreases |text|
  {
    hide IsParagraph;
    var i := FindBlankLine(text, 0);
    if i == -1 {
      WholeParagraph(text);
    } else {
      var head, rest := text[..i], text[i + 2..];
      ParagraphsAreSplit(rest);
      FirstParagraph(text, i);
      SomeParagraph(rest);
      BlankJoinedCons(head, SplitParagraphs(rest));
      forall k | 0 < k < |SplitParagraphs(text)|
        ensures IsParagraph(SplitParagraphs(text)[k], k == |SplitParagraphs(text)| - 1)
      {
        assert SplitParagraphs(text)[k] == SplitParagraphs(rest)[k - 1];
      }
    }
  }

  lemma WholeParagraph(text: string)
    requires forall m :: 0 <= m < |text| ==> !BlankLineAt(text, m)
    ensures IsParagraph(text, true)
  {
  }

  lemma FirstParagraph(text: string, i: nat)
    requires BlankLineAt(text, i) && forall m :: 0 <= m < i ==> !BlankLineAt(text, m)
    ensures IsParagraph(text[..i], false) && text == text[..i] + "\n\n" + text[i + 2..]
  {
    var head := text[..i];
    forall m ensures !BlankLineAt(head, m) {
      if BlankLineAt(head, m) { assert BlankLineAt(text, m); }
    }
    assert i > 0 ==> !BlankLineAt(text, i - 1);
    assert text[i..i + 2] == "\n\n";
    CutInThree(text, i, i + 2);
    Associative(head, "\n\n", text[i + 2..]);
  }

  lemma BlankJoinedCons(head: string, rest: seq<string>)
    requires rest != []
    ensures BlankJoined([head] + rest) == head + "\n\n" + BlankJoined(rest)
  {
    assert ([head] + rest)[1..] == rest;
  }

  lemma SomeParagraph(text: string)
    ensures SplitParagraphs(text) != []
  {
  }

  lemma {:induction false} ParagraphsKeepText(text: string)
    ensures Content(SplitParagraphs(text)) == NonSpace(text)
    decreases |text|
  {
    hide Content, NonSpace, Strip;
    var i := FindBlankLine(text, 0);
    if i == -1 {
      ContentOne(text);
    } else {
      ParagraphsKeepText(text[i + 2..]);
      ContentCons(text[..i], SplitParagraphs(text[i + 2..]));
      SpacesDropOut(text[..i], text[i..i + 2], text[i + 2..]);
      CutInThree(text, i, i + 2);
    }
  }

  lemma {:induction false} BlanksAreNothing(parts: seq<string>)
    ensures Content(NonBlank(parts)) == Content(parts)
  {
    if parts != [] {
      var n := |parts| - 1;
      BlanksAreNothing(parts[..n]);
      StripKeeps(parts[n]);
      ContentSnoc(NonBlank(parts[..n]), parts[n]);
      assert Content(parts[..n]) + "" == Content(parts[..n]);
    }
  }

  // ------------------------------------------------------- sentences

  /** Whitespace begins at m, right after a full stop or semicolon. */
  predicate SplitsAt(s: string, m: nat) {
    0 < m < |s| && (s[m - 1] == '.' || s[m - 1] == ';') && IsSpace(s[m])
  }

  /** The first split position from i on; |s| when there is none. */
  function SentenceEnd(s: string, i: nat): (r: nat)
    requires 1 <= i <= |s|
    ensures i <= r <= |s|
    ensures r < |s| ==> SplitsAt(s, r)
    ensures forall m :: i <= m < r ==> !SplitsAt(s, m)
    decreases |s| - i
  {
    if i == |s| then i
    else if (s[i - 1] == '.' || s[i - 1] == ';') && IsSpace(s[i]) then i
    else SentenceEnd(s, i + 1)
  }

  /** The sentences of a segment: the split of _bound. */
  function Sentences(s: string): (r: seq<string>)
    ensures |r| > 0
    decreases |s|
  {
    if s == "" then [s]
    else
      var e := SentenceEnd(s, 1);
      if e == |s| then [s] else [s[..e]] + Sentences(s[RunEnd(s, e, Space)..])
  }

  lemma {:induction false} SentencesKeepText(s: string)
    ensures Content(Sentences(s)) == NonSpace(s)
    decreases |s|
  {
    hide RunEnd, SentenceEnd, Content, NonSpace, IsDigit, IsSpace;
    if s == "" || SentenceEnd(s, 1) == |s| {
      ContentOne(s);
    } else {
      var e := SentenceEnd(s, 1);
      var f := RunEnd(s, e, Space);
      RunIsMaximal(s, e, Space);
      SentencesKeepText(s[f..]);
      ContentCons(s[..e], Sentences(s[f..]));
      SpacesDropOut(s[..e], s[e..f], s[f..]);
      CutInThree(s, e, f);
    }
  }

  /** Sentence k of n: no split position inside, no leading whitespace but in the first, and an end mark but in the last. */
  ghost predicate WholeSentence(x: string, first: bool, last: bool) {
    && (forall m :: 0 < m < |x| && IsSpace(x[m]) ==> x[m - 1] != '.' && x[m - 1] != ';')
    && (first || x == "" || !IsSpace(x[0]))
    && (last || (x != "" && (x[|x| - 1] == '.' || x[|x| - 1] == ';')))
  }

  /** Segments are split at every split position and nowhere else, with the whitespace there taken out. */
  lemma {:induction false} SentencesAreWhole(s: string)
    ensures forall k :: 0 <= k < |Sentences(s)| ==> WholeSentence(Sentences(s)[k], k == 0, k == |Sentences(s)| - 1)
    ensures s != "" ==> Sentences(s)[0] != "" && Sentences(s)[0][0] == s[0]
    decreases |s|
  {
    hide IsSpace, RunEnd;
    if s != "" { Unsplit(s, SentenceEnd(s, 1)); }
    if s != "" && SentenceEnd(s, 1) < |s| {
      var e := SentenceEnd(s, 1);
      var f := RunEnd(s, e, Space);
      RunIsMaximal(s, e, Space);
      SentencesAreWhole(s[f..]);
      WholeSentences(s[..e], Sentences(s[f..]));
    }
  }

  lemma Unsplit(s: string, e: nat)
    requires e <= |s| && forall m :: 0 < m < e ==> !SplitsAt(s, m)
    ensures forall m :: 0 < m < e && IsSpace(s[..e][m]) ==> s[..e][m - 1] != '.' && s[..e][m - 1] != ';'
    ensures e == |s| ==> s[..e] == s
  {
    hide IsSpace;
    forall m | 0 < m < e && IsSpace(s[..e][m]) ensures s[..e][m - 1] != '.' && s[..e][m - 1] != ';' {
      assert !SplitsAt(s, m);
    }
  }

  lemma WholeSentences(x: string, rest: seq<string>)
    requires rest != [] && (rest[0] == "" || !IsSpace(rest[0][0])) && WholeSentence(x, true, false)
    requires forall k :: 0 <= k < |rest| ==> WholeSentence(rest[k], k == 0, k == |rest| - 1)
    ensures forall k :: 0 <= k <= |rest| ==> WholeSentence(([x] + rest)[k], k == 0, k == |rest|)
  {
    hide IsSpace, SplitsAt;
    var all := [x] + rest;
    forall k | 0 < k <= |rest| ensures WholeSentence(all[k], false, k == |rest|) {
      assert WholeSentence(rest[k - 1], k == 1, k - 1 == |rest| - 1);
    }
  }

  lemma CutInThree(s: string, e: nat, f: nat)
    requires e <= f <= |s|
    ensures s == s[..e] + (s[e..f] + s[f..])
  {
  }

  /** Once stripped, a piece fits the limit or is one sentence of its segment. */
  ghost predicate Fits(piece: string, seg: string, maxChars: int) {
    |Strip(piece)| <= maxChars || exists s :: s in Sentences(seg) && Strip(piece) == Strip(s)
  }

  ghost predicate AllFit(pieces: seq<string>, seg: string, maxChars: int) {
    forall k :: 0 <= k < |pieces| ==> Fits(pieces[k], seg, maxChars)
  }

  lemma AllFitSnoc(pieces: seq<string>, x: string, seg: string, maxChars: int)
    requires AllFit(pieces, seg, maxChars) && Fits(x, seg, maxChars)
    ensures AllFit(pieces + [x], seg, maxChars)
  {
  }

  /** The last piece had no room for the first sentence of what follows it. */
  ghost predicate NoRoom(pieces: seq<string>, next: string, maxChars: int) {
    pieces != [] ==> |pieces[|pieces| - 1]| + |next| > maxChars + 1
  }

  /** No two neighbouring pieces could have been one. */
  ghost predicate Packed(pieces: seq<string>, maxChars: int) {
    forall k :: 0 < k < |pieces| ==> |pieces[k - 1]| + |pieces[k]| > maxChars + 1
  }

  lemma PackedSnoc(pieces: seq<string>, x: string, maxChars: int)
    requires Packed(pieces, maxChars) && NoRoom(pieces, x, maxChars)
    ensures Packed(pieces + [x], maxChars)
  {
  }

  lemma BlankPiece(pieces: seq<string>, x: string)
    requires NonSpace(x) == ""
    ensures Content(pieces + [x]) == Content(pieces)
  {
    ContentSnoc(pieces, x);
    assert Content(pieces) + "" == Content(pieces);
  }

  lemma TakeSnoc(parts: seq<string>, i: nat)
    requires i < |parts|
    ensures Content(parts[..i + 1]) == Content(parts[..i]) + NonSpace(parts[i])
  {
    ContentSnoc(parts[..i], parts[i]);
    assert parts[..i + 1] == parts[..i] + [parts[i]];
  }

  /** Sentences put together again, each with a space behind it. */
  function Spaced(sentences: seq<string>): string {
    if sentences == [] then "" else Spaced(sentences[..|sentences| - 1]) + (sentences[|sentences| - 1] + " ")
  }

  /** Each sentence from a to b but the first still fitted behind those before it. */
  ghost predicate Filled(sentences: seq<string>, a: nat, b: nat, maxChars: int)
    requires b <= |sentences|
  {
    a < b && forall j :: a < j < b ==> FitsBehind(sentences, a, j, maxChars)
  }

  predicate FitsBehind(sentences: seq<string>, a: nat, j: nat, maxChars: int)
    requires a <= j < |sentences|
  {
    |Spaced(sentences[a..j])| + |sentences[j]| <= maxChars
  }

  /** Piece k is the sentences from a to b, filled up so that the next one did not fit any more. */
  ghost predicate IsPiece(piece: string, sentences: seq<string>, a: nat, b: nat, maxChars: int) {
    && b <= |sentences| && Filled(sentences, a, b, maxChars) && piece == Spaced(sentences[a..b])
    && (b < |sentences| ==> !FitsBehind(sentences, a, b, maxChars))
  }

  /** The pieces are the sentences cut at these positions. */
  ghost predicate PiecesAt(pieces: seq<string>, sentences: seq<string>, cuts: seq<nat>, maxChars: int) {
    && |cuts| == |pieces| + 1 && cuts[0] == 0
    && forall k :: 0 <= k < |pieces| ==> IsPiece(pieces[k], sentences, cuts[k], cuts[k + 1], maxChars)
  }

  /** All sentences in order, as many in each piece as fit; a blank last piece may be left out. */
  ghost predicate Greedy(out: seq<string>, sentences: seq<string>, maxChars: int) {
    exists cuts, last: seq<string> ::
      && (last == [] || (|last| == 1 && NonSpace(last[0]) == ""))
      && PiecesAt(out + last, sentences, cuts, maxChars) && cuts[|cuts| - 1] == |sentences|
  }

  lemma OnePieceMore(
      pieces: seq<string>, sentences: seq<string>, cuts: seq<nat>, piece: string, b: nat, maxChars: int)
    requires PiecesAt(pieces, sentences, cuts, maxChars)
    requires IsPiece(piece, sentences, cuts[|cuts| - 1], b, maxChars)
    ensures PiecesAt(pieces + [piece], sentences, cuts + [b], maxChars)
  {
    hide IsPiece;
    var ps, cs := pieces + [piece], cuts + [b];
    forall k | 0 <= k < |ps| ensures IsPiece(ps[k], sentences, cs[k], cs[k + 1], maxChars) {
      if k < |pieces| { assert IsPiece(pieces[k], sentences, cuts[k], cuts[k + 1], maxChars); }
    }
  }

  lemma SpacedOneMore(sentences: seq<string>, a: nat, i: nat)
    requires a <= i < |sentences|
    ensures Spaced(sentences[a..i + 1]) == Spaced(sentences[a..i]) + (sentences[i] + " ")
  {
    assert sentences[a..i + 1][..i - a] == sentences[a..i];
  }

  /** The sentences from `from` up to i are being gathered in cur. */
  ghost predicate Gathering(cur: string, sentences: seq<string>, from: nat, i: nat, maxChars: int) {
    from <= i <= |sentences| && cur == Spaced(sentences[from..i]) && (from < i <==> cur != "")
    && (from < i ==> Filled(sentences, from, i, maxChars))
  }

  lemma GatherOne(cur: string, sentences: seq<string>, from: nat, i: nat, maxChars: int)
    requires Gathering(cur, sentences, from, i, maxChars) && i < |sentences|
    requires cur != "" ==> |cur| + |sentences[i]| <= maxChars
    ensures Gathering(cur + (sentences[i] + " "), sentences, from, i + 1, maxChars)
  {
    hide Spaced;
    SpacedOneMore(sentences, from, i);
  }

  lemma GatherNone(sentences: seq<string>, i: nat, maxChars: int)
    requires i <= |sentences|
    ensures Gathering("", sentences, i, i, maxChars)
  {
  }

  method Bound(seg: string, maxChars: int) returns (out: seq<string>)
    ensures |seg| > maxChars ==> Greedy(out, Sentences(seg), maxChars)
    ensures Content(out) == NonSpace(seg)
    ensures AllFit(out, seg, maxChars)
    ensures |seg| <= maxChars ==> out == [seg]
    ensures Packed(out, maxChars)
  {
    hide Content, Sentences, Strip;
    if |seg| <= maxChars {
      ContentOne(seg);
      return [seg];
    }
    var cur := "";
    out := [];
    var sentences := Sentences(seg);
    BlankPiece([], "");
    ghost var cuts: seq<nat>, from := [0], 0;
    GatherNone(sentences, 0, maxChars);
    for i := 0 to |sentences|
      invariant PiecesAt(out, sentences, cuts, maxChars) && cuts[|cuts| - 1] == from
      invariant Gathering(cur, sentences, from, i, maxChars)
      invariant Content(out + [cur]) == Content(sentences[..i])
      invariant AllFit(out, seg, maxChars)
      invariant cur == "" || Fits(cur, seg, maxChars)
      invariant Packed(out, maxChars) && NoRoom(out, cur, maxChars)
    {
      var sentence := sentences[i];
      TakeSnoc(sentences, i);
      if |cur| + |sentence| > maxChars && cur != "" {
        AllFitSnoc(out, cur, seg, maxChars);
        PackedSnoc(out, cur, maxChars);
        BlankPiece(out + [cur], "");
        OnePieceMore(out, sentences, cuts, cur, i, maxChars);
        GatherNone(sentences, i, maxChars);
        cuts, from := cuts + [i], i;
        out := out + [cur];
        cur := "";
      }
      GatherOne(cur, sentences, from, i, maxChars);
      Joined(out, cur, sentence, seg, maxChars);
      cur := cur + (sentence + " ");
    }
    assert sentences[..|sentences|] == sentences;
    SentencesKeepText(seg);
    StripKeeps(cur);
    GatheredAll(out, cur, sentences, cuts, from, maxChars);
    if Strip(cur) != "" {
      AllFitSnoc(out, cur, seg, maxChars);
      PackedSnoc(out, cur, maxChars);
      out := out + [cur];
    } else {
      BlankPiece(out, cur);
    }
  }

  lemma GatheredAll(out: seq<string>, cur: string, sentences: seq<string>, cuts: seq<nat>, from: nat, maxChars: int)
    requires PiecesAt(out, sentences, cuts, maxChars) && cuts[|cuts| - 1] == from && sentences != []
    requires Gathering(cur, sentences, from, |sentences|, maxChars)
    ensures Greedy(out + [cur], sentences, maxChars) || (cur == "" && Greedy(out, sentences, maxChars))
    ensures NonSpace(cur) == "" ==> Greedy(out, sentences, maxChars)
  {
    hide PiecesAt;
    if cur == "" {
      assert out + [] == out;
    } else {
      OnePieceMore(out, sentences, cuts, cur, |sentences|, maxChars);
      assert out + [cur] + [] == out + [cur];
      assert PiecesAt(out + [cur] + [], sentences, cuts + [|sentences|], maxChars);
    }
  }

  /** Adding a sentence to an empty piece, or to one with room for it. */
  lemma Joined(out: seq<string>, cur: string, sentence: string, seg: string, maxChars: int)
    requires sentence in Sentences(seg) && (cur == "" || |cur| + |sentence| <= maxChars)
    ensures Fits(cur + (sentence + " "), seg, maxChars)
    ensures Content(out + [cur + (sentence + " ")]) == Content(out + [cur]) + NonSpace(sentence)
  {
    StripSnoc(cur + sentence, ' ');
    assert cur + (sentence + " ") == (cur + sentence) + [' '];
    assert cur == "" ==> cur + sentence == sentence;
    ContentSnoc(out, cur + (sentence + " "));
    ContentSnoc(out, cur);
    JoinedContent(Content(out), cur, sentence);
  }

  lemma JoinedContent(done: string, cur: string, sentence: string)
    ensures done + NonSpace(cur + (sentence + " ")) == done + NonSpace(cur) + NonSpace(sentence)
  {
    NonSpaceConcat(cur, sentence + " ");
    NonSpaceConcat(sentence, " ");
    assert NonSpace(sentence) + "" == NonSpace(sentence);
    Associative(done, NonSpace(cur), NonSpace(sentence));
  }

  // ------------------------------------------------------- documents

  /** What chunking covers: the whole text, or the text from its first clause on. */
  function Covered(text: string): string {
    var starts := ClauseStarts(text, 0);
    if starts == [] then text else text[starts[0]..]
  }

  /** The segments a document is cut into before bounding. */
  function Segments(text: string): seq<string> {
    var starts := ClauseStarts(text, 0);
    if starts == [] then NonBlank(SplitParagraphs(text)) else ClauseSegments(text, starts)
  }

  function ClauseSegments(text: string, starts: seq<nat>): (r: seq<string>)
    requires Increasing(starts, 0, |text|)
    ensures |r| == |starts|
    ensures forall k :: 0 <= k < |r| ==>
              r[k] == text[starts[k]..if k + 1 < |starts| then starts[k + 1] else |text|]
  {
    seq(|starts|, k requires 0 <= k < |starts| => text[starts[k]..if k + 1 < |starts| then starts[k + 1] else |text|])
  }

  lemma {:induction false} ClauseSegmentsTile(text: string, starts: seq<nat>, n: nat)
    requires Increasing(starts, 0, |text|)
    requires 0 < n <= |starts|
    ensures starts[0] <= starts[n - 1]
    ensures Content(ClauseSegments(text, starts)[..n]) ==
            NonSpace(text[starts[0]..if n < |starts| then starts[n] else |text|])
  {
    hide NonSpace, Content;
    var segs := ClauseSegments(text, starts);
    var end := if n < |starts| then starts[n] else |text|;
    TakeSnoc(segs, n - 1);
    if n == 1 {
      NothingTaken(segs);
      assert "" + NonSpace(segs[0]) == NonSpace(segs[0]);
    } else {
      ClauseSegmentsTile(text, starts, n - 1);
      TwoSlices(text, starts[0], starts[n - 1], end);
    }
  }

  lemma NothingTaken(parts: seq<string>)
    ensures Content(parts[..0]) == ""
  {
  }

  lemma TwoSlices(text: string, a: nat, b: nat, c: nat)
    requires a <= b <= c <= |text|
    ensures NonSpace(text[a..c]) == NonSpace(text[a..b]) + NonSpace(text[b..c])
  {
    hide NonSpace;
    NonSpaceConcat(text[a..b], text[b..c]);
    assert text[a..c] == text[a..b] + text[b..c];
  }

  lemma SegmentsKeepText(text: string)
    ensures Content(Segments(text)) == NonSpace(Covered(text))
  {
    var starts := ClauseStarts(text, 0);
    if starts == [] {
      BlanksAreNothing(SplitParagraphs(text));
      ParagraphsKeepText(text);
    } else {
      ClauseSegmentsTile(text, starts, |starts|);
      assert Segments(text)[..|starts|] == Segments(text);
      assert text[starts[0]..|text|] == text[starts[0]..];
    }
  }

  function Texts(chunks: seq<Chunk>): seq<string> {
    seq(|chunks|, k requires 0 <= k < |chunks| => chunks[k].text)
  }

  function MetaFor(base: Meta, seg: string): Meta {
    match ClauseHead(seg, 0)
    case None => base
    case Some(head) => base["clause" := head.clause]
  }

  /** A chunk is nonempty stripped text of one segment, tagged with that segment's clause, and fits. */
  ghost predicate GoodChunk(c: Chunk, text: string, base: Meta, maxChars: int) {
    exists seg :: FromSegment(c, seg, text, base, maxChars)
  }

  ghost predicate FromSegment(c: Chunk, seg: string, text: string, base: Meta, maxChars: int) {
    seg in Segments(text) && Tagged(c, seg, base, maxChars)
  }

  ghost predicate Tagged(c: Chunk, seg: string, base: Meta, maxChars: int) {
    && c.metadata == MetaFor(base, seg)
    && exists piece :: c.text == Strip(piece) && Fits(piece, seg, maxChars)
  }

  /**
    Nothing is lost: in order, the chunks hold exactly the characters other than
    whitespace of the covered text, and each is nonempty and fits.
   */
  method ChunkDocument(text: string, base: Meta, maxChars: int) returns (chunks: seq<Chunk>)
    ensures NonSpace(Concat(Texts(chunks))) == NonSpace(Covered(text))
    ensures forall k :: 0 <= k < |chunks| ==> chunks[k].text != "" && GoodChunk(chunks[k], text, base, maxChars)
    ensures ClauseStarts(text, 0) == [] ==> forall k :: 0 <= k < |chunks| ==> chunks[k].metadata == base
  {
    var segments := Segments(text);
    var all: seq<Chunk> := [];
    for i := 0 to |segments|
      invariant Content(Texts(all)) == Content(segments[..i])
      invariant forall k :: 0 <= k < |all| ==> GoodChunk(all[k], text, base, maxChars)
    {
      TakeSnoc(segments, i);
      var more := ChunkSegment(segments[i], base, maxChars);
      TextsConcat(all, more);
      ContentConcat(Texts(all), Texts(more));
      forall k | 0 <= k < |more| ensures GoodChunk(more[k], text, base, maxChars) {
        assert FromSegment(more[k], segments[i], text, base, maxChars);
      }
      all := all + more;
    }
    assert segments[..|segments|] == segments;
    SegmentsKeepText(text);
    DropEmptyKeeps(all);
    DropEmptyFilters(all);
    chunks := DropEmpty(all);
    ContentIsNonSpace(Texts(chunks));
    forall k | 0 <= k < |chunks| ensures chunks[k].text != "" && GoodChunk(chunks[k], text, base, maxChars) {
      assert chunks[k] in chunks;
    }
    if ClauseStarts(text, 0) == [] {
      forall k | 0 <= k < |chunks| ensures chunks[k].metadata == base {
        UntaggedChunk(chunks[k], text, base, maxChars);
      }
    }
  }

  lemma UntaggedChunk(c: Chunk, text: string, base: Meta, maxChars: int)
    requires GoodChunk(c, text, base, maxChars) && ClauseStarts(text, 0) == []
    ensures c.metadata == base
  {
    hide ClauseStarts, Segments, MetaFor, Fits;
    var seg :| FromSegment(c, seg, text, base, maxChars);
    NoClausesNoTags(text, base, seg);
  }

  ghost predicate AllTagged(chunks: seq<Chunk>, seg: string, base: Meta, maxChars: int) {
    forall k :: 0 <= k < |chunks| ==> Tagged(chunks[k], seg, base, maxChars)
  }

  lemma AllTaggedSnoc(chunks: seq<Chunk>, c: Chunk, piece: string, seg: string, base: Meta, maxChars: int)
    requires AllTagged(chunks, seg, base, maxChars)
    requires c == Chunk(Strip(piece), MetaFor(base, seg)) && Fits(piece, seg, maxChars)
    ensures AllTagged(chunks + [c], seg, base, maxChars)
    ensures Content(Texts(chunks + [c])) == Content(Texts(chunks)) + NonSpace(piece)
  {
    hide Strip, Fits, MetaFor, Content, NonSpace;
    StripKeeps(piece);
    ContentSnoc(Texts(chunks), c.text);
    assert Texts(chunks + [c]) == Texts(chunks) + [c.text];
  }

  /** The inner loop: one segment, bounded, stripped and tagged. */
  method ChunkSegment(seg: string, base: Meta, maxChars: int) returns (chunks: seq<Chunk>)
    ensures Content(Texts(chunks)) == NonSpace(seg)
    ensures AllTagged(chunks, seg, base, maxChars)
  {
    var head := ClauseHead(seg, 0);
    var pieces := Bound(seg, maxChars);
    chunks := [];
    for j := 0 to |pieces|
      invariant Content(Texts(chunks)) == Content(pieces[..j])
      invariant AllTagged(chunks, seg, base, maxChars)
    {
      var meta := base;
      if head.Some? {
        meta := meta["clause" := head.value.clause];
      }
      TakeSnoc(pieces, j);
      AllTaggedSnoc(chunks, Chunk(Strip(pieces[j]), meta), pieces[j], seg, base, maxChars);
      chunks := chunks + [Chunk(Strip(pieces[j]), meta)];
    }
    assert pieces[..|pieces|] == pieces;
  }

  lemma TextsConcat(a: seq<Chunk>, b: seq<Chunk>)
    ensures Texts(a + b) == Texts(a) + Texts(b)
  {
  }

  function DropEmpty(chunks: seq<Chunk>): seq<Chunk> {
    if chunks == [] then []
    else
      var n := |chunks| - 1;
      if chunks[n].text != "" then DropEmpty(chunks[..n]) + [chunks[n]] else DropEmpty(chunks[..n])
  }

  lemma {:induction false} DropEmptyKeeps(chunks: seq<Chunk>)
    ensures Content(Texts(DropEmpty(chunks))) == Content(Texts(chunks))
  {
    if chunks != [] {
      var n := |chunks| - 1;
      var init, c := chunks[..n], chunks[n];
      DropEmptyKeeps(init);
      assert Content(Texts(chunks)) == Content(Texts(init)) + NonSpace(c.text) by {
        assert chunks == init + [c];
        TextsSnoc(init, c);
      }
      TextsSnoc(DropEmpty(init), c);
    }
  }

  lemma {:induction false} DropEmptyFilters(chunks: seq<Chunk>)
    ensures forall c :: c in DropEmpty(chunks) <==> c in chunks && c.text != ""
  {
    if chunks != [] {
      var n := |chunks| - 1;
      DropEmptyFilters(chunks[..n]);
      assert chunks == chunks[..n] + [chunks[n]];
    }
  }

  lemma TextsSnoc(chunks: seq<Chunk>, c: Chunk)
    ensures Content(Texts(chunks + [c])) == Content(Texts(chunks)) + NonSpace(c.text)
    ensures c.text == "" ==> Content(Texts(chunks + [c])) == Content(Texts(chunks))
  {
    ContentSnoc(Texts(chunks), c.text);
    assert Texts(chunks + [c]) == Texts(chunks) + [c.text];
    assert Content(Texts(chunks)) + "" == Content(Texts(chunks));
  }

  // ------------------------------------------------------- clause tags

  lemma {:induction false} NumberInSlice(s: string, a: nat, e: nat, i: nat)
    requires a + i <= e <= |s| && NumberEnd(s, a + i) < e
    ensures NumberEnd(s[a..e], i) == NumberEnd(s, a + i) - a
    decreases e - i
  {
    hide RunEnd;
    var d, t := RunEnd(s, a + i, Digit), s[a..e];
    RunInSlice(s, a, e, i, Digit);
    assert RunEnd(t, i, Digit) == d - a;
    assert d - a < |t| && t[d - a] == s[d];
    if d > a + i && d + 1 < e && s[d] == '.' { NumberInSlice(s, a, e, d + 1 - a); }
  }

  lemma IndentInSlice(s: string, a: nat, e: nat)
    requires a <= e <= |s| && IndentEnd(s, a).Some? && IndentEnd(s, a).value < e
    ensures IndentEnd(s[a..e], 0) == Some(IndentEnd(s, a).value - a)
  {
    hide RunEnd;
    var t, b := s[a..e], RunEnd(s, a, Space);
    var c := RunEnd(s, b, Hash);
    assert RunEnd(t, 0, Space) == b - a by { RunInSlice(s, a, e, 0, Space); }
    assert RunEnd(t, b - a, Hash) == c - a by { RunInSlice(s, a, e, b - a, Hash); }
    if c > b {
      assert RunEnd(t, c - a, Space) == RunEnd(s, c, Space) - a by { RunInSlice(s, a, e, c - a, Space); }
    }
  }

  lemma SliceOfSlice(s: string, a: nat, e: nat, b: nat, n: nat)
    requires a <= b <= n <= e <= |s|
    ensures s[a..e][b - a..n - a] == s[b..n]
  {
    var x, y := s[a..e][b - a..n - a], s[b..n];
    assert |x| == |y| && forall k :: 0 <= k < |y| ==> x[k] == y[k];
  }

  /** The same head, found in a slice that starts at a. */
  predicate ShiftedHead(inner: Option<Head>, outer: Option<Head>, a: nat) {
    inner.Some? && outer.Some? && inner.value.end + a == outer.value.end && inner.value.clause == outer.value.clause
  }

  lemma NumberHeadInSlice(s: string, a: nat, e: nat, b: nat)
    requires a <= b <= e <= |s| && NumberHead(s, b).Some? && NumberHead(s, b).value.end <= e
    ensures ShiftedHead(NumberHead(s[a..e], b - a), NumberHead(s, b), a)
  {
    hide RunEnd, NumberEnd;
    var n, t := NumberEnd(s, b), s[a..e];
    assert NumberEnd(t, b - a) == n - a by { NumberInSlice(s, a, e, b - a); }
    assert RunEnd(t, n - a, Space) == RunEnd(s, n, Space) - a by { RunInSlice(s, a, e, n - a, Space); }
    assert t[b - a..n - a] == s[b..n] by { SliceOfSlice(s, a, e, b, n); }
  }

  /** Cutting a segment out of the text, anywhere after its clause head, leaves that head as it was. */
  lemma HeadInSlice(s: string, a: nat, e: nat)
    requires a <= e <= |s| && ClauseHead(s, a).Some? && ClauseHead(s, a).value.end <= e
    ensures ShiftedHead(ClauseHead(s[a..e], 0), ClauseHead(s, a), a)
  {
    hide NumberHead, IndentEnd;
    var b := IndentEnd(s, a).value;
    assert IndentEnd(s[a..e], 0) == Some(b - a) by { IndentInSlice(s, a, e); }
    assert NumberHead(s, b) == ClauseHead(s, a);
    assert ShiftedHead(NumberHead(s[a..e], b - a), NumberHead(s, b), a) by { NumberHeadInSlice(s, a, e, b); }
  }

  /** A clause head starts at i and ends by position `end`. */
  ghost predicate HeadFits(text: string, i: nat, end: nat) {
    i < end <= |text| && ClauseHead(text, i).Some? && ClauseHead(text, i).value.end <= end
  }

  /** Where the segment of the k-th start ends. */
  function SegmentEnd(text: string, starts: seq<nat>, k: nat): nat {
    if k + 1 < |starts| then starts[k + 1] else |text|
  }

  ghost predicate AllHeadsFit(text: string, starts: seq<nat>) {
    forall k :: 0 <= k < |starts| ==> HeadFits(text, starts[k], SegmentEnd(text, starts, k))
  }

  lemma NoHeadsFit(text: string)
    ensures AllHeadsFit(text, [])
  {
  }

  lemma HeadThenRest(text: string, i: nat, rest: seq<nat>)
    requires i < |text| && HeadEnd(text, i) > i && Increasing(rest, HeadEnd(text, i), |text|)
    requires AllHeadsFit(text, rest)
    ensures AllHeadsFit(text, [i] + rest)
  {
    hide ClauseHead;
    var starts := [i] + rest;
    assert HeadFits(text, i, SegmentEnd(text, starts, 0));
    forall k | 0 < k < |starts| ensures HeadFits(text, starts[k], SegmentEnd(text, starts, k)) {
      assert HeadFits(text, rest[k - 1], SegmentEnd(text, rest, k - 1));
    }
  }

  /** The head found at each start ends before the next start, the last one before the end of the text. */
  lemma {:induction false} StartsHaveHeads(text: string, i: nat)
    requires i <= |text|
    ensures AllHeadsFit(text, ClauseStarts(text, i))
    decreases |text| - i
  {
    hide HeadEnd, AllHeadsFit, Increasing;
    if i == |text| {
      NoHeadsFit(text);
    } else {
      var n := HeadEnd(text, i);
      if n == i {
        StartsHaveHeads(text, i + 1);
      } else {
        StartsHaveHeads(text, n);
        HeadThenRest(text, i, ClauseStarts(text, n));
      }
    }
  }

  /** In a document with clauses, each segment is tagged with the clause number found where it starts. */
  lemma SegmentsAreTagged(text: string, base: Meta, k: nat)
    requires k < |ClauseStarts(text, 0)|
    ensures |Segments(text)| == |ClauseStarts(text, 0)|
    ensures var head := ClauseHead(text, ClauseStarts(text, 0)[k]);
            head.Some? && MetaFor(base, Segments(text)[k]) == base["clause" := head.value.clause]
  {
    hide ClauseHead;
    var starts := ClauseStarts(text, 0);
    StartsHaveHeads(text, 0);
    assert HeadFits(text, starts[k], SegmentEnd(text, starts, k));
    HeadInSlice(text, starts[k], SegmentEnd(text, starts, k));
  }

  lemma {:induction false} NumberFromSlice(s: string, a: nat, e: nat, i: nat)
    requires a + i <= e <= |s|
    requires var m := NumberEnd(s[a..e], i); a + m < e && s[a + m] != '.'
    ensures NumberEnd(s, a + i) == a + NumberEnd(s[a..e], i)
    decreases e - i
  {
    hide RunEnd, In;
    var t := s[a..e];
    var d := RunEnd(t, i, Digit);
    RunInSlice(s, a, e, i, Digit);
    assert d < |t| && t[d] == s[a + d];
    if d > i && t[d] == '.' { NumberFromSlice(s, a, e, d + 1); }
  }

  lemma NumberHeadFromSlice(s: string, a: nat, e: nat, b: nat)
    requires a + b <= e <= |s| && NumberHead(s[a..e], b).Some?
    ensures NumberHead(s, a + b).Some? && a + b < e
  {
    hide RunEnd, NumberEnd, IsDigit;
    var t := s[a..e];
    var n := NumberEnd(t, b);
    RunInSlice(s, a, e, n, Space);
    RunIsMaximal(t, n, Space);
    assert In(t[n], Space) && t[n] == s[a + n];
    NumberFromSlice(s, a, e, b);
  }

  lemma IndentFromSlice(s: string, a: nat, e: nat)
    requires a <= e <= |s| && IndentEnd(s[a..e], 0).Some? && a + IndentEnd(s[a..e], 0).value < e
    ensures IndentEnd(s, a) == Some(a + IndentEnd(s[a..e], 0).value)
  {
    hide RunEnd;
    var t := s[a..e];
    var x := RunEnd(t, 0, Space);
    var h := RunEnd(t, x, Hash);
    RunInSlice(s, a, e, 0, Space);
    RunInSlice(s, a, e, x, Hash);
    if h > x { RunInSlice(s, a, e, h, Space); }
  }

  /** A clause head at the start of a slice is one of the text. */
  lemma HeadFromSlice(s: string, a: nat, e: nat)
    requires a <= e <= |s| && ClauseHead(s[a..e], 0).Some?
    ensures ClauseHead(s, a).Some? && a < |s|
  {
    hide NumberHead, IndentEnd;
    var b := IndentEnd(s[a..e], 0).value;
    NumberHeadFromSlice(s, a, e, b);
    IndentFromSlice(s, a, e);
  }

  /** A paragraph is a slice of the text that begins a line. */
  ghost predicate LineSlice(text: string, x: string) {
    exists a, e :: 0 <= a <= e <= |text| && x == text[a..e] && AtLineStart(text, a)
  }

  lemma {:induction false} ParagraphsBeginLines(text: string, c: nat, x: string)
    requires c <= |text| && AtLineStart(text, c) && x in SplitParagraphs(text[c..])
    ensures LineSlice(text, x)
    decreases |text| - c
  {
    hide LineSlice, AtLineStart;
    var rest := text[c..];
    var i := FindBlankLine(rest, 0);
    if i == -1 {
      IsLineSlice(text, c, |text|, x);
    } else if x == rest[..i] {
      IsLineSlice(text, c, c + i, x);
    } else {
      assert rest[i + 2..] == text[c + i + 2..];
      BlankBeginsLine(text, c, i);
      ParagraphsBeginLines(text, c + i + 2, x);
    }
  }

  lemma IsLineSlice(text: string, a: nat, e: nat, x: string)
    requires a <= e <= |text| && AtLineStart(text, a) && (x == text[a..e] || (e >= a && x == text[a..][..e - a]))
    ensures LineSlice(text, x)
  {
    assert text[a..][..e - a] == text[a..e];
  }

  lemma BlankBeginsLine(text: string, c: nat, i: nat)
    requires c <= |text| && BlankLineAt(text[c..], i)
    ensures c + i + 2 <= |text| && AtLineStart(text, c + i + 2)
  {
    assert text[c..][i + 1] == text[c + i + 1];
  }

  /** Exactly the paragraphs with more than whitespace are kept. */
  lemma {:induction false} NonBlankFilters(parts: seq<string>)
    ensures forall x :: x in NonBlank(parts) <==> x in parts && NonSpace(x) != ""
  {
    hide Strip, NonSpace;
    if parts != [] {
      var n := |parts| - 1;
      assert parts == parts[..n] + [parts[n]];
      NonBlankFilters(parts[..n]);
      StripKeeps(parts[n]);
    }
  }

  /** In a document without clauses no segment carries a clause number. */
  lemma NoClausesNoTags(text: string, base: Meta, seg: string)
    requires ClauseStarts(text, 0) == [] && seg in Segments(text)
    ensures MetaFor(base, seg) == base
  {
    hide ClauseHead, SplitParagraphs, NonBlank;
    NonBlankFilters(SplitParagraphs(text));
    assert text[0..] == text;
    ParagraphsBeginLines(text, 0, seg);
    var a, e :| 0 <= a <= e <= |text| && seg == text[a..e] && AtLineStart(text, a);
    if ClauseHead(seg, 0).Some? {
      HeadFromSlice(text, a, e);
      StartsAreComplete(text, a);
    }
  }

  /** The whole text survives exactly when nothing but whitespace precedes its first clause. */
  lemma WholeTextKeptIffNoPreamble(text: string)
    ensures NonSpace(Covered(text)) == NonSpace(text) <==>
            ClauseStarts(text, 0) == [] || Strip(text[..ClauseStarts(text, 0)[0]]) == ""
  {
    var starts := ClauseStarts(text, 0);
    if starts != [] {
      var before, after := text[..starts[0]], text[starts[0]..];
      assert text == before + after;
      NonSpaceConcat(before, after);
      StripKeeps(before);
    }
  }
}
