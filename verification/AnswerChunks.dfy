/** Pacing a validated answer: the text cut into chunks at line breaks and spaces. */
module AnswerChunks {
  import opened Chars

  predicate IsBreak(c: char) {
    c == '\n' || c == ' '
  }

  /** str.rfind of one character between two positions; -1 when absent. */
  function RFind(text: string, c: char, start: nat, end: nat): (r: int)
    requires start <= end <= |text|
    ensures r == -1 || (start <= r < end && text[r] == c)
    ensures forall j :: (if r == -1 then start else r + 1) <= j < end ==> text[j] != c
    decreases end
  {
    if start == end then -1 else if text[end - 1] == c then end - 1 else RFind(text, c, start, end - 1)
  }

  /**
    The first chunk of a text takes n characters: all of it when it fits the
    limit; else up to and including the last break among the first `limit`
    characters that is not the very first; else, with no such break, exactly `limit`.
   */
  ghost predicate FirstCut(text: string, n: nat, limit: int) {
    if |text| <= limit then n == |text|
    else
      && 1 <= n <= limit
      && (forall j :: n <= j < limit && j > 0 ==> !IsBreak(text[j]))
      && (if n >= 2 && IsBreak(text[n - 1]) then true
          else n == limit && forall j :: 0 < j < limit ==> !IsBreak(text[j]))
  }

  /** The chunks cut the whole text, one after the other. */
  ghost predicate Paces(text: string, chunks: seq<string>, limit: int) {
    if text == "" then chunks == []
    else
      && chunks != []
      && chunks[0] <= text
      && FirstCut(text, |chunks[0]|, limit)
      && Paces(text[|chunks[0]|..], chunks[1..], limit)
  }

  lemma OneFirstCut(text: string, m: nat, n: nat, limit: int)
    requires limit >= 1 && FirstCut(text, m, limit) && FirstCut(text, n, limit)
    ensures m == n
  {
    if |text| > limit {
      var lastOfM, lastOfN := text[m - 1], text[n - 1];
    }
  }

  /** There is only one way to pace a text, so the conditions say everything about the result. */
  lemma {:induction false} PacingIsUnique(text: string, a: seq<string>, b: seq<string>, limit: int)
    requires limit >= 1 && Paces(text, a, limit) && Paces(text, b, limit)
    ensures a == b
    decreases |a|
  {
    if text != "" {
      OneFirstCut(text, |a[0]|, |b[0]|, limit);
      assert a[0] == b[0];
      PacingIsUnique(text[|a[0]|..], a[1..], b[1..], limit);
      assert a == [a[0]] + a[1..] && b == [b[0]] + b[1..];
    }
  }

  /** No text is lost, repeated or reordered. */
  lemma {:induction false} PacingKeepsText(text: string, chunks: seq<string>, limit: int)
    requires Paces(text, chunks, limit)
    ensures Concat(chunks) == text
    decreases |chunks|
  {
    if text != "" {
      var head, rest := chunks[0], chunks[1..];
      PacingKeepsText(text[|head|..], rest, limit);
      assert chunks == [head] + rest;
      ConcatSplit([head], rest);
      assert Concat([head]) == head;
    }
  }

  /** A chunk of 1 to `limit` characters that, unless it is the last, ends in a break or is full and holds none after its first character. */
  ghost predicate WellCut(chunk: string, last: bool, limit: int) {
    && 1 <= |chunk| <= limit
    && (last || IsBreak(chunk[|chunk| - 1]) || (|chunk| == limit && forall j :: 0 < j < limit ==> !IsBreak(chunk[j])))
  }

  lemma {:induction false} PacedChunksAreWellCut(text: string, chunks: seq<string>, limit: int)
    requires limit >= 1 && Paces(text, chunks, limit)
    ensures forall k :: 0 <= k < |chunks| ==> WellCut(chunks[k], k == |chunks| - 1, limit)
    decreases |chunks|
  {
    if text != "" {
      PacedChunksAreWellCut(text[|chunks[0]|..], chunks[1..], limit);
    }
  }

  lemma NothingPaced(limit: int)
    ensures Paces("", [], limit) && Concat([]) == ""
  {
  }

  method Split(text: string, limit: int) returns (chunks: seq<string>)
    requires limit >= 1
    ensures Paces(text, chunks, limit)
    ensures Concat(chunks) == text
    ensures forall k :: 0 <= k < |chunks| ==> WellCut(chunks[k], k == |chunks| - 1, limit)
  {
    hide Paces, FirstCut, WellCut, Concat;
    chunks := [];
    if text == "" {
      NothingPaced(limit);
      return;
    }
    var start := 0;
    assert text[0..] == text;
    assert forall more: seq<string> :: [] + more == more;
    while start < |text|
      invariant 0 <= start <= |text|
      invariant forall more :: Paces(text[start..], more, limit) ==> Paces(text, chunks + more, limit)
      decreases |text| - start
    {
      var end := if start + limit < |text| then start + limit else |text|;
      if end < |text| {
        var newline, space := RFind(text, '\n', start, end), RFind(text, ' ', start, end);
        var boundary := if newline > space then newline else space;
        if boundary > start {
          end := boundary + 1;
        }
      }
      CutIsFirst(text, start, end, limit);
      PutBefore(text, start, end, limit, chunks);
      chunks := chunks + [text[start..end]];
      start := end;
    }
    NothingPaced(limit);
    assert text[start..] == "" && chunks + [] == chunks;
    PacingKeepsText(text, chunks, limit);
    PacedChunksAreWellCut(text, chunks, limit);
  }

  lemma CutIsFirst(text: string, start: nat, end: nat, limit: int)
    requires limit >= 1 && start < end <= |text|
    requires if |text| - start <= limit then end == |text| else end <= start + limit
    requires |text| - start > limit ==>
               if end >= start + 2 && IsBreak(text[end - 1]) then forall j :: end <= j < start + limit ==> !IsBreak(text[j])
               else end == start + limit && forall j :: start < j < end ==> !IsBreak(text[j])
    ensures FirstCut(text[start..], end - start, limit)
  {
  }

  /** Cutting one more chunk off the rest extends every pacing of what remains. */
  lemma PutBefore(text: string, start: nat, end: nat, limit: int, chunks: seq<string>)
    requires start < end <= |text| && FirstCut(text[start..], end - start, limit)
    requires forall more :: Paces(text[start..], more, limit) ==> Paces(text, chunks + more, limit)
    ensures forall more :: Paces(text[end..], more, limit) ==> Paces(text, chunks + [text[start..end]] + more, limit)
  {
    var chunk, rest := text[start..end], text[start..];
    assert rest[|chunk|..] == text[end..];
    forall more | Paces(text[end..], more, limit) ensures Paces(text, chunks + [chunk] + more, limit) {
      assert ([chunk] + more)[1..] == more;
      assert Paces(rest, [chunk] + more, limit);
      assert chunks + [chunk] + more == chunks + ([chunk] + more);
    }
  }
}
