/** Character classes of Python's str and re, runs of characters, and stripping. */
module Chars {
  /** str.isspace, which is also what \s matches in a str pattern. */
  predicate IsSpace(c: char) {
    var n := c as int;
    || 9 <= n <= 13 || 28 <= n <= 32 || n == 0x85 || n == 0xA0 || n == 0x1680 || 0x2000 <= n <= 0x200A
    || n == 0x2028 || n == 0x2029 || n == 0x202F || n == 0x205F || n == 0x3000
  }

  /** How many blocks of ten decimal digits there are beyond ASCII. */
  const BLOCKS := 67

  /** The zero of each block. */
  function BlockZero(k: nat): int {
    match k
    case 0 => 0x660 case 1 => 0x6F0 case 2 => 0x7C0 case 3 => 0x966 case 4 => 0x9E6 case 5 => 0xA66
    case 6 => 0xAE6 case 7 => 0xB66 case 8 => 0xBE6 case 9 => 0xC66 case 10 => 0xCE6 case 11 => 0xD66
    case 12 => 0xDE6 case 13 => 0xE50 case 14 => 0xED0 case 15 => 0xF20 case 16 => 0x1040 case 17 => 0x1090
    case 18 => 0x17E0 case 19 => 0x1810 case 20 => 0x1946 case 21 => 0x19D0 case 22 => 0x1A80 case 23 => 0x1A90
    case 24 => 0x1B50 case 25 => 0x1BB0 case 26 => 0x1C40 case 27 => 0x1C50 case 28 => 0xA620 case 29 => 0xA8D0
    case 30 => 0xA900 case 31 => 0xA9D0 case 32 => 0xA9F0 case 33 => 0xAA50 case 34 => 0xABF0 case 35 => 0xFF10
    case 36 => 0x104A0 case 37 => 0x10D30 case 38 => 0x11066 case 39 => 0x110F0 case 40 => 0x11136 case 41 => 0x111D0
    case 42 => 0x112F0 case 43 => 0x11450 case 44 => 0x114D0 case 45 => 0x11650 case 46 => 0x116C0 case 47 => 0x11730
    case 48 => 0x118E0 case 49 => 0x11950 case 50 => 0x11C50 case 51 => 0x11D50 case 52 => 0x11DA0 case 53 => 0x11F50
    case 54 => 0x16A60 case 55 => 0x16AC0 case 56 => 0x16B50 case 57 => 0x1D7CE case 58 => 0x1D7D8 case 59 => 0x1D7E2
    case 60 => 0x1D7EC case 61 => 0x1D7F6 case 62 => 0x1E140 case 63 => 0x1E2F0 case 64 => 0x1E4F0 case 65 => 0x1E950
    case _ => 0x1FBF0
  }

  /** Whether n lies in one of the first k blocks. */
  predicate InBlocks(n: int, k: nat) {
    k > 0 && (BlockZero(k - 1) <= n < BlockZero(k - 1) + 10 || InBlocks(n, k - 1))
  }

  /** What \d matches in a str pattern: any decimal digit. */
  predicate IsDigit(c: char) {
    '0' <= c <= '9' || (c as int >= 0x660 && InBlocks(c as int, BLOCKS))
  }

  /** The character classes that the scanners look for. */
  datatype Class = Space | Digit | Hash | NotBracket | InLink | InUrl

  predicate In(c: char, k: Class) {
    match k
    case Space => IsSpace(c)
    case Digit => IsDigit(c)
    case Hash => c == '#'
    case NotBracket => c != ']'
    case InLink => c != ')' && !IsSpace(c)
    case InUrl => c != ')' && c != '>' && !IsSpace(c)
  }

  /** Where the run of characters of a class that begins at i ends. */
  function RunEnd(s: string, i: nat, k: Class): (j: nat)
    requires i <= |s|
    ensures i <= j <= |s|
    decreases |s| - i
  {
    if i == |s| || !In(s[i], k) then i else RunEnd(s, i + 1, k)
  }

  lemma {:induction false} RunIsMaximal(s: string, i: nat, k: Class)
    requires i <= |s|
    ensures forall m :: i <= m < RunEnd(s, i, k) ==> In(s[m], k)
    ensures RunEnd(s, i, k) < |s| ==> !In(s[RunEnd(s, i, k)], k)
    decreases |s| - i
  {
    if i < |s| && In(s[i], k) { RunIsMaximal(s, i + 1, k); }
  }

  /** Scanning inside a slice is scanning the whole up to the slice's end. */
  lemma {:induction false} RunInSlice(s: string, a: nat, e: nat, i: nat, k: Class)
    requires a + i <= e <= |s|
    ensures RunEnd(s[a..e], i, k) == (if RunEnd(s, a + i, k) < e then RunEnd(s, a + i, k) else e) - a
    decreases e - i
  {
    if a + i < e && In(s[a + i], k) { RunInSlice(s, a, e, i + 1, k); }
  }

  lemma {:induction false} RunStops(s: string, i: nat, j: nat, k: Class)
    requires i <= j < |s| && !In(s[j], k) && forall m :: i <= m < j ==> In(s[m], k)
    ensures RunEnd(s, i, k) == j
    decreases j - i
  {
    if i < j { RunStops(s, i + 1, j, k); }
  }

  lemma Associative(a: string, b: string, c: string)
    ensures a + (b + c) == a + b + c
  {
  }

  function NonSpace(s: string): string {
    if s == "" then "" else if IsSpace(s[0]) then NonSpace(s[1..]) else [s[0]] + NonSpace(s[1..])
  }

  lemma {:induction false} NonSpaceConcat(a: string, b: string)
    ensures NonSpace(a + b) == NonSpace(a) + NonSpace(b)
  {
    if a == "" {
      assert a + b == b;
      assert "" + NonSpace(b) == NonSpace(b);
    } else {
      NonSpaceConcat(a[1..], b);
      assert (a + b)[1..] == a[1..] + b;
      Associative([a[0]], NonSpace(a[1..]), NonSpace(b));
    }
  }

  lemma {:induction false} NonSpaceOfSpaces(s: string)
    requires forall i :: 0 <= i < |s| ==> IsSpace(s[i])
    ensures NonSpace(s) == ""
  {
    if s != "" { NonSpaceOfSpaces(s[1..]); }
  }

  /** Whitespace in the middle of a string adds nothing. */
  lemma SpacesDropOut(a: string, spaces: string, b: string)
    requires forall i :: 0 <= i < |spaces| ==> IsSpace(spaces[i])
    ensures NonSpace(a + (spaces + b)) == NonSpace(a) + NonSpace(b)
  {
    NonSpaceConcat(a, spaces + b);
    NonSpaceConcat(spaces, b);
    NonSpaceOfSpaces(spaces);
    assert "" + NonSpace(b) == NonSpace(b);
  }

  function Concat(parts: seq<string>): string {
    if parts == [] then "" else Concat(parts[..|parts| - 1]) + parts[|parts| - 1]
  }

  lemma ConcatSnoc(parts: seq<string>, x: string)
    ensures Concat(parts + [x]) == Concat(parts) + x
  {
    assert (parts + [x])[..|parts|] == parts;
  }

  lemma {:induction false} ConcatSplit(a: seq<string>, b: seq<string>)
    ensures Concat(a + b) == Concat(a) + Concat(b)
  {
    if b == [] {
      assert a + b == a;
      assert Concat(a) + "" == Concat(a);
    } else {
      var n := |b| - 1;
      ConcatSplit(a, b[..n]);
      ConcatSnoc(a + b[..n], b[n]);
      assert a + b == a + b[..n] + [b[n]];
      Associative(Concat(a), Concat(b[..n]), b[n]);
    }
  }

  /** The characters other than whitespace of a list of texts, in order. */
  function Content(parts: seq<string>): string {
    if parts == [] then "" else Content(parts[..|parts| - 1]) + NonSpace(parts[|parts| - 1])
  }

  lemma ContentOne(x: string)
    ensures Content([x]) == NonSpace(x)
  {
    assert [x] == [] + [x];
    ContentSnoc([], x);
    assert "" + NonSpace(x) == NonSpace(x);
  }

  lemma ContentSnoc(parts: seq<string>, x: string)
    ensures Content(parts + [x]) == Content(parts) + NonSpace(x)
  {
    assert (parts + [x])[..|parts|] == parts;
  }

  lemma {:induction false} ContentCons(x: string, parts: seq<string>)
    ensures Content([x] + parts) == NonSpace(x) + Content(parts)
  {
    if parts == [] {
      assert [x] + parts == [x];
      ContentOne(x);
      assert NonSpace(x) + "" == NonSpace(x);
    } else {
      var n := |parts| - 1;
      ContentCons(x, parts[..n]);
      ContentSnoc([x] + parts[..n], parts[n]);
      assert [x] + parts == [x] + parts[..n] + [parts[n]];
      Associative(NonSpace(x), Content(parts[..n]), NonSpace(parts[n]));
    }
  }

  lemma {:induction false} ContentConcat(a: seq<string>, b: seq<string>)
    ensures Content(a + b) == Content(a) + Content(b)
  {
    if b == [] {
      assert a + b == a;
      assert Content(a) + "" == Content(a);
    } else {
      var n := |b| - 1;
      ContentConcat(a, b[..n]);
      ContentSnoc(a + b[..n], b[n]);
      assert a + b == a + b[..n] + [b[n]];
      Associative(Content(a), Content(b[..n]), NonSpace(b[n]));
    }
  }

  lemma {:induction false} ContentIsNonSpace(parts: seq<string>)
    ensures Content(parts) == NonSpace(Concat(parts))
  {
    if parts != [] {
      var n := |parts| - 1;
      ContentIsNonSpace(parts[..n]);
      NonSpaceConcat(Concat(parts[..n]), parts[n]);
    }
  }

  function RStrip(s: string): (r: string)
    ensures |r| <= |s|
  {
    if s != "" && IsSpace(s[|s| - 1]) then RStrip(s[..|s| - 1]) else s
  }

  function LStrip(s: string): (r: string)
    ensures |r| <= |s|
  {
    if s != "" && IsSpace(s[0]) then LStrip(s[1..]) else s
  }

  /** str.strip */
  function Strip(s: string): (r: string)
    ensures |r| <= |s|
  {
    LStrip(RStrip(s))
  }

  lemma {:induction false} RStripKeeps(s: string)
    ensures NonSpace(RStrip(s)) == NonSpace(s)
  {
    if s != "" && IsSpace(s[|s| - 1]) {
      RStripKeeps(s[..|s| - 1]);
      NonSpaceConcat(s[..|s| - 1], [s[|s| - 1]]);
      assert s == s[..|s| - 1] + [s[|s| - 1]];
    }
  }

  lemma {:induction false} LStripKeeps(s: string)
    ensures NonSpace(LStrip(s)) == NonSpace(s)
    ensures LStrip(s) == "" || !IsSpace(LStrip(s)[0])
  {
    if s != "" && IsSpace(s[0]) { LStripKeeps(s[1..]); }
  }

  /** Stripping loses only whitespace, and what is left is empty or holds some other character. */
  lemma StripKeeps(s: string)
    ensures NonSpace(Strip(s)) == NonSpace(s)
    ensures Strip(s) == "" <==> NonSpace(s) == ""
  {
    RStripKeeps(s);
    LStripKeeps(RStrip(s));
  }

  lemma StripSnoc(s: string, c: char)
    requires IsSpace(c)
    ensures Strip(s + [c]) == Strip(s)
  {
    assert (s + [c])[..|s|] == s;
  }

  lemma {:induction false} RStripCuts(s: string)
    ensures RStrip(s) == s[..|RStrip(s)|] && forall k :: |RStrip(s)| <= k < |s| ==> IsSpace(s[k])
    ensures RStrip(s) == "" || !IsSpace(RStrip(s)[|RStrip(s)| - 1])
  {
    hide IsSpace;
    if s != "" && IsSpace(s[|s| - 1]) {
      RStripCuts(s[..|s| - 1]);
    } else {
      assert s[..|s|] == s;
    }
  }

  lemma {:induction false} LStripCuts(s: string)
    ensures LStrip(s) == s[|s| - |LStrip(s)|..] && forall k :: 0 <= k < |s| - |LStrip(s)| ==> IsSpace(s[k])
    ensures LStrip(s) == "" || !IsSpace(LStrip(s)[0])
  {
    hide IsSpace;
    if s != "" && IsSpace(s[0]) {
      LStripCuts(s[1..]);
    } else {
      assert s[0..] == s;
    }
  }

  /** Stripping cuts whitespace off both ends, and all of it. */
  lemma StripCuts(s: string) returns (a: nat, b: nat)
    ensures a <= b <= |s| && Strip(s) == s[a..b]
    ensures forall k :: 0 <= k < a || b <= k < |s| ==> IsSpace(s[k])
    ensures a < b ==> !IsSpace(s[a]) && !IsSpace(s[b - 1])
  {
    hide IsSpace, RStrip, LStrip;
    RStripCuts(s);
    LStripCuts(RStrip(s));
    b := |RStrip(s)|;
    a := b - |Strip(s)|;
    assert s[..b][a..] == s[a..b];
    assert forall k :: 0 <= k < b ==> s[k] == RStrip(s)[k];
  }
}
