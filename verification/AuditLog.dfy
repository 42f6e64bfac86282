/**
  The hash-chained audit log: what each stored line must satisfy, the verifier
  that walks the file, and the logger that appends to it with a cached tail.

  The digest stands for sha256_canonical({prev_hash, event}); it is any function
  from the previous hash and the event to text. A missing file reads as no lines.
 */
module AuditLog {
  import opened Wrappers

  datatype Json =
    | Null
    | Bool(b: bool)
    | Num(n: int)
    | Str(s: string)
    | Arr(items: seq<Json>)
    | Obj(fields: map<string, Json>)

  type Event = map<string, Json>
  type Digest = (Json, Event) -> string

  /** One line of the file: whitespace, text that is not JSON, a JSON value that is no object, or a row. */
  datatype Line = Blank | Garbage | NotAnObject | Row(record: Event)

  /** Intact, broken at a line, or stopped by an exception at a line; lines count from 1. */
  datatype Verdict = Intact | Broken(at: nat) | Crashed(at: nat)

  ghost predicate CollisionFree(h: Digest) {
    && (forall p, e, q, f :: h(p, e) == h(q, f) ==> p == q && e == f)
    && (forall p, e :: h(p, e) != "")
  }

  /** record.get(key): a missing key and a null both read as None. */
  function Get(r: Event, key: string): Json {
    if key in r then r[key] else Null
  }

  predicate Falsy(j: Json) {
    j in {Null, Bool(false), Num(0), Str(""), Arr([]), Obj(map[])}
  }

  predicate IsEvent(e: Event) {
    "prev_hash" !in e && "row_hash" !in e
  }

  function Payload(r: Event): (e: Event)
    ensures IsEvent(e)
  {
    r - {"prev_hash", "row_hash"}
  }

  function RowFor(h: Digest, prev: Json, e: Event): Event {
    e["prev_hash" := prev]["row_hash" := Str(h(prev, e))]
  }

  /** The hash that a fresh logger reads back: the last parseable row's row_hash, or "". */
  function TailOf(lines: seq<Line>): Json {
    if lines == [] then Str("")
    else
      var x := lines[|lines| - 1];
      if x.Row? then TailHash(x.record) else TailOf(lines[..|lines| - 1])
  }

  function TailHash(r: Event): Json {
    if Falsy(Get(r, "row_hash")) then Str("") else Get(r, "row_hash")
  }

  /** A line that follows the given lines without breaking the chain. */
  predicate Links(h: Digest, before: seq<Line>, x: Line) {
    x.Blank? || (x.Row? && LinksTo(h, TailOf(before), x.record))
  }

  predicate LinksTo(h: Digest, prev: Json, r: Event) {
    Get(r, "prev_hash") == prev && Get(r, "row_hash") == Str(h(prev, Payload(r)))
  }

  /** The first line that does not link to the lines before it. */
  function VerdictOn(h: Digest, lines: seq<Line>): Verdict {
    if lines == [] then Intact
    else
      var n := |lines| - 1;
      var v := VerdictOn(h, lines[..n]);
      if v != Intact || Links(h, lines[..n], lines[n]) then v
      else if lines[n].NotAnObject? then Crashed(n + 1)
      else Broken(n + 1)
  }

  function RowsOf(lines: seq<Line>): seq<Event> {
    if lines == [] then []
    else
      var n := |lines| - 1;
      RowsOf(lines[..n]) + if lines[n].Row? then [lines[n].record] else []
  }

  // ------------------------------------------------------------ verifier

  /** A verdict pins down the first faulty line: everything before it links, it does not. */
  lemma {:induction false} VerdictIsFirstFault(h: Digest, lines: seq<Line>, k: nat)
    requires k < |lines|
    ensures VerdictOn(h, lines) in {Broken(k + 1), Crashed(k + 1)} <==>
            (forall i :: 0 <= i < k ==> Links(h, lines[..i], lines[i])) && !Links(h, lines[..k], lines[k])
    ensures VerdictOn(h, lines) == Crashed(k + 1) ==> lines[k].NotAnObject?
    ensures VerdictOn(h, lines).Intact? ==> Links(h, lines[..k], lines[k])
  {
    var n := |lines| - 1;
    var init := lines[..n];
    if k < n {
      VerdictIsFirstFault(h, init, k);
      assert forall i :: 0 <= i <= k ==> init[..i] == lines[..i];
      VerdictWithin(h, init);
    } else {
      forall i | 0 <= i < n ensures VerdictOn(h, init).Intact? ==> Links(h, lines[..i], lines[i]) {
        VerdictIsFirstFault(h, init, i);
        assert init[..i] == lines[..i];
      }
      VerdictWithin(h, init);
      if !VerdictOn(h, init).Intact? {
        var m := VerdictOn(h, init).at - 1;
        VerdictIsFirstFault(h, init, m);
        assert init[..m] == lines[..m];
      }
    }
  }

  lemma {:induction false} VerdictWithin(h: Digest, lines: seq<Line>)
    ensures VerdictOn(h, lines).Intact? || 1 <= VerdictOn(h, lines).at <= |lines|
  {
    if lines != [] {
      VerdictWithin(h, lines[..|lines| - 1]);
    }
  }

  /** Whatever is appended to a log that is already faulty, the reported line stays. */
  lemma {:induction false} AppendKeepsFault(h: Digest, lines: seq<Line>, more: seq<Line>)
    requires !VerdictOn(h, lines).Intact?
    ensures VerdictOn(h, lines + more) == VerdictOn(h, lines)
  {
    if more == [] {
      assert lines + more == lines;
    } else {
      var n := |more| - 1;
      assert (lines + more)[..|lines + more| - 1] == lines + more[..n];
      AppendKeepsFault(h, lines, more[..n]);
    }
  }

  method VerifyChain(h: Digest, lines: seq<Line>) returns (v: Verdict)
    ensures v == VerdictOn(h, lines)
  {
    var prev := Str("");
    for i := 0 to |lines|
      invariant VerdictOn(h, lines[..i]).Intact? && prev == TailOf(lines[..i])
    {
      assert lines[..i + 1][..i] == lines[..i];
      assert lines[..i + 1] + lines[i + 1..] == lines;
      match lines[i] {
        case Blank =>
        case Garbage =>
          AppendKeepsFault(h, lines[..i + 1], lines[i + 1..]);
          return Broken(i + 1);
        case NotAnObject =>
          AppendKeepsFault(h, lines[..i + 1], lines[i + 1..]);
          return Crashed(i + 1);
        case Row(record) =>
          if Get(record, "prev_hash") != prev || Str(h(prev, Payload(record))) != Get(record, "row_hash") {
            AppendKeepsFault(h, lines[..i + 1], lines[i + 1..]);
            return Broken(i + 1);
          }
          prev := record["row_hash"];
      }
    }
    assert lines[..|lines|] == lines;
    return Intact;
  }

  // ------------------------------------------- what an intact log is

  /** Line j is the last row before line k. */
  ghost predicate IsLastRow(lines: seq<Line>, k: nat, j: nat)
    requires k <= |lines|
  {
    j < k && lines[j].Row? && forall m :: j < m < k ==> !lines[m].Row?
  }

  ghost predicate NoRowBefore(lines: seq<Line>, k: nat)
    requires k <= |lines|
  {
    forall m :: 0 <= m < k ==> !lines[m].Row?
  }

  /** The two chain fields of a row fit together with all its other fields. */
  ghost predicate HashFits(h: Digest, r: Event) {
    && "prev_hash" in r && "row_hash" in r
    && r["row_hash"] == Str(h(r["prev_hash"], map key | key in r && key != "prev_hash" && key != "row_hash" :: r[key]))
  }

  /**
    Line k is blank, or a row whose hash fits its other fields and whose
    previous hash is the hash of the last row before it, or empty without one.
   */
  ghost predicate Chained(h: Digest, lines: seq<Line>, k: nat)
    requires k < |lines|
  {
    lines[k].Blank? ||
    (&& lines[k].Row? && HashFits(h, lines[k].record)
     && (NoRowBefore(lines, k) ==> lines[k].record["prev_hash"] == Str(""))
     && forall j: nat :: IsLastRow(lines, k, j) ==>
          "row_hash" in lines[j].record && lines[k].record["prev_hash"] == lines[j].record["row_hash"])
  }

  lemma {:induction false} TailWithoutRows(lines: seq<Line>, k: nat)
    requires k <= |lines| && NoRowBefore(lines, k)
    ensures TailOf(lines[..k]) == Str("")
  {
    if k > 0 {
      TailWithoutRows(lines, k - 1);
      assert lines[..k][..k - 1] == lines[..k - 1];
    }
  }

  /** A fresh logger reads back the last row's hash, and the empty text for one that Python takes as false. */
  lemma {:induction false} TailIsLastRowHash(lines: seq<Line>, k: nat, j: nat)
    requires k <= |lines| && IsLastRow(lines, k, j)
    ensures TailOf(lines[..k]) ==
            if "row_hash" in lines[j].record && lines[j].record["row_hash"] !in {Null, Bool(false), Num(0), Str(""), Arr([]), Obj(map[])}
            then lines[j].record["row_hash"] else Str("")
  {
    assert lines[..k][..k - 1] == lines[..k - 1];
    if j < k - 1 { TailIsLastRowHash(lines, k - 1, j); }
  }

  lemma PayloadIsRest(r: Event)
    ensures Payload(r) == map key | key in r && key != "prev_hash" && key != "row_hash" :: r[key]
  {
  }

  lemma {:induction false} SomeLastRow(lines: seq<Line>, k: nat) returns (j: nat)
    requires k <= |lines| && !NoRowBefore(lines, k)
    ensures IsLastRow(lines, k, j)
  {
    if lines[k - 1].Row? {
      j := k - 1;
    } else {
      j := SomeLastRow(lines, k - 1);
    }
  }

  /** After lines that are all chained, a line links exactly when it is chained itself. */
  lemma LinksIffChained(h: Digest, lines: seq<Line>, k: nat)
    requires k < |lines| && forall i :: 0 <= i < k ==> Chained(h, lines, i)
    ensures Links(h, lines[..k], lines[k]) <==> Chained(h, lines, k)
  {
    hide Payload, TailOf;
    if lines[k].Row? {
      PayloadIsRest(lines[k].record);
      if NoRowBefore(lines, k) {
        TailWithoutRows(lines, k);
      } else {
        var j := SomeLastRow(lines, k);
        assert Chained(h, lines, j);
        OneLastRow(lines, k, j);
        TailIsLastRowHash(lines, k, j);
      }
    }
  }

  lemma OneLastRow(lines: seq<Line>, k: nat, j: nat)
    requires k <= |lines| && IsLastRow(lines, k, j)
    ensures forall i: nat :: IsLastRow(lines, k, i) ==> i == j
  {
  }

  /**
    A log verifies exactly when every line of it is blank or a row chained to
    the last row before it. Otherwise the verdict is at the first line that is
    not: a crash on a JSON value that is no object, else a break, as on text
    that is not JSON.
   */
  lemma VerdictFromLines(h: Digest, lines: seq<Line>)
    ensures VerdictOn(h, lines).Intact? <==> forall k :: 0 <= k < |lines| ==> Chained(h, lines, k)
    ensures forall k :: 0 <= k < |lines| && !Chained(h, lines, k) && (forall i :: 0 <= i < k ==> Chained(h, lines, i)) ==>
              VerdictOn(h, lines) == if lines[k].NotAnObject? then Crashed(k + 1) else Broken(k + 1)
  {
    hide Links, Chained;
    forall k | 0 <= k < |lines| && !Chained(h, lines, k) && (forall i :: 0 <= i < k ==> Chained(h, lines, i))
      ensures VerdictOn(h, lines) == if lines[k].NotAnObject? then Crashed(k + 1) else Broken(k + 1)
    {
      FirstUnchained(h, lines, k);
    }
    if forall k :: 0 <= k < |lines| ==> Chained(h, lines, k) {
      AllChained(h, lines, |lines|);
      assert lines[..|lines|] == lines;
    } else {
      var k := LeastUnchained(h, lines);
    }
  }

  lemma {:induction false} AllChained(h: Digest, lines: seq<Line>, n: nat)
    requires n <= |lines| && forall k :: 0 <= k < n ==> Chained(h, lines, k)
    ensures VerdictOn(h, lines[..n]).Intact?
  {
    hide Links, Chained;
    if n > 0 {
      AllChained(h, lines, n - 1);
      LinksIffChained(h, lines, n - 1);
      assert lines[..n][..n - 1] == lines[..n - 1];
    }
  }

  lemma FirstUnchained(h: Digest, lines: seq<Line>, k: nat)
    requires k < |lines| && !Chained(h, lines, k) && forall i :: 0 <= i < k ==> Chained(h, lines, i)
    ensures VerdictOn(h, lines) == if lines[k].NotAnObject? then Crashed(k + 1) else Broken(k + 1)
  {
    hide Links, Chained;
    AllChained(h, lines, k);
    LinksIffChained(h, lines, k);
    var upTo := lines[..k + 1];
    assert upTo[..k] == lines[..k];
    assert upTo + lines[k + 1..] == lines;
    AppendKeepsFault(h, upTo, lines[k + 1..]);
  }

  lemma LeastUnchained(h: Digest, lines: seq<Line>) returns (k: nat)
    requires exists i :: 0 <= i < |lines| && !Chained(h, lines, i)
    ensures k < |lines| && !Chained(h, lines, k) && forall i :: 0 <= i < k ==> Chained(h, lines, i)
  {
    hide Chained;
    k := 0;
    while Chained(h, lines, k)
      invariant k < |lines| && forall i :: 0 <= i < k ==> Chained(h, lines, i)
      decreases |lines| - k
    {
      k := k + 1;
    }
  }

  // ------------------------------------------- the last hash fixes the log

  lemma RowIsItsParts(r: Event, s: Event)
    requires Payload(r) == Payload(s)
    requires "prev_hash" in r && "prev_hash" in s && r["prev_hash"] == s["prev_hash"]
    requires "row_hash" in r && "row_hash" in s && r["row_hash"] == s["row_hash"]
    ensures r == s
  {
    forall k ensures (k in r <==> k in s) && (k in r && k in s ==> r[k] == s[k]) {
      assert k in Payload(r) <==> k in r && k !in {"prev_hash", "row_hash"};
      assert k in Payload(s) <==> k in s && k !in {"prev_hash", "row_hash"};
      assert k in Payload(r) ==> Payload(r)[k] == r[k] && Payload(s)[k] == s[k];
    }
  }

  lemma {:induction false} TailOfRowless(lines: seq<Line>)
    requires RowsOf(lines) == []
    ensures TailOf(lines) == Str("")
  {
    if lines != [] {
      TailOfRowless(lines[..|lines| - 1]);
    }
  }

  /** An intact log with rows ends in a linked row; the log before that row is intact too. */
  lemma {:induction false} LastRow(h: Digest, lines: seq<Line>) returns (k: nat)
    requires VerdictOn(h, lines).Intact? && RowsOf(lines) != [] && CollisionFree(h)
    ensures k < |lines| && lines[k].Row? && VerdictOn(h, lines[..k]).Intact?
    ensures LinksTo(h, TailOf(lines[..k]), lines[k].record)
    ensures TailOf(lines) == Str(h(TailOf(lines[..k]), Payload(lines[k].record)))
    ensures RowsOf(lines) == RowsOf(lines[..k]) + [lines[k].record]
  {
    var n := |lines| - 1;
    if lines[n].Row? {
      k := n;
    } else {
      k := LastRow(h, lines[..n]);
      assert lines[..n][..k] == lines[..k];
    }
  }

  lemma {:induction false} TailStartsChain(h: Digest, lines: seq<Line>)
    requires VerdictOn(h, lines).Intact? && CollisionFree(h)
    ensures TailOf(lines).Str?
    ensures TailOf(lines) == Str("") <==> RowsOf(lines) == []
  {
    if RowsOf(lines) == [] {
      TailOfRowless(lines);
    } else {
      var k := LastRow(h, lines);
    }
  }

  /**
    Two logs that both verify and end in the same hash hold the same rows in the
    same order, so no earlier edit, deletion, insertion or reordering that keeps
    the last hash passes the verifier.
   */
  lemma {:induction false} LastHashFixesLog(h: Digest, a: seq<Line>, b: seq<Line>)
    requires CollisionFree(h)
    requires VerdictOn(h, a).Intact? && VerdictOn(h, b).Intact? && TailOf(a) == TailOf(b)
    ensures RowsOf(a) == RowsOf(b)
    decreases |a|
  {
    TailStartsChain(h, a);
    TailStartsChain(h, b);
    if RowsOf(a) != [] {
      var i := LastRow(h, a);
      var j := LastRow(h, b);
      TailStartsChain(h, a[..i]);
      TailStartsChain(h, b[..j]);
      RowIsItsParts(a[i].record, b[j].record);
      LastHashFixesLog(h, a[..i], b[..j]);
    }
  }

  /** Hence the tail of a log that verifies and ends in a row was never its tail before. */
  lemma TailIsNew(h: Digest, lines: seq<Line>, i: nat)
    requires CollisionFree(h) && VerdictOn(h, lines).Intact?
    requires i < |lines| && lines[|lines| - 1].Row?
    ensures TailOf(lines[..i]) != TailOf(lines)
  {
    PrefixIntact(h, lines, i);
    RowsGrow(lines, i, |lines| - 1);
    if TailOf(lines[..i]) == TailOf(lines) {
      LastHashFixesLog(h, lines[..i], lines);
    }
  }

  lemma {:induction false} PrefixIntact(h: Digest, lines: seq<Line>, i: nat)
    requires i <= |lines| && VerdictOn(h, lines).Intact?
    ensures VerdictOn(h, lines[..i]).Intact?
  {
    if i < |lines| {
      PrefixIntact(h, lines[..|lines| - 1], i);
      assert lines[..|lines| - 1][..i] == lines[..i];
    } else {
      assert lines[..i] == lines;
    }
  }

  lemma {:induction false} RowsGrow(lines: seq<Line>, i: nat, j: nat)
    requires i <= j <= |lines|
    ensures |RowsOf(lines[..i])| <= |RowsOf(lines[..j])|
    decreases j
  {
    if i < j {
      RowsGrow(lines, i, j - 1);
      assert lines[..j][..j - 1] == lines[..j - 1];
    }
  }

  // ------------------------------------------------------------ writing

  lemma WrittenRowLinks(h: Digest, prev: Json, e: Event)
    requires IsEvent(e)
    ensures Payload(RowFor(h, prev, e)) == e
    ensures LinksTo(h, prev, RowFor(h, prev, e))
    ensures forall other :: other != prev ==> !LinksTo(h, other, RowFor(h, prev, e))
  {
    assert Payload(RowFor(h, prev, e)) == e;
  }

  /** Appending a row hashed over prev keeps a log intact exactly when prev is its tail. */
  lemma AppendIntactIffTail(h: Digest, lines: seq<Line>, prev: Json, e: Event)
    requires IsEvent(e) && h(prev, e) != ""
    ensures VerdictOn(h, lines + [Row(RowFor(h, prev, e))]).Intact? <==>
            VerdictOn(h, lines).Intact? && prev == TailOf(lines)
    ensures TailOf(lines + [Row(RowFor(h, prev, e))]) == Str(h(prev, e))
  {
    WrittenRowLinks(h, prev, e);
    assert (lines + [Row(RowFor(h, prev, e))])[..|lines|] == lines;
  }

  class LogFile {
    var lines: seq<Line>

    constructor ()
      ensures lines == []
    {
      lines := [];
    }
  }

  class AuditLogger {
    const file: LogFile
    var tailHash: Option<Json>

    constructor (file: LogFile)
      ensures this.file == file && tailHash.None?
    {
      this.file := file;
      tailHash := None;
    }

    /** True while no one else has appended since this logger last looked. */
    predicate Synced()
      reads this, file
    {
      tailHash.None? || tailHash.value == TailOf(file.lines)
    }

    function NextPrev(): Json
      reads this, file
    {
      if tailHash.Some? then tailHash.value else TailOf(file.lines)
    }

    method LoadTailHash() returns (prev: Json)
      modifies this
      ensures prev == old(NextPrev()) && tailHash == Some(prev)
    {
      if tailHash.Some? {
        return tailHash.value;
      }
      var last := Str("");
      var lines := file.lines;
      for i := 0 to |lines|
        invariant last == TailOf(lines[..i])
        invariant file.lines == lines
      {
        assert lines[..i + 1][..i] == lines[..i];
        if lines[i].Row? {
          last := TailHash(lines[i].record);
        }
      }
      assert lines[..|lines|] == lines;
      tailHash := Some(last);
      return last;
    }

    /**
      Append one row. The log stays intact exactly when it was intact and this
      logger's view of the tail was current; afterwards that view is current.
     */
    method Write(h: Digest, event: Event) returns (record: Event)
      requires IsEvent(event) && forall p, e :: h(p, e) != ""
      modifies this, file
      ensures record == RowFor(h, old(NextPrev()), event)
      ensures file.lines == old(file.lines) + [Row(record)]
      ensures Synced() && tailHash == Some(record["row_hash"])
      ensures VerdictOn(h, file.lines).Intact? <==> old(VerdictOn(h, file.lines).Intact? && Synced())
      ensures old(!VerdictOn(h, file.lines).Intact?) ==> VerdictOn(h, file.lines) == old(VerdictOn(h, file.lines))
    {
      ghost var before := file.lines;
      var prev := LoadTailHash();
      record := RowFor(h, prev, event);
      AppendIntactIffTail(h, before, prev, event);
      if !VerdictOn(h, before).Intact? {
        AppendKeepsFault(h, before, [Row(record)]);
      }
      file.lines := file.lines + [Row(record)];
      tailHash := Some(record["row_hash"]);
    }
  }

  // ----------------------------------------------- many loggers, one file

  /** One write: which logger object made it, and the event. A restart is a new logger. */
  datatype Write = Write(logger: nat, event: Event)

  datatype World = World(lines: seq<Line>, tails: map<nat, Json>)

  function PrevFor(w: World, logger: nat): Json {
    if logger in w.tails then w.tails[logger] else TailOf(w.lines)
  }

  function Next(h: Digest, w: World, x: Write): World {
    var prev := PrevFor(w, x.logger);
    World(w.lines + [Row(RowFor(h, prev, x.event))], w.tails[x.logger := Str(h(prev, x.event))])
  }

  function After(h: Digest, base: seq<Line>, ws: seq<Write>): (w: World)
    ensures |w.lines| == |base| + |ws|
  {
    if ws == [] then World(base, map[]) else Next(h, After(h, base, ws[..|ws| - 1]), ws[|ws| - 1])
  }

  /** No logger writes, lets another write, and then writes again. */
  ghost predicate TakeTurns(ws: seq<Write>) {
    forall i, j, k :: 0 <= i < j < k < |ws| && ws[i].logger == ws[k].logger ==> ws[j].logger == ws[i].logger
  }

  lemma {:induction false} LinesOnlyGrow(h: Digest, base: seq<Line>, ws: seq<Write>, n: nat)
    requires n <= |ws|
    ensures After(h, base, ws).lines[..|base| + n] == After(h, base, ws[..n]).lines
  {
    if n < |ws| {
      LinesOnlyGrow(h, base, ws[..|ws| - 1], n);
      assert ws[..|ws| - 1][..n] == ws[..n];
    } else {
      assert ws[..n] == ws;
    }
  }

  /** The last write of a run: it links exactly when the writer's cached tail is current. */
  lemma LastWrite(h: Digest, base: seq<Line>, ws: seq<Write>)
    requires ws != [] && IsEvent(ws[|ws| - 1].event) && forall p, e :: h(p, e) != ""
    ensures var x, w, w' := ws[|ws| - 1], After(h, base, ws[..|ws| - 1]), After(h, base, ws);
            && w'.tails == w.tails[x.logger := TailOf(w'.lines)]
            && w'.lines[|w'.lines| - 1].Row?
            && (VerdictOn(h, w'.lines).Intact? <==>
                VerdictOn(h, w.lines).Intact? && PrevFor(w, x.logger) == TailOf(w.lines))
  {
    var x, w := ws[|ws| - 1], After(h, base, ws[..|ws| - 1]);
    AppendIntactIffTail(h, w.lines, PrevFor(w, x.logger), x.event);
  }

  /** A logger's cached tail is the tail right after its own last write. */
  lemma {:induction false} CachedTail(h: Digest, base: seq<Line>, ws: seq<Write>, l: nat) returns (n: nat)
    requires forall i :: 0 <= i < |ws| ==> IsEvent(ws[i].event)
    requires forall p, e :: h(p, e) != ""
    requires l in After(h, base, ws).tails
    ensures n < |ws| && ws[n].logger == l && forall m :: n < m < |ws| ==> ws[m].logger != l
    ensures After(h, base, ws).tails[l] == TailOf(After(h, base, ws[..n + 1]).lines)
  {
    hide VerdictOn, RowFor;
    var last := |ws| - 1;
    var w, w' := After(h, base, ws[..last]), After(h, base, ws);
    assert w'.tails == w.tails[ws[last].logger := TailOf(w'.lines)] by { LastWrite(h, base, ws); }
    if ws[last].logger == l {
      n := last;
      assert ws[..n + 1] == ws;
    } else {
      n := CachedTail(h, base, ws[..last], l);
      assert ws[..last][..n + 1] == ws[..n + 1];
    }
  }

  lemma {:induction false} LoggersSeen(h: Digest, base: seq<Line>, ws: seq<Write>, l: nat)
    ensures l in After(h, base, ws).tails <==> exists n :: 0 <= n < |ws| && ws[n].logger == l
  {
    if ws != [] {
      LoggersSeen(h, base, ws[..|ws| - 1], l);
    }
  }

  /**
    Any number of loggers write to one log that verifies: it still verifies at
    the end exactly when no logger comes back after another one has written.
   */
  lemma {:induction false} IntactIffLoggersTakeTurns(h: Digest, base: seq<Line>, ws: seq<Write>)
    requires CollisionFree(h) && VerdictOn(h, base).Intact?
    requires forall i :: 0 <= i < |ws| ==> IsEvent(ws[i].event)
    ensures VerdictOn(h, After(h, base, ws).lines).Intact? <==> TakeTurns(ws)
  {
    if ws != [] {
      var init := ws[..|ws| - 1];
      IntactIffLoggersTakeTurns(h, base, init);
      LastWrite(h, base, ws);
      assert TakeTurns(ws) ==> TakeTurns(init);
      if TakeTurns(init) {
        PrevIsCurrentIffTurn(h, base, ws);
      }
    }
  }

  lemma PrevIsCurrentIffTurn(h: Digest, base: seq<Line>, ws: seq<Write>)
    requires CollisionFree(h) && ws != [] && TakeTurns(ws[..|ws| - 1])
    requires forall i :: 0 <= i < |ws| ==> IsEvent(ws[i].event)
    requires VerdictOn(h, After(h, base, ws[..|ws| - 1]).lines).Intact?
    ensures var w := After(h, base, ws[..|ws| - 1]);
            PrevFor(w, ws[|ws| - 1].logger) == TailOf(w.lines) <==> TakeTurns(ws)
  {
    var last := |ws| - 1;
    var init, l := ws[..last], ws[last].logger;
    LoggersSeen(h, base, init, l);
    if l in After(h, base, init).tails {
      var n := CachedIsCurrentIffLast(h, base, init, l);
      TurnIffLastWriter(ws, n);
    } else {
      NewWriterTakesTurn(ws);
    }
  }

  lemma CachedIsCurrentIffLast(h: Digest, base: seq<Line>, ws: seq<Write>, l: nat) returns (n: nat)
    requires CollisionFree(h) && forall i :: 0 <= i < |ws| ==> IsEvent(ws[i].event)
    requires VerdictOn(h, After(h, base, ws).lines).Intact? && l in After(h, base, ws).tails
    ensures n < |ws| && ws[n].logger == l && forall m :: n < m < |ws| ==> ws[m].logger != l
    ensures After(h, base, ws).tails[l] == TailOf(After(h, base, ws).lines) <==> n == |ws| - 1
  {
    n := CachedTail(h, base, ws, l);
    if n == |ws| - 1 {
      assert ws[..n + 1] == ws;
    } else {
      LaterWritesExtend(h, base, ws, n);
      ExtendingChangesTail(h, After(h, base, ws).lines, After(h, base, ws[..n + 1]).lines);
    }
  }

  lemma NewWriterTakesTurn(ws: seq<Write>)
    requires ws != [] && TakeTurns(ws[..|ws| - 1])
    requires forall n :: 0 <= n < |ws| - 1 ==> ws[n].logger != ws[|ws| - 1].logger
    ensures TakeTurns(ws)
  {
    var init := ws[..|ws| - 1];
    forall i, j, k | 0 <= i < j < k < |ws| && ws[i].logger == ws[k].logger ensures ws[j].logger == ws[i].logger {
      assert init[i].logger == init[k].logger && init[j] == ws[j];
    }
  }

  lemma TurnIffLastWriter(ws: seq<Write>, n: nat)
    requires ws != [] && n < |ws| - 1 && TakeTurns(ws[..|ws| - 1]) && ws[n].logger == ws[|ws| - 1].logger
    requires forall m :: n < m < |ws| - 1 ==> ws[m].logger != ws[n].logger
    ensures n == |ws| - 2 <==> TakeTurns(ws)
  {
    var last := |ws| - 1;
    var init := ws[..last];
    if n < last - 1 {
      assert ws[n + 1].logger != ws[n].logger;
    } else {
      forall i, j, k | 0 <= i < j < k < |ws| && ws[i].logger == ws[k].logger ensures ws[j].logger == ws[i].logger {
        if k < last {
          assert init[i].logger == init[k].logger && init[j] == ws[j];
        } else if j < n {
          assert init[i].logger == init[n].logger && init[j] == ws[j];
        }
      }
    }
  }

  ghost predicate Extends(lines: seq<Line>, early: seq<Line>) {
    early < lines && lines[|lines| - 1].Row?
  }

  lemma LaterWritesExtend(h: Digest, base: seq<Line>, ws: seq<Write>, n: nat)
    requires n < |ws| - 1
    ensures Extends(After(h, base, ws).lines, After(h, base, ws[..n + 1]).lines)
  {
    LinesOnlyGrow(h, base, ws, n + 1);
  }

  lemma ExtendingChangesTail(h: Digest, lines: seq<Line>, early: seq<Line>)
    requires CollisionFree(h) && VerdictOn(h, lines).Intact? && Extends(lines, early)
    ensures TailOf(early) != TailOf(lines)
  {
    assert early == lines[..|early|];
    TailIsNew(h, lines, |early|);
  }

  /** Two loggers on one path, the first writing again after the second: the verifier rejects the log. */
  lemma TwoLoggersBreakTheChain(h: Digest, e0: Event, e1: Event, e2: Event)
    requires CollisionFree(h) && IsEvent(e0) && IsEvent(e1) && IsEvent(e2)
    ensures VerdictOn(h, After(h, [], [Write(0, e0), Write(1, e1), Write(0, e2)]).lines) == Broken(3)
  {
    var ws := [Write(0, e0), Write(1, e1), Write(0, e2)];
    IntactIffLoggersTakeTurns(h, [], ws);
    assert ws[0].logger == ws[2].logger && ws[1].logger != ws[0].logger;
    IntactIffLoggersTakeTurns(h, [], ws[..2]);
  }
}
