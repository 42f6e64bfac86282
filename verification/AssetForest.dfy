/**
  The asset hierarchy: a list of rows with unique ids and parent links, its
  forest invariant, and the meaning of one create or update call.

  Rows are named by their position in the list, which plays the part of the
  reference to the row that the store's loops pass around.
 */
module AssetForest {
  import opened Wrappers

  type Attributes = map<string, string>

  datatype Asset = Asset(
    id: string, tenantId: string, parentId: Option<string>,
    assetType: string, name: string, attributes: Attributes,
    created: string, updated: string)

  type Rows = seq<Asset>

  // ---------------------------------------------------------------- lookup

  /** The first row of a tenant with the given id; the empty id names no row. */
  function Find(rows: Rows, tenant: string, id: string): (r: Option<nat>)
    ensures r.Some? ==>
              && id != ""
              && r.value < |rows| && rows[r.value].tenantId == tenant && rows[r.value].id == id
    ensures r.None? ==> id == "" || forall i :: 0 <= i < |rows| ==> !(rows[i].tenantId == tenant && rows[i].id == id)
  {
    if id == "" then None else FindFrom(rows, tenant, id, 0)
  }

  function FindFrom(rows: Rows, tenant: string, id: string, n: nat): (r: Option<nat>)
    requires n <= |rows|
    ensures r.Some? ==> n <= r.value < |rows| && rows[r.value].tenantId == tenant && rows[r.value].id == id
    ensures r.None? ==> forall i :: n <= i < |rows| ==> !(rows[i].tenantId == tenant && rows[i].id == id)
    decreases |rows| - n
  {
    if n == |rows| then None
    else if rows[n].tenantId == tenant && rows[n].id == id then Some(n)
    else FindFrom(rows, tenant, id, n + 1)
  }

  predicate IsAsset(x: Asset, tenant: string, id: string) {
    x.tenantId == tenant && x.id == id
  }

  lemma {:induction false} FindFromIsFirst(rows: Rows, tenant: string, id: string, n: nat, i: nat)
    requires n <= i < |rows| && IsAsset(rows[i], tenant, id) && forall k :: n <= k < i ==> !IsAsset(rows[k], tenant, id)
    ensures FindFrom(rows, tenant, id, n) == Some(i)
    decreases i - n
  {
    if n < i {
      assert !IsAsset(rows[n], tenant, id);
      FindFromIsFirst(rows, tenant, id, n + 1, i);
    }
  }

  lemma {:induction false} FindFromSkips(rows: Rows, tenant: string, id: string, n: nat, k: nat)
    requires n <= k < |rows| && IsAsset(rows[k], tenant, id)
    ensures FindFrom(rows, tenant, id, n).Some? && FindFrom(rows, tenant, id, n).value <= k
    decreases k - n
  {
    if n < k { FindFromSkips(rows, tenant, id, n + 1, k); }
  }

  /** Find answers the first row of the tenant with a nonempty id, and no other. */
  lemma FindIsFirst(rows: Rows, tenant: string, id: string, i: nat)
    ensures Find(rows, tenant, id) == Some(i) <==>
            && id != "" && i < |rows| && IsAsset(rows[i], tenant, id)
            && forall k :: 0 <= k < i ==> !IsAsset(rows[k], tenant, id)
  {
    if Find(rows, tenant, id) == Some(i) {
      forall k | 0 <= k < i ensures !IsAsset(rows[k], tenant, id) {
        if IsAsset(rows[k], tenant, id) { FindFromSkips(rows, tenant, id, 0, k); }
      }
    }
    if id != "" && i < |rows| && IsAsset(rows[i], tenant, id) && forall k :: 0 <= k < i ==> !IsAsset(rows[k], tenant, id) {
      FindFromIsFirst(rows, tenant, id, 0, i);
    }
  }

  /** The row a parent link leads to, inside the row's own tenant. */
  function Parent(rows: Rows, i: nat): (r: Option<nat>)
    requires i < |rows|
    ensures r.Some? ==>
              && r.value < |rows| && rows[r.value].tenantId == rows[i].tenantId
              && rows[i].parentId == Some(rows[r.value].id)
  {
    match rows[i].parentId
    case None => None
    case Some(p) => Find(rows, rows[i].tenantId, p)
  }

  /** Every entry names a stored row. */
  predicate InStore(rows: Rows, at: seq<nat>) {
    forall k :: 0 <= k < |at| ==> at[k] < |rows|
  }

  // ---------------------------------------------------------------- forest

  /** Ids are unique and nonempty, and every parent is present in the same tenant. */
  ghost predicate WellLinked(rows: Rows) {
    && (forall i :: 0 <= i < |rows| ==> rows[i].id != "")
    && (forall i, j :: 0 <= i < |rows| && 0 <= j < |rows| && rows[i].id == rows[j].id ==> i == j)
    && (forall i :: 0 <= i < |rows| && rows[i].parentId.Some? ==> Parent(rows, i).Some?)
  }

  /** A rank that falls along every parent link: a witness that no chain of parents loops. */
  ghost predicate Ranked(rows: Rows, rank: seq<nat>) {
    && |rank| == |rows|
    && forall i :: 0 <= i < |rows| && Parent(rows, i).Some? ==> rank[Parent(rows, i).value] < rank[i]
  }

  ghost predicate Forest(rows: Rows) {
    WellLinked(rows) && exists rank :: Ranked(rows, rank)
  }

  ghost function Rank(rows: Rows): (rank: seq<nat>)
    requires Forest(rows)
    ensures Ranked(rows, rank)
  {
    var rank :| Ranked(rows, rank);
    rank
  }

  /** The row, its parent, its grandparent, and so on up to a root. */
  ghost function Chain(rows: Rows, i: nat): (c: seq<nat>)
    requires Forest(rows) && i < |rows|
    ensures |c| > 0 && c[0] == i
    ensures InStore(rows, c)
    decreases Rank(rows)[i]
  {
    match Parent(rows, i)
    case None => [i]
    case Some(j) => [i] + Chain(rows, j)
  }

  /** A climb from row i: each step follows a parent link and the last row has no parent. */
  ghost predicate Climb(rows: Rows, i: nat, c: seq<nat>) {
    && |c| > 0 && c[0] == i
    && InStore(rows, c)
    && (forall k :: 0 < k < |c| ==> Parent(rows, c[k - 1]) == Some(c[k]))
    && rows[c[|c| - 1]].parentId.None?
  }

  ghost predicate ReachesRoot(rows: Rows, i: nat) {
    exists c :: Climb(rows, i, c)
  }

  lemma {:induction false} ChainClimbs(rows: Rows, i: nat)
    requires Forest(rows) && i < |rows|
    ensures Climb(rows, i, Chain(rows, i))
    decreases Rank(rows)[i]
  {
    match Parent(rows, i) {
      case None =>
      case Some(j) =>
        ChainClimbs(rows, j);
        var c, t := Chain(rows, i), Chain(rows, j);
        forall k | 0 < k < |c| ensures Parent(rows, c[k - 1]) == Some(c[k]) {
          assert c[k] == t[k - 1];
          if k > 1 { assert c[k - 1] == t[k - 2]; }
        }
    }
  }

  lemma {:induction false} ClimbUnique(rows: Rows, i: nat, c: seq<nat>, d: seq<nat>)
    requires Climb(rows, i, c) && Climb(rows, i, d)
    ensures c == d
    decreases |c|
  {
    assert |c| > 1 ==> Parent(rows, c[0]) == Some(c[1]);
    assert |d| > 1 ==> Parent(rows, d[0]) == Some(d[1]);
    if |c| > 1 {
      ClimbTail(rows, i, c);
      ClimbTail(rows, i, d);
      ClimbUnique(rows, c[1], c[1..], d[1..]);
      assert c == [c[0]] + c[1..] && d == [d[0]] + d[1..];
    }
  }

  lemma ClimbTail(rows: Rows, i: nat, c: seq<nat>)
    requires Climb(rows, i, c) && |c| > 1
    ensures Climb(rows, c[1], c[1..])
  {
    var t := c[1..];
    forall k | 0 < k < |t| ensures Parent(rows, t[k - 1]) == Some(t[k]) {
      assert Parent(rows, c[k]) == Some(c[k + 1]);
    }
  }

  /** The rank invariant is no more and no less than: from every row a climb reaches a root. */
  lemma ForestIffEveryRowReachesARoot(rows: Rows)
    requires WellLinked(rows)
    ensures Forest(rows) <==> forall i :: 0 <= i < |rows| ==> ReachesRoot(rows, i)
  {
    if Forest(rows) {
      forall i | 0 <= i < |rows| ensures ReachesRoot(rows, i) {
        ChainClimbs(rows, i);
      }
    }
    if forall i :: 0 <= i < |rows| ==> ReachesRoot(rows, i) {
      var rank := seq(|rows|, i requires 0 <= i < |rows| => |SomeClimb(rows, i)|);
      forall i | 0 <= i < |rows| && Parent(rows, i).Some? ensures rank[Parent(rows, i).value] < rank[i] {
        ParentClimbIsShorter(rows, i);
      }
      assert Ranked(rows, rank);
    }
  }

  ghost function SomeClimb(rows: Rows, i: nat): (c: seq<nat>)
    requires ReachesRoot(rows, i)
    ensures Climb(rows, i, c)
  {
    var c :| Climb(rows, i, c);
    c
  }

  lemma ParentClimbIsShorter(rows: Rows, i: nat)
    requires i < |rows| && Parent(rows, i).Some?
    requires forall k :: 0 <= k < |rows| ==> ReachesRoot(rows, k)
    ensures |SomeClimb(rows, Parent(rows, i).value)| < |SomeClimb(rows, i)|
  {
    var j := Parent(rows, i).value;
    var c := SomeClimb(rows, i);
    assert |c| > 1;
    assert Parent(rows, c[0]) == Some(c[1]);
    ClimbTail(rows, i, c);
    ClimbUnique(rows, j, c[1..], SomeClimb(rows, j));
  }

  // ------------------------------------------------------- ancestors by rank

  lemma {:induction false} ChainRanks(rows: Rows, i: nat, k: nat)
    requires Forest(rows) && i < |rows| && k in Chain(rows, i)
    ensures k < |rows| && rows[k].tenantId == rows[i].tenantId
    ensures k == i || Rank(rows)[k] < Rank(rows)[i]
    decreases Rank(rows)[i]
  {
    if k != i {
      var j := Parent(rows, i).value;
      assert Chain(rows, i) == [i] + Chain(rows, j);
      ChainRanks(rows, j, k);
    }
  }

  /** The chain from an optional row; nothing above a root. */
  ghost function ChainFrom(rows: Rows, o: Option<nat>): (c: seq<nat>)
    requires Forest(rows) && (o.Some? ==> o.value < |rows|)
    ensures InStore(rows, c)
  {
    match o
    case None => []
    case Some(i) => Chain(rows, i)
  }

  /** One step up a chain; no row further up has the id just passed. */
  lemma ChainStep(rows: Rows, i: nat)
    requires Forest(rows) && i < |rows|
    ensures Chain(rows, i) == [i] + ChainFrom(rows, Parent(rows, i))
    ensures Parent(rows, i).Some? ==> Rank(rows)[Parent(rows, i).value] < Rank(rows)[i]
    ensures forall k :: k in ChainFrom(rows, Parent(rows, i)) ==> k < |rows| && rows[k].id != rows[i].id
  {
    forall k | k in ChainFrom(rows, Parent(rows, i)) ensures k < |rows| && rows[k].id != rows[i].id {
      ChainRanks(rows, Parent(rows, i).value, k);
    }
  }

  /** Row i lies strictly below the asset called a. */
  ghost predicate Below(rows: Rows, a: string, i: nat)
    requires Forest(rows) && i < |rows|
    decreases Rank(rows)[i]
  {
    match Parent(rows, i)
    case None => false
    case Some(j) => rows[j].id == a || Below(rows, a, j)
  }

  lemma {:induction false} BelowIsOnChain(rows: Rows, a: string, i: nat)
    requires Forest(rows) && i < |rows|
    ensures Below(rows, a, i) <==> rows[i].id != a && exists k :: k in Chain(rows, i) && rows[k].id == a
    decreases Rank(rows)[i]
  {
    match Parent(rows, i) {
      case None =>
      case Some(j) =>
        BelowIsOnChain(rows, a, j);
        var c, t := Chain(rows, i), Chain(rows, j);
        assert c == [i] + t;
        if Below(rows, a, i) {
          var k :| k in t && rows[k].id == a;
          ChainRanks(rows, j, k);
          assert k in c;
          assert k != i;
        }
    }
  }

  // ----------------------------------------------------------- root path

  function Reversed<T>(s: seq<T>): (r: seq<T>)
    ensures |r| == |s|
    ensures forall k :: 0 <= k < |s| ==> r[k] == s[|s| - 1 - k]
  {
    if s == [] then [] else Reversed(s[1..]) + [s[0]]
  }

  function RowsAt(rows: Rows, at: seq<nat>): (r: seq<Asset>)
    requires InStore(rows, at)
    ensures |r| == |at| && forall k :: 0 <= k < |at| ==> r[k] == rows[at[k]]
  {
    seq(|at|, k requires 0 <= k < |at| => rows[at[k]])
  }

  /** What path_to_root means: from the root down to the asset, nothing for an unknown asset. */
  ghost function RootPath(rows: Rows, tenant: string, id: string): (p: seq<Asset>)
    requires Forest(rows)
  {
    match Find(rows, tenant, id)
    case None => []
    case Some(i) => RowsAt(rows, Reversed(Chain(rows, i)))
  }

  /** A path from a parentless row down to the asset, one parent link at a time, inside one tenant. */
  ghost predicate IsRootPath(rows: Rows, tenant: string, id: string, p: seq<Asset>) {
    && |p| > 0
    && p[0].parentId.None?
    && (forall k :: 0 < k < |p| ==> p[k].parentId == Some(p[k - 1].id))
    && p[|p| - 1].id == id
    && (forall k :: 0 <= k < |p| ==> p[k] in rows && p[k].tenantId == tenant)
  }

  lemma RootPathIsTheRootPath(rows: Rows, tenant: string, id: string)
    requires Forest(rows) && Find(rows, tenant, id).Some?
    ensures IsRootPath(rows, tenant, id, RootPath(rows, tenant, id))
    ensures forall p :: IsRootPath(rows, tenant, id, p) ==> p == RootPath(rows, tenant, id)
  {
    var i := Find(rows, tenant, id).value;
    var c := Chain(rows, i);
    var q := RootPath(rows, tenant, id);
    ChainClimbs(rows, i);
    forall k | 0 <= k < |c| ensures rows[c[k]].tenantId == tenant {
      assert c[k] in c;
      ChainRanks(rows, i, c[k]);
    }
    forall k | 0 < k < |q| ensures q[k].parentId == Some(q[k - 1].id) {
      assert Parent(rows, c[|c| - 1 - k]) == Some(c[|c| - k]);
    }
    assert IsRootPath(rows, tenant, id, q);
    forall p | IsRootPath(rows, tenant, id, p) ensures p == q {
      RootPathsAgree(rows, tenant, id, p, q);
    }
  }

  lemma {:induction false} RootPathsAgree(rows: Rows, tenant: string, id: string, p: seq<Asset>, q: seq<Asset>)
    requires WellLinked(rows)
    requires IsRootPath(rows, tenant, id, p) && IsRootPath(rows, tenant, id, q)
    ensures p == q
    decreases |p|
  {
    var x, y := p[|p| - 1], q[|q| - 1];
    SameIdSameRow(rows, x, y);
    assert |p| > 1 ==> x.parentId == Some(p[|p| - 2].id);
    assert |q| > 1 ==> y.parentId == Some(q[|q| - 2].id);
    if |p| == 1 {
      assert p == [x] && q == [y];
    } else {
      var p', q' := p[..|p| - 1], q[..|q| - 1];
      assert p'[|p'| - 1].id == q'[|q'| - 1].id;
      RootPathsAgree(rows, tenant, p'[|p'| - 1].id, p', q');
      assert p == p' + [x] && q == q' + [y];
    }
  }

  lemma SameIdSameRow(rows: Rows, x: Asset, y: Asset)
    requires WellLinked(rows) && x in rows && y in rows && x.id == y.id
    ensures x == y
  {
    var i :| 0 <= i < |rows| && rows[i] == x;
    var j :| 0 <= j < |rows| && rows[j] == y;
  }

  /** A stored id is found at its own row. */
  lemma FindOwn(rows: Rows, i: nat)
    requires WellLinked(rows) && i < |rows|
    ensures Find(rows, rows[i].tenantId, rows[i].id) == Some(i)
  {
  }
}
