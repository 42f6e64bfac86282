/**
  The recursive queries of the Postgres store, by the working-table meaning of
  WITH RECURSIVE ... UNION ALL: level 0 is the base select, each next level joins
  the table with the level before it, and the answer is all levels together.
 */
module AssetQueries {
  import opened Wrappers
  import opened Seqs
  import opened AssetForest

  // ------------------------------------------------------- children of an id

  predicate IsChild(rows: Rows, tenant: string, parent: Option<string>, i: nat)
    requires i < |rows|
  {
    rows[i].tenantId == tenant && rows[i].parentId == parent
  }

  /** Rows of a tenant among the first n with the given parent field, in stored order. */
  function ChildrenUpTo(rows: Rows, tenant: string, parent: Option<string>, n: nat): (r: seq<nat>)
    requires n <= |rows|
    ensures InStore(rows, r)
    ensures forall i :: i in r <==> 0 <= i < n && IsChild(rows, tenant, parent, i)
    ensures Distinct(r)
  {
    if n == 0 then []
    else
      var rest := ChildrenUpTo(rows, tenant, parent, n - 1);
      if IsChild(rows, tenant, parent, n - 1) then rest + [n - 1] else rest
  }

  function Children(rows: Rows, tenant: string, parent: Option<string>): (r: seq<nat>)
    ensures InStore(rows, r)
    ensures forall i :: i in r <==> 0 <= i < |rows| && IsChild(rows, tenant, parent, i)
    ensures Distinct(r)
  {
    ChildrenUpTo(rows, tenant, parent, |rows|)
  }

  // ------------------------------------------------------- descendants query

  /** assets a JOIN sub ON a.parent_id = sub.id WHERE a.tenant_id = tenant */
  function JoinChildren(rows: Rows, tenant: string, sub: seq<nat>): (r: seq<nat>)
    requires InStore(rows, sub)
    ensures InStore(rows, r)
  {
    if sub == [] then []
    else
      Children(rows, tenant, Some(rows[sub[0]].id)) + JoinChildren(rows, tenant, sub[1..])
  }

  function SubLevel(rows: Rows, tenant: string, a: string, n: nat): (r: seq<nat>)
    ensures InStore(rows, r)
  {
    if n == 0 then Children(rows, tenant, Some(a)) else JoinChildren(rows, tenant, SubLevel(rows, tenant, a, n - 1))
  }

  /** The first n levels together. */
  function SubAll(rows: Rows, tenant: string, a: string, n: nat): (r: seq<nat>)
    ensures InStore(rows, r)
  {
    if n == 0 then [] else SubAll(rows, tenant, a, n - 1) + SubLevel(rows, tenant, a, n - 1)
  }

  /** Row i has the asset called a as its (n+1)-th ancestor. */
  ghost predicate BelowAt(rows: Rows, a: string, i: nat, n: nat)
    requires i < |rows|
    decreases n
  {
    match Parent(rows, i)
    case None => false
    case Some(j) => if n == 0 then rows[j].id == a else BelowAt(rows, a, j, n - 1)
  }

  lemma {:induction false} JoinChildrenMembers(rows: Rows, tenant: string, sub: seq<nat>, i: nat)
    requires InStore(rows, sub)
    ensures i in JoinChildren(rows, tenant, sub) <==>
            i < |rows| && exists k :: k in sub && k < |rows| && IsChild(rows, tenant, Some(rows[k].id), i)
  {
    if sub != [] {
      assert sub == [sub[0]] + sub[1..];
      JoinChildrenMembers(rows, tenant, sub[1..], i);
    }
  }

  lemma {:induction false} JoinChildrenDistinct(rows: Rows, tenant: string, sub: seq<nat>)
    requires WellLinked(rows) && Distinct(sub)
    requires InStore(rows, sub)
    ensures Distinct(JoinChildren(rows, tenant, sub))
  {
    if sub != [] {
      var rest := sub[1..];
      JoinChildrenDistinct(rows, tenant, rest);
      var here, there := Children(rows, tenant, Some(rows[sub[0]].id)), JoinChildren(rows, tenant, rest);
      forall i | i in here ensures i !in there {
        JoinChildrenMembers(rows, tenant, rest, i);
        assert forall k :: k in rest ==> k != sub[0];
      }
      DistinctConcat(here, there);
    }
  }

  lemma {:induction false} SubLevelMembers(rows: Rows, tenant: string, a: string, n: nat)
    requires Forest(rows)
    ensures Distinct(SubLevel(rows, tenant, a, n))
    ensures forall i :: 0 <= i < |rows| ==>
              (i in SubLevel(rows, tenant, a, n) <==> rows[i].tenantId == tenant && BelowAt(rows, a, i, n))
  {
    if n > 0 {
      var w := SubLevel(rows, tenant, a, n - 1);
      SubLevelMembers(rows, tenant, a, n - 1);
      JoinChildrenDistinct(rows, tenant, w);
      forall i | 0 <= i < |rows|
        ensures i in SubLevel(rows, tenant, a, n) <==> rows[i].tenantId == tenant && BelowAt(rows, a, i, n)
      {
        JoinChildrenMembers(rows, tenant, w, i);
      }
    }
  }

  lemma {:induction false} BelowAtIsBelow(rows: Rows, a: string, i: nat, n: nat)
    requires Forest(rows) && i < |rows| && BelowAt(rows, a, i, n)
    ensures Below(rows, a, i) && n < Rank(rows)[i]
    decreases n
  {
    if n > 0 {
      BelowAtIsBelow(rows, a, Parent(rows, i).value, n - 1);
    }
  }

  lemma {:induction false} BelowHasLevel(rows: Rows, a: string, i: nat) returns (n: nat)
    requires Forest(rows) && i < |rows| && Below(rows, a, i)
    ensures BelowAt(rows, a, i, n) && n < Rank(rows)[i]
    decreases Rank(rows)[i]
  {
    var j := Parent(rows, i).value;
    if rows[j].id == a {
      n := 0;
    } else {
      n := BelowHasLevel(rows, a, j);
      n := n + 1;
    }
  }

  lemma {:induction false} OneLevel(rows: Rows, a: string, i: nat, m: nat, n: nat)
    requires Forest(rows) && i < |rows| && BelowAt(rows, a, i, m) && BelowAt(rows, a, i, n)
    ensures m == n
    decreases m
  {
    var j := Parent(rows, i).value;
    if m > 0 && n > 0 {
      OneLevel(rows, a, j, m - 1, n - 1);
    } else if m + n > 0 {
      BelowAtIsBelow(rows, a, j, m + n - 1);
      BelowIsOnChain(rows, a, j);
    }
  }

  ghost predicate BelowWithin(rows: Rows, a: string, i: nat, n: nat)
    requires i < |rows|
  {
    exists k: nat :: k < n && BelowAt(rows, a, i, k)
  }

  lemma {:induction false} SubAllMembers(rows: Rows, tenant: string, a: string, n: nat)
    requires Forest(rows)
    ensures forall i :: 0 <= i < |rows| ==>
              (i in SubAll(rows, tenant, a, n) <==> rows[i].tenantId == tenant && BelowWithin(rows, a, i, n))
  {
    hide BelowAt, SubLevel, Forest;
    if n > 0 {
      SubAllMembers(rows, tenant, a, n - 1);
      SubLevelMembers(rows, tenant, a, n - 1);
      forall i | 0 <= i < |rows|
        ensures BelowWithin(rows, a, i, n) <==> BelowWithin(rows, a, i, n - 1) || BelowAt(rows, a, i, n - 1)
      {
        WithinOneMore(rows, a, i, n);
      }
    }
  }

  lemma WithinOneMore(rows: Rows, a: string, i: nat, n: nat)
    requires i < |rows| && n > 0
    ensures BelowWithin(rows, a, i, n) <==> BelowWithin(rows, a, i, n - 1) || BelowAt(rows, a, i, n - 1)
  {
    hide BelowAt;
    if BelowWithin(rows, a, i, n) {
      var k: nat :| k < n && BelowAt(rows, a, i, k);
      assert k == n - 1 || BelowWithin(rows, a, i, n - 1);
    }
  }

  lemma {:induction false} SubAllDistinct(rows: Rows, tenant: string, a: string, n: nat)
    requires Forest(rows)
    ensures Distinct(SubAll(rows, tenant, a, n))
  {
    hide Forest, SubLevel, Distinct;
    if n == 0 {
      NothingRepeats();
    } else {
      SubAllDistinct(rows, tenant, a, n - 1);
      var above, level := SubAll(rows, tenant, a, n - 1), SubLevel(rows, tenant, a, n - 1);
      LevelDistinct(rows, tenant, a, n - 1);
      forall i | i in above ensures i !in level {
        InOneLevelOnly(rows, tenant, a, i, n - 1);
      }
      DistinctConcat(above, level);
    }
  }

  lemma NothingRepeats()
    ensures Distinct<nat>([])
  {
  }

  lemma LevelDistinct(rows: Rows, tenant: string, a: string, n: nat)
    requires Forest(rows)
    ensures Distinct(SubLevel(rows, tenant, a, n))
  {
    SubLevelMembers(rows, tenant, a, n);
  }

  lemma InOneLevelOnly(rows: Rows, tenant: string, a: string, i: nat, n: nat)
    requires Forest(rows) && i in SubAll(rows, tenant, a, n)
    ensures i !in SubLevel(rows, tenant, a, n)
  {
    var k :| 0 <= k < |SubAll(rows, tenant, a, n)| && SubAll(rows, tenant, a, n)[k] == i;
    SubAllMembers(rows, tenant, a, n);
    SubLevelMembers(rows, tenant, a, n);
    NotDeeper(rows, a, i, n);
  }

  lemma NotDeeper(rows: Rows, a: string, i: nat, n: nat)
    requires Forest(rows) && i < |rows| && BelowWithin(rows, a, i, n)
    ensures !BelowAt(rows, a, i, n)
  {
    var k: nat :| k < n && BelowAt(rows, a, i, k);
    if BelowAt(rows, a, i, n) { OneLevel(rows, a, i, k, n); }
  }

  function MaxOf(s: seq<nat>): (m: nat)
    ensures forall k :: 0 <= k < |s| ==> s[k] <= m
  {
    if s == [] then 0
    else
      var m := MaxOf(s[1..]);
      if s[0] > m then s[0] else m
  }

  /** x is an asset of the tenant, other than a, with a on its path to the root. */
  ghost predicate IsDescendant(rows: Rows, tenant: string, a: string, x: Asset)
    requires Forest(rows)
  {
    && x in rows && x.tenantId == tenant && x.id != a
    && exists y :: y in RootPath(rows, tenant, x.id) && y.id == a
  }

  lemma DescendantIsBelow(rows: Rows, tenant: string, a: string, i: nat)
    requires Forest(rows) && i < |rows| && rows[i].tenantId == tenant
    ensures IsDescendant(rows, tenant, a, rows[i]) <==> Below(rows, a, i)
  {
    hide Below;
    FindOwn(rows, i);
    BelowIsOnChain(rows, a, i);
    var c := Chain(rows, i);
    var p := RootPath(rows, tenant, rows[i].id);
    if Below(rows, a, i) {
      var k :| 0 <= k < |c| && c[k] < |rows| && rows[c[k]].id == a;
      assert p[|c| - 1 - k].id == a;
    }
    if y :| y in p && y.id == a {
      var k :| 0 <= k < |p| && p[k] == y;
      assert c[|c| - 1 - k] in c;
    }
  }

  /**
    The descendants query reaches an empty level, after which it adds nothing,
    and answers each descendant exactly once and nothing else.
   */
  lemma DescendantsQueryReachesFixpoint(rows: Rows, tenant: string, a: string) returns (n: nat)
    requires Forest(rows)
    ensures forall m :: m >= n ==> SubLevel(rows, tenant, a, m) == []
    ensures Distinct(RowsAt(rows, SubAll(rows, tenant, a, n)))
    ensures forall x :: x in RowsAt(rows, SubAll(rows, tenant, a, n)) <==> IsDescendant(rows, tenant, a, x)
  {
    n := MaxOf(Rank(rows));
    forall m | m >= n ensures SubLevel(rows, tenant, a, m) == [] {
      SubLevelMembers(rows, tenant, a, m);
      var w := SubLevel(rows, tenant, a, m);
      assert w != [] ==> w[0] in w;
      if w != [] { BelowAtIsBelow(rows, a, w[0], m); }
    }
    SubAllMembers(rows, tenant, a, n);
    SubAllDistinct(rows, tenant, a, n);
    var at := SubAll(rows, tenant, a, n);
    forall i | 0 <= i < |rows| && rows[i].tenantId == tenant ensures i in at <==> IsDescendant(rows, tenant, a, rows[i]) {
      DescendantIsBelow(rows, tenant, a, i);
      if Below(rows, a, i) {
        var k := BelowHasLevel(rows, a, i);
      }
      if i in at {
        var k: nat :| k < n && BelowAt(rows, a, i, k);
        BelowAtIsBelow(rows, a, i, k);
      }
    }
    RowsAtMembers(rows, at);
    forall x ensures x in RowsAt(rows, at) <==> IsDescendant(rows, tenant, a, x) {
      if IsDescendant(rows, tenant, a, x) {
        var i :| 0 <= i < |rows| && rows[i] == x;
        assert i in at;
      }
    }
  }

  lemma RowsAtMembers(rows: Rows, at: seq<nat>)
    requires WellLinked(rows) && Distinct(at) && InStore(rows, at)
    ensures Distinct(RowsAt(rows, at))
    ensures forall x :: x in RowsAt(rows, at) <==> exists i :: i in at && i < |rows| && rows[i] == x
  {
    var r := RowsAt(rows, at);
    forall i, j | 0 <= i < j < |r| ensures r[i] != r[j] {
      assert at[i] != at[j];
    }
    forall x ensures x in r <==> exists i :: i in at && i < |rows| && rows[i] == x {
      if x in r {
        var k :| 0 <= k < |r| && r[k] == x;
        assert at[k] in at;
      }
      if i :| i in at && i < |rows| && rows[i] == x {
        var k :| 0 <= k < |at| && at[k] == i;
        assert r[k] == x;
      }
    }
  }

  // ------------------------------------------------------- ancestors query

  /** Rows of a tenant among the first n with the given id. */
  function WithIdUpTo(rows: Rows, tenant: string, id: Option<string>, n: nat): (r: seq<nat>)
    requires n <= |rows|
    ensures forall k :: 0 <= k < |r| ==> r[k] < n
  {
    if n == 0 then []
    else
      var rest := WithIdUpTo(rows, tenant, id, n - 1);
      if rows[n - 1].tenantId == tenant && Some(rows[n - 1].id) == id then rest + [n - 1] else rest
  }

  /** assets a JOIN anc ON a.id = anc.parent_id WHERE a.tenant_id = tenant */
  function JoinParents(rows: Rows, tenant: string, anc: seq<nat>): (r: seq<nat>)
    requires InStore(rows, anc)
    ensures InStore(rows, r)
  {
    if anc == [] then []
    else
      WithIdUpTo(rows, tenant, rows[anc[0]].parentId, |rows|) + JoinParents(rows, tenant, anc[1..])
  }

  /** The rows that the ancestors query finds at a given depth. */
  function AncLevel(rows: Rows, tenant: string, id: string, depth: nat): (r: seq<nat>)
    ensures InStore(rows, r)
  {
    if depth == 0 then WithIdUpTo(rows, tenant, Some(id), |rows|)
    else JoinParents(rows, tenant, AncLevel(rows, tenant, id, depth - 1))
  }

  /** Levels one after the other, the last one first. */
  function DeepestFirst(levels: seq<seq<nat>>): seq<nat> {
    if levels == [] then [] else levels[|levels| - 1] + DeepestFirst(levels[..|levels| - 1])
  }

  lemma {:induction false} DeepestFirstInStore(rows: Rows, levels: seq<seq<nat>>)
    requires forall k :: 0 <= k < |levels| ==> InStore(rows, levels[k])
    ensures InStore(rows, DeepestFirst(levels))
  {
    if levels != [] { DeepestFirstInStore(rows, levels[..|levels| - 1]); }
  }

  /** The answer of the ancestors query over its first n levels: ORDER BY depth DESC. */
  function AncAll(rows: Rows, tenant: string, id: string, n: nat): (r: seq<nat>)
    ensures InStore(rows, r)
  {
    var levels := seq(n, depth requires 0 <= depth < n => AncLevel(rows, tenant, id, depth));
    DeepestFirstInStore(rows, levels);
    DeepestFirst(levels)
  }

  /** The first entries of c alone on one level each, and nothing on deeper levels. */
  lemma {:induction false} OnePerLevel(levels: seq<seq<nat>>, c: seq<nat>)
    requires forall k :: 0 <= k < |levels| ==> levels[k] == if k < |c| then [c[k]] else []
    ensures DeepestFirst(levels) == Reversed(if |levels| < |c| then c[..|levels|] else c)
  {
    hide Reversed;
    if levels == [] {
      NoneReversed(c);
    } else {
      var n := |levels| - 1;
      OnePerLevel(levels[..n], c);
      if n < |c| {
        TakenReversed(c, n);
        assert c[..|c|] == c;
      } else {
        assert [] + DeepestFirst(levels[..n]) == DeepestFirst(levels[..n]);
        assert c[..|c|] == c;
      }
    }
  }

  lemma NoneReversed<T>(c: seq<T>)
    ensures Reversed(c[..0]) == [] && (c == [] ==> Reversed(c) == [])
  {
  }

  lemma TakenReversed<T>(c: seq<T>, n: nat)
    requires n < |c|
    ensures Reversed(c[..n + 1]) == [c[n]] + Reversed(c[..n])
  {
    hide Reversed;
    ReversedSnoc(c[..n], c[n]);
    assert c[..n + 1] == c[..n] + [c[n]];
  }

  lemma ReversedSnoc<T>(s: seq<T>, x: T)
    ensures Reversed(s + [x]) == [x] + Reversed(s)
  {
  }

  lemma {:induction false} WithIdIsFind(rows: Rows, tenant: string, id: string, n: nat)
    requires WellLinked(rows) && n <= |rows|
    ensures WithIdUpTo(rows, tenant, Some(id), n) ==
            match Find(rows, tenant, id) case None => [] case Some(i) => if i < n then [i] else []
  {
    if n > 0 {
      WithIdIsFind(rows, tenant, id, n - 1);
      if rows[n - 1].tenantId == tenant && rows[n - 1].id == id {
        FindOwn(rows, n - 1);
      }
    }
  }

  lemma {:induction false} WithoutId(rows: Rows, tenant: string, n: nat)
    requires n <= |rows|
    ensures WithIdUpTo(rows, tenant, None, n) == []
  {
    if n > 0 { WithoutId(rows, tenant, n - 1); }
  }

  lemma {:induction false} AncLevelIsOneAncestor(rows: Rows, tenant: string, id: string, depth: nat)
    requires Forest(rows)
    ensures match Find(rows, tenant, id)
            case None => AncLevel(rows, tenant, id, depth) == []
            case Some(i) =>
              var c := Chain(rows, i);
              AncLevel(rows, tenant, id, depth) == if depth < |c| then [c[depth]] else []
  {
    if depth == 0 {
      WithIdIsFind(rows, tenant, id, |rows|);
    } else {
      AncLevelIsOneAncestor(rows, tenant, id, depth - 1);
      if Find(rows, tenant, id).Some? {
        NextOnChain(rows, Find(rows, tenant, id).value, depth);
      }
    }
  }

  lemma NextOnChain(rows: Rows, i: nat, depth: nat)
    requires Forest(rows) && i < |rows| && 0 < depth
    ensures var c := Chain(rows, i);
            depth <= |c| ==>
            JoinParents(rows, rows[i].tenantId, [c[depth - 1]]) == if depth < |c| then [c[depth]] else []
  {
    var c := Chain(rows, i);
    if depth <= |c| {
      var k := c[depth - 1];
      assert k in c;
      ChainRanks(rows, i, k);
      ChainClimbs(rows, i);
      var up := WithIdUpTo(rows, rows[i].tenantId, rows[k].parentId, |rows|);
      assert JoinParents(rows, rows[i].tenantId, [k]) == up;
      if depth < |c| {
        assert Parent(rows, k) == Some(c[depth]);
        WithIdIsFind(rows, rows[i].tenantId, rows[k].parentId.value, |rows|);
      } else {
        WithoutId(rows, rows[i].tenantId, |rows|);
      }
    }
  }

  lemma AncAllIsReversedChain(rows: Rows, tenant: string, id: string, n: nat)
    requires Forest(rows)
    ensures match Find(rows, tenant, id)
            case None => AncAll(rows, tenant, id, n) == []
            case Some(i) => n >= |Chain(rows, i)| ==> AncAll(rows, tenant, id, n) == Reversed(Chain(rows, i))
  {
    var c := if Find(rows, tenant, id).Some? then Chain(rows, Find(rows, tenant, id).value) else [];
    var levels := seq(n, depth requires 0 <= depth < n => AncLevel(rows, tenant, id, depth));
    forall k | 0 <= k < n ensures levels[k] == if k < |c| then [c[k]] else [] {
      AncLevelIsOneAncestor(rows, tenant, id, k);
    }
    OnePerLevel(levels, c);
    assert c == [] && n > 0 ==> c[..0] == [];
  }

  /**
    The ancestors query reaches an empty level and then answers, deepest
    ancestor first, exactly the path from the root to the asset.
   */
  lemma PathQueryIsRootPath(rows: Rows, tenant: string, id: string) returns (n: nat)
    requires Forest(rows)
    ensures forall m :: m >= n ==> AncLevel(rows, tenant, id, m) == []
    ensures RowsAt(rows, AncAll(rows, tenant, id, n)) == RootPath(rows, tenant, id)
  {
    n := match Find(rows, tenant, id) case None => 0 case Some(i) => |Chain(rows, i)|;
    forall m | m >= n ensures AncLevel(rows, tenant, id, m) == [] {
      AncLevelIsOneAncestor(rows, tenant, id, m);
    }
    AncAllIsReversedChain(rows, tenant, id, n);
  }

  /**
    The ancestor test of the Postgres store (some row of the query has the
    ancestor's id) says yes exactly when the in-memory walk would refuse.
   */
  lemma IsAncestorQueryIsWalk(rows: Rows, tenant: string, i: nat, j: nat, n: nat)
    requires Forest(rows) && i < |rows| && j < |rows| && rows[i].tenantId == tenant && rows[j].tenantId == tenant
    requires forall m :: m >= n ==> AncLevel(rows, tenant, rows[j].id, m) == []
    ensures (exists k :: k in AncAll(rows, tenant, rows[j].id, n) && k < |rows| && rows[k].id == rows[i].id) <==> i in Chain(rows, j)
  {
    var c, at := Chain(rows, j), AncAll(rows, tenant, rows[j].id, n);
    FindOwn(rows, j);
    assert |c| <= n by {
      if n < |c| { AncLevelIsOneAncestor(rows, tenant, rows[j].id, n); }
    }
    AncAllIsReversedChain(rows, tenant, rows[j].id, n);
    InReversed(c, i);
    assert forall k :: k in at && k < |rows| && rows[k].id == rows[i].id ==> k == i;
  }

  lemma InReversed<T>(s: seq<T>, x: T)
    ensures x in Reversed(s) <==> x in s
  {
    if x in s {
      var k :| 0 <= k < |s| && s[k] == x;
      assert Reversed(s)[|s| - 1 - k] == x;
    }
  }
}
