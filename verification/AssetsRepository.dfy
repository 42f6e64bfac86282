/** The single-process asset store: its mutating calls and its two traversals. */
module AssetsRepository {
  import opened Wrappers
  import opened Seqs
  import opened AssetForest
  import opened AssetCalls
  import opened AssetOrder
  import opened AssetQueries

  datatype Listing = Listed(assets: seq<Asset>) | Refused(error: Error)

  function Lookup(m: map<Option<string>, seq<nat>>, p: Option<string>): seq<nat> {
    if p in m then m[p] else []
  }

  class LocalJsonAssetsRepository {
    /** The stored file, row by row. */
    var rows: Rows

    ghost predicate Valid()
      reads this
    {
      Forest(rows)
    }

    constructor ()
      ensures Valid() && rows == []
    {
      rows := [];
      new;
      EmptyStoreIsForest();
    }

    method Create(
      tenant: string, assetType: string, name: string, parent: Option<string>,
      attributes: Option<Attributes>, wantedId: Option<string>, freshId: string, now: string)
      returns (out: Outcome)
      requires Valid() && freshId != ""
      modifies this
      ensures Valid()
      ensures (rows, out) ==
              Effect(old(rows), Call.Create(tenant, assetType, name, parent, attributes, wantedId, freshId, now))
    {
      ghost var call := Call.Create(tenant, assetType, name, parent, attributes, wantedId, freshId, now);
      EffectKeepsForest(rows, call);
      if tenant == "" {
        return Raised(TenantRequired);
      }
      if assetType == "" || name == "" {
        return Raised(TypeAndNameRequired);
      }
      var assets := rows;
      if parent.Some? {
        if Find(assets, tenant, parent.value).None? {
          return Raised(ParentNotFound);
        }
      }
      var record := Asset(
        IdFor(wantedId, freshId), tenant, parent, assetType, name, OrElse(attributes, map[]), now, now);
      if HasId(assets, record.id) {
        return Raised(IdExists);
      }
      assets := assets + [record];
      rows := assets;
      return Done(record);
    }

    /** The walk up from a proposed parent j, which must not meet row i. */
    method WalkMeets(assets: Rows, tenant: string, i: nat, j: nat) returns (met: bool)
      requires Forest(assets) && i < |assets| && j < |assets|
      requires assets[i].tenantId == tenant && assets[j].tenantId == tenant
      ensures met <==> i in Chain(assets, j)
      ensures met <==> !Forest(Relinked(assets, i, assets[j].id))
    {
      WalkRefusesExactlyCycles(assets, i, j);
      var cursor: Option<nat> := Some(j);
      while cursor.Some?
        invariant cursor.Some? ==> cursor.value < |assets| && assets[cursor.value].tenantId == tenant
        invariant i in Chain(assets, j) <==> i in ChainFrom(assets, cursor)
        decreases if cursor.Some? then 1 + Rank(assets)[cursor.value] else 0
      {
        var at := cursor.value;
        ChainStep(assets, at);
        if assets[at].id == assets[i].id {
          return true;
        }
        var next := assets[at].parentId;
        cursor := if next.Some? then Find(assets, tenant, next.value) else None;
      }
      return false;
    }

    method Update(
      tenant: string, assetId: string, newType: Option<string>, newName: Option<string>,
      newParent: Option<string>, newAttributes: Option<Attributes>, clearParent: bool, now: string)
      returns (out: Outcome)
      requires Valid()
      modifies this
      ensures Valid()
      ensures (rows, out) ==
              Effect(old(rows), Call.Update(tenant, assetId, newType, newName, newParent, newAttributes, clearParent, now))
    {
      ghost var call := Call.Update(tenant, assetId, newType, newName, newParent, newAttributes, clearParent, now);
      EffectKeepsForest(rows, call);
      if tenant == "" {
        return Raised(TenantRequired);
      }
      var assets := rows;
      var found := Find(assets, tenant, assetId);
      if found.None? {
        return Raised(AssetNotFound);
      }
      var i := found.value;
      var row := assets[i];
      if newType.Some? {
        if newType.value == "" {
          return Raised(TypeEmpty);
        }
        row := row.(assetType := newType.value);
      }
      if newName.Some? {
        if newName.value == "" {
          return Raised(NameEmpty);
        }
        row := row.(name := newName.value);
      }
      if clearParent {
        row := row.(parentId := None);
      } else if newParent.Some? {
        if newParent.value == assetId {
          return Raised(SelfParent);
        }
        var above := Find(assets, tenant, newParent.value);
        if above.None? {
          return Raised(ParentNotFound);
        }
        var met := WalkMeets(assets, tenant, i, above.value);
        if met {
          return Raised(Cycle);
        }
        row := row.(parentId := newParent);
      }
      if newAttributes.Some? {
        row := row.(attributes := newAttributes.value);
      }
      row := row.(updated := now);
      rows := assets[i := row];
      return Done(row);
    }

    /** Every asset below the named one, each once, in listing order. */
    method Descendants(tenant: string, assetId: string) returns (r: Listing)
      requires Valid()
      ensures r.Refused? <==> tenant == ""
      ensures r.Listed? ==>
                && Distinct(r.assets)
                && (forall x :: x in r.assets <==> IsDescendant(rows, tenant, assetId, x))
                && InOrder(r.assets)
    {
      if tenant == "" {
        return Refused(TenantRequired);
      }
      var byParent := GroupByParent(rows, tenant);
      var below := Flood(rows, tenant, assetId, byParent);
      RowsAtMembers(rows, below);
      var assets := RowsAt(rows, below);
      forall x ensures x in assets <==> IsDescendant(rows, tenant, assetId, x) {
        if i :| 0 <= i < |rows| && rows[i] == x && x.tenantId == tenant {
          DescendantIsBelow(rows, tenant, assetId, i);
        }
      }
      SortedInOrder(assets);
      PermutationStaysDistinct(assets, Sorted(assets));
      forall x ensures x in Sorted(assets) <==> x in assets {
        assert x in Sorted(assets) <==> x in multiset(Sorted(assets));
      }
      return Listed(Sorted(assets));
    }

    /** The parent chain of the named asset, root first; nothing for an unknown asset. */
    method PathToRoot(tenant: string, assetId: string) returns (r: Listing)
      requires Valid()
      ensures r.Refused? <==> tenant == ""
      ensures r.Listed? ==> r.assets == RootPath(rows, tenant, assetId)
    {
      if tenant == "" {
        return Refused(TenantRequired);
      }
      var climbed := ClimbToRoot(rows, tenant, assetId);
      return Listed(RowsAt(rows, Reversed(climbed)));
    }
  }

  /** The guarded climb of path_to_root; its guard against cycles never fires. */
  method ClimbToRoot(rows: Rows, tenant: string, assetId: string) returns (climbed: seq<nat>)
    requires Forest(rows)
    ensures climbed == ChainFrom(rows, Find(rows, tenant, assetId))
  {
    var current: Option<nat> := Find(rows, tenant, assetId);
    var seen: set<string> := {};
    climbed := [];
    ghost var whole := ChainFrom(rows, current);
    while current.Some?
      invariant current.Some? ==> current.value < |rows| && rows[current.value].tenantId == tenant
      invariant whole == climbed + ChainFrom(rows, current)
      invariant forall k :: k in ChainFrom(rows, current) ==> k < |rows| && rows[k].id !in seen
      decreases if current.Some? then 1 + Rank(rows)[current.value] else 0
    {
      var at := current.value;
      ChainStep(rows, at);
      if rows[at].id in seen {
        assert false;
        break;
      }
      seen := seen + {rows[at].id};
      climbed := climbed + [at];
      var next := rows[at].parentId;
      current := if next.Some? then Find(rows, tenant, next.value) else None;
    }
  }

  /** The by-parent index that descendants builds over one tenant's rows. */
  method GroupByParent(rows: Rows, tenant: string) returns (byParent: map<Option<string>, seq<nat>>)
    ensures forall p :: Lookup(byParent, p) == Children(rows, tenant, p)
  {
    byParent := map[];
    for i := 0 to |rows|
      invariant forall p :: Lookup(byParent, p) == ChildrenUpTo(rows, tenant, p, i)
    {
      if rows[i].tenantId == tenant {
        var p := rows[i].parentId;
        byParent := byParent[p := Lookup(byParent, p) + [i]];
      }
    }
  }

  /** Everything already reached or waiting is below a, reached once, and closed under children so far. */
  ghost predicate Flooding(rows: Rows, tenant: string, a: string, done: seq<nat>, queue: seq<nat>)
    requires Forest(rows)
  {
    && InStore(rows, done) && InStore(rows, queue)
    && Distinct(done + queue)
    && (forall i :: i in done + queue ==> i < |rows| && rows[i].tenantId == tenant && Below(rows, a, i))
    && (forall i :: i in done + queue ==> i < |rows| && Reached(rows, a, done, i))
    && (forall i :: 0 <= i < |rows| && rows[i].tenantId == tenant && Reached(rows, a, done, i) ==> i in done + queue)
  }

  /** Row i hangs directly under a or under a row already done. */
  ghost predicate Reached(rows: Rows, a: string, done: seq<nat>, i: nat)
    requires i < |rows|
  {
    && rows[i].parentId.Some?
    && (rows[i].parentId.value == a || exists k :: k in done && k < |rows| && rows[k].id == rows[i].parentId.value)
  }

  method Flood(rows: Rows, tenant: string, a: string, byParent: map<Option<string>, seq<nat>>)
    returns (done: seq<nat>)
    requires Forest(rows)
    requires forall p :: Lookup(byParent, p) == Children(rows, tenant, p)
    ensures InStore(rows, done) && Distinct(done)
    ensures forall i :: i in done <==> 0 <= i < |rows| && rows[i].tenantId == tenant && Below(rows, a, i)
  {
    hide Flooding, Forest, Below, Distinct, InStore;
    done := [];
    var queue: seq<nat> := Lookup(byParent, Some(a));
    FloodStarts(rows, tenant, a);
    FloodFits(rows, tenant, a, done, queue);
    while queue != []
      invariant Flooding(rows, tenant, a, done, queue)
      invariant |done| <= |rows| && forall k :: 0 <= k < |queue| ==> queue[k] < |rows|
      decreases |rows| - |done|
    {
      var at := queue[0];
      FloodStep(rows, tenant, a, done, queue);
      done := done + [at];
      queue := queue[1..] + Lookup(byParent, Some(rows[at].id));
      FloodFits(rows, tenant, a, done, queue);
    }
    FloodDone(rows, tenant, a, done);
  }

  lemma FloodFits(rows: Rows, tenant: string, a: string, done: seq<nat>, queue: seq<nat>)
    requires Forest(rows) && Flooding(rows, tenant, a, done, queue)
    ensures |done| <= |rows| && forall k :: 0 <= k < |queue| ==> queue[k] < |rows|
  {
    hide Below, Reached;
    DistinctBelow(done + queue, |rows|);
  }

  lemma FloodDone(rows: Rows, tenant: string, a: string, done: seq<nat>)
    requires Forest(rows) && Flooding(rows, tenant, a, done, [])
    ensures InStore(rows, done) && Distinct(done)
    ensures forall i :: i in done <==> 0 <= i < |rows| && rows[i].tenantId == tenant && Below(rows, a, i)
  {
    hide Below, Reached;
    assert done + [] == done;
    forall i | 0 <= i < |rows| && rows[i].tenantId == tenant && Below(rows, a, i) ensures i in done {
      FloodComplete(rows, tenant, a, done, i);
    }
  }

  lemma FloodStarts(rows: Rows, tenant: string, a: string)
    requires Forest(rows)
    ensures Flooding(rows, tenant, a, [], Children(rows, tenant, Some(a)))
  {
    var queue := Children(rows, tenant, Some(a));
    assert [] + queue == queue;
    forall i | i in queue ensures Below(rows, a, i) {
      assert Parent(rows, i).Some?;
    }
  }

  lemma HeadNotDone(done: seq<nat>, queue: seq<nat>)
    requires queue != [] && Distinct(done + queue)
    ensures queue[0] !in done
  {
    forall m | 0 <= m < |done| ensures done[m] != queue[0] {
      assert (done + queue)[m] != (done + queue)[|done|];
    }
  }

  lemma FloodStep(rows: Rows, tenant: string, a: string, done: seq<nat>, queue: seq<nat>)
    requires Forest(rows) && queue != [] && Flooding(rows, tenant, a, done, queue)
    ensures Flooding(rows, tenant, a, done + [queue[0]], queue[1..] + Children(rows, tenant, Some(rows[queue[0]].id)))
  {
    var at := queue[0];
    var kids := Children(rows, tenant, Some(rows[at].id));
    assert done + [at] + (queue[1..] + kids) == done + queue + kids;
    assert (done + queue)[|done|] == at;
    FloodStaysDistinct(rows, tenant, a, done, queue, kids);
    forall i | i in kids ensures Below(rows, a, i) {
      assert Parent(rows, i).Some?;
      assert rows[Parent(rows, i).value].id == rows[at].id;
    }
    forall i | 0 <= i < |rows|
      ensures Reached(rows, a, done + [at], i) <==>
              Reached(rows, a, done, i) || (rows[i].parentId == Some(rows[at].id))
    {
      assert forall k :: k in done + [at] <==> k in done || k == at;
    }
  }

  lemma FloodStaysDistinct(rows: Rows, tenant: string, a: string, done: seq<nat>, queue: seq<nat>, kids: seq<nat>)
    requires Forest(rows) && queue != [] && Flooding(rows, tenant, a, done, queue)
    requires kids == Children(rows, tenant, Some(rows[queue[0]].id))
    ensures Distinct(done + queue + kids)
  {
    var at := queue[0];
    assert (done + queue)[|done|] == at;
    BelowIsOnChain(rows, a, at);
    HeadNotDone(done, queue);
    forall i | i in done + queue ensures i !in kids {
    }
    DistinctConcat(done + queue, kids);
  }

  lemma {:induction false} FloodComplete(rows: Rows, tenant: string, a: string, done: seq<nat>, i: nat)
    requires Forest(rows) && i < |rows| && rows[i].tenantId == tenant && Below(rows, a, i)
    requires Flooding(rows, tenant, a, done, [])
    ensures i in done
    decreases Rank(rows)[i]
  {
    assert done + [] == done;
    var j := Parent(rows, i).value;
    if rows[j].id != a {
      FloodComplete(rows, tenant, a, done, j);
    }
    assert Reached(rows, a, done, i);
  }
}
