/**
  What one create or update call does to the stored rows, and what every run
  of such calls keeps.
 */
module AssetCalls {
  import opened Wrappers
  import opened AssetForest

  datatype Error =
    | TenantRequired
    | TypeAndNameRequired
    | ParentNotFound
    | IdExists
    | AssetNotFound
    | TypeEmpty
    | NameEmpty
    | SelfParent
    | Cycle

  datatype Outcome = Done(record: Asset) | Raised(error: Error)

  /** A call with its arguments; freshId and now stand for the uuid and the clock reading. */
  datatype Call =
    | Create(
        tenant: string, assetType: string, name: string, parent: Option<string>,
        attributes: Option<Attributes>, wantedId: Option<string>, freshId: string, now: string)
    | Update(
        tenant: string, assetId: string, newType: Option<string>, newName: Option<string>,
        newParent: Option<string>, newAttributes: Option<Attributes>, clearParent: bool, now: string)
  {
    predicate Sane() { Create? ==> freshId != "" }
  }

  function IdFor(wantedId: Option<string>, freshId: string): string {
    if wantedId.Some? && wantedId.value != "" then wantedId.value else freshId
  }

  predicate HasId(rows: Rows, id: string) {
    exists i :: 0 <= i < |rows| && rows[i].id == id
  }

  ghost function CreateEffect(rows: Rows, c: Call): (Rows, Outcome)
    requires c.Create?
  {
    if c.tenant == "" then (rows, Raised(TenantRequired))
    else if c.assetType == "" || c.name == "" then (rows, Raised(TypeAndNameRequired))
    else if c.parent.Some? && Find(rows, c.tenant, c.parent.value).None? then (rows, Raised(ParentNotFound))
    else
      var record := Asset(
        IdFor(c.wantedId, c.freshId), c.tenant, c.parent, c.assetType, c.name,
        OrElse(c.attributes, map[]), c.now, c.now);
      if HasId(rows, record.id) then (rows, Raised(IdExists))
      else (rows + [record], Done(record))
  }

  /** The parent field after an update of row i, or why it is refused. */
  ghost function ParentAfter(rows: Rows, i: nat, c: Call): (Option<string>, Option<Error>)
    requires Forest(rows) && c.Update? && i < |rows|
  {
    if c.clearParent then (None, None)
    else match c.newParent
      case None => (rows[i].parentId, None)
      case Some(p) =>
        if p == c.assetId then (None, Some(SelfParent))
        else match Find(rows, c.tenant, p)
          case None => (None, Some(ParentNotFound))
          case Some(j) => if i in Chain(rows, j) then (None, Some(Cycle)) else (Some(p), None)
  }

  ghost function UpdateEffect(rows: Rows, c: Call): (Rows, Outcome)
    requires Forest(rows) && c.Update?
  {
    if c.tenant == "" then (rows, Raised(TenantRequired))
    else match Find(rows, c.tenant, c.assetId)
      case None => (rows, Raised(AssetNotFound))
      case Some(i) =>
        if c.newType == Some("") then (rows, Raised(TypeEmpty))
        else if c.newName == Some("") then (rows, Raised(NameEmpty))
        else
          var (parent, refused) := ParentAfter(rows, i, c);
          if refused.Some? then (rows, Raised(refused.value))
          else
            var record := rows[i].(
              assetType := OrElse(c.newType, rows[i].assetType),
              name := OrElse(c.newName, rows[i].name),
              parentId := parent,
              attributes := OrElse(c.newAttributes, rows[i].attributes),
              updated := c.now);
            (rows[i := record], Done(record))
  }

  ghost function Effect(rows: Rows, c: Call): (Rows, Outcome)
    requires Forest(rows)
  {
    if c.Create? then CreateEffect(rows, c) else UpdateEffect(rows, c)
  }

  // ------------------------------------------------------- forest is kept

  lemma {:induction false} FindFromStable(rows: Rows, rows': Rows, tenant: string, id: string, n: nat)
    requires n <= |rows| <= |rows'|
    requires forall k :: 0 <= k < |rows| ==> rows[k].id == rows'[k].id && rows[k].tenantId == rows'[k].tenantId
    requires FindFrom(rows, tenant, id, n).Some? || |rows| == |rows'|
    ensures FindFrom(rows', tenant, id, n) == FindFrom(rows, tenant, id, n)
    decreases |rows| - n
  {
    if n < |rows| && !(rows[n].tenantId == tenant && rows[n].id == id) {
      FindFromStable(rows, rows', tenant, id, n + 1);
    }
  }

  /** Appending a row under a present parent, or as a root, keeps the forest. */
  lemma AppendKeepsForest(rows: Rows, x: Asset)
    requires Forest(rows) && x.id != "" && !HasId(rows, x.id)
    requires x.parentId.Some? ==> Find(rows, x.tenantId, x.parentId.value).Some?
    ensures Forest(rows + [x])
  {
    var rows', n, rank := rows + [x], |rows|, Rank(rows);
    forall i | 0 <= i < n && rows[i].parentId.Some? ensures Parent(rows', i) == Parent(rows, i) {
      FindFromStable(rows, rows', rows[i].tenantId, rows[i].parentId.value, 0);
    }
    if x.parentId.Some? {
      FindFromStable(rows, rows', x.tenantId, x.parentId.value, 0);
    }
    var top := if x.parentId.Some? then rank[Parent(rows', n).value] + 1 else 0;
    assert Ranked(rows', rank + [top]);
  }

  /** Rows below i, and i itself, move up the rank together when i gets the parent j. */
  ghost function LiftedRank(rows: Rows, i: nat, lift: nat): (r: seq<nat>)
    requires Forest(rows)
    ensures |r| == |rows|
  {
    seq(|rows|, k requires 0 <= k < |rows| => Rank(rows)[k] + if i in Chain(rows, k) then lift else 0)
  }

  lemma EditKeepsForest(rows: Rows, i: nat, x: Asset)
    requires Forest(rows) && i < |rows|
    requires x.id == rows[i].id && x.tenantId == rows[i].tenantId
    requires x.parentId.Some? ==>
               && Find(rows, x.tenantId, x.parentId.value).Some?
               && i !in Chain(rows, Find(rows, x.tenantId, x.parentId.value).value)
    ensures Forest(rows[i := x])
  {
    var rows', rank := rows[i := x], Rank(rows);
    var above := if x.parentId.Some? then Find(rows, x.tenantId, x.parentId.value) else None;
    var lift := if above.Some? then rank[above.value] + 1 else 0;
    var lifted := LiftedRank(rows, i, lift);
    forall k | 0 <= k < |rows'| && rows'[k].parentId.Some?
      ensures Parent(rows', k).Some? && lifted[Parent(rows', k).value] < lifted[k]
    {
      FindFromStable(rows, rows', rows'[k].tenantId, rows'[k].parentId.value, 0);
      if k != i {
        assert Parent(rows', k) == Parent(rows, k);
        assert Chain(rows, k) == [k] + Chain(rows, Parent(rows, k).value);
      }
    }
    assert Ranked(rows', lifted);
  }

  /** In any store that links the rows below i as this one does, i ranks no higher than they do. */
  lemma {:induction false} RankAlongChain(rows: Rows, rows': Rows, i: nat, k: nat, rank': seq<nat>)
    requires Forest(rows) && i < |rows| && k < |rows| && i in Chain(rows, k)
    requires |rows'| == |rows| && Ranked(rows', rank')
    requires forall m :: 0 <= m < |rows| && m != i ==> Parent(rows', m) == Parent(rows, m)
    ensures rank'[i] <= rank'[k]
    decreases Rank(rows)[k]
  {
    if k != i {
      RankAlongChain(rows, rows', i, Parent(rows, k).value, rank');
    }
  }

  /** The ancestor walk refuses exactly the reparentings that would close a cycle. */
  lemma WalkRefusesExactlyCycles(rows: Rows, i: nat, j: nat)
    requires Forest(rows) && i < |rows| && j < |rows| && rows[i].tenantId == rows[j].tenantId
    ensures i in Chain(rows, j) <==> !Forest(rows[i := rows[i].(parentId := Some(rows[j].id))])
  {
    var x := rows[i].(parentId := Some(rows[j].id));
    var rows' := rows[i := x];
    FindOwn(rows, j);
    if i !in Chain(rows, j) {
      EditKeepsForest(rows, i, x);
    } else if Forest(rows') {
      forall m | 0 <= m < |rows| ensures m != i ==> Parent(rows', m) == Parent(rows, m) {
        if rows'[m].parentId.Some? {
          FindFromStable(rows, rows', rows'[m].tenantId, rows'[m].parentId.value, 0);
        }
      }
      FindFromStable(rows, rows', x.tenantId, rows[j].id, 0);
      assert Parent(rows', i) == Some(j);
      RankAlongChain(rows, rows', i, j, Rank(rows'));
      assert false;
    }
  }

  lemma EffectKeepsForest(rows: Rows, c: Call)
    requires Forest(rows) && c.Sane()
    ensures Forest(Effect(rows, c).0)
  {
    var (rows', out) := Effect(rows, c);
    if out.Done? {
      if c.Create? {
        AppendKeepsForest(rows, out.record);
      } else {
        var i := Find(rows, c.tenant, c.assetId).value;
        if out.record.parentId.Some? && out.record.parentId == rows[i].parentId {
          var j := Parent(rows, i).value;
          if i in Chain(rows, j) { ChainRanks(rows, j, i); }
        }
        EditKeepsForest(rows, i, out.record);
      }
    }
  }

  // ------------------------------------------------------- the two outcomes

  /** The row an update would store if only its parent link changed. */
  ghost function Relinked(rows: Rows, i: nat, p: string): Rows
    requires i < |rows|
  {
    rows[i := rows[i].(parentId := Some(p))]
  }

  /**
    An update is refused with a cycle error exactly when it names another
    asset of the tenant as parent and the new link would end the forest.
   */
  lemma CycleErrorIffForestLost(rows: Rows, c: Call)
    requires Forest(rows) && c.Update? && c.tenant != "" && c.newType != Some("") && c.newName != Some("")
    requires !c.clearParent && c.newParent.Some?
    requires Find(rows, c.tenant, c.assetId).Some? && Find(rows, c.tenant, c.newParent.value).Some?
    ensures Effect(rows, c).1 == Raised(Cycle) <==>
            && c.newParent.value != c.assetId
            && !Forest(Relinked(rows, Find(rows, c.tenant, c.assetId).value, c.newParent.value))
  {
    WalkRefusesExactlyCycles(
      rows, Find(rows, c.tenant, c.assetId).value, Find(rows, c.tenant, c.newParent.value).value);
  }

  /** The rows of one tenant, in stored order. */
  ghost function TenantRows(rows: Rows, tenant: string): Rows {
    if rows == [] then []
    else
      var rest := TenantRows(rows[..|rows| - 1], tenant);
      if rows[|rows| - 1].tenantId == tenant then rest + [rows[|rows| - 1]] else rest
  }

  lemma {:induction false} EditOutsideTenant(rows: Rows, i: nat, x: Asset, tenant: string)
    requires i < |rows| && rows[i].tenantId != tenant && x.tenantId != tenant
    ensures TenantRows(rows[i := x], tenant) == TenantRows(rows, tenant)
  {
    var n := |rows| - 1;
    if i < n {
      EditOutsideTenant(rows[..n], i, x, tenant);
      assert rows[i := x][..n] == rows[..n][i := x];
    } else {
      assert rows[i := x][..n] == rows[..n];
    }
  }

  /** The record x is stored under its id, and every row with another id is as before. */
  ghost predicate Confined(rows: Rows, rows': Rows, x: Asset) {
    && Find(rows', x.tenantId, x.id).Some?
    && rows'[Find(rows', x.tenantId, x.id).value] == x
    && (forall y :: y in rows && y.id != x.id ==> y in rows')
    && (forall y :: y in rows' && y.id != x.id ==> y in rows)
  }

  /**
    A raising call changes nothing; a successful one appends its record or
    replaces exactly the row it found, and never touches another tenant.
   */
  lemma EffectIsConfined(rows: Rows, c: Call, other: string)
    requires Forest(rows) && c.Sane()
    ensures var (rows', out) := Effect(rows, c);
            match out
            case Raised(_) => rows' == rows
            case Done(x) =>
              x.tenantId == c.tenant && Confined(rows, rows', x)
    ensures other != c.tenant ==> TenantRows(Effect(rows, c).0, other) == TenantRows(rows, other)
  {
    hide Forest, Confined, TenantRows, ParentAfter;
    if Effect(rows, c).1.Done? {
      EffectKeepsForest(rows, c);
      if c.Create? {
        CreateIsConfined(rows, c, other);
      } else {
        UpdateIsConfined(rows, c, other);
      }
    }
  }

  lemma CreateIsConfined(rows: Rows, c: Call, other: string)
    requires c.Create? && CreateEffect(rows, c).1.Done? && WellLinked(CreateEffect(rows, c).0)
    ensures Confined(rows, CreateEffect(rows, c).0, CreateEffect(rows, c).1.record)
    ensures other != c.tenant ==> TenantRows(CreateEffect(rows, c).0, other) == TenantRows(rows, other)
  {
    var (rows', out) := CreateEffect(rows, c);
    assert rows'[|rows|] == out.record && rows'[..|rows'| - 1] == rows;
    FindOwn(rows', |rows|);
  }

  lemma UpdateIsConfined(rows: Rows, c: Call, other: string)
    requires Forest(rows) && c.Update? && UpdateEffect(rows, c).1.Done? && WellLinked(UpdateEffect(rows, c).0)
    ensures Confined(rows, UpdateEffect(rows, c).0, UpdateEffect(rows, c).1.record)
    ensures other != c.tenant ==> TenantRows(UpdateEffect(rows, c).0, other) == TenantRows(rows, other)
  {
    var (rows', out) := UpdateEffect(rows, c);
    var i := Find(rows, c.tenant, c.assetId).value;
    assert rows' == rows[i := out.record];
    FindOwn(rows', i);
    ReplacedRow(rows, i, out.record);
    if other != c.tenant {
      EditOutsideTenant(rows, i, out.record, other);
    }
  }

  lemma ReplacedRow(rows: Rows, i: nat, x: Asset)
    requires i < |rows| && x.id == rows[i].id
    ensures forall y :: y in rows && y.id != x.id ==> y in rows[i := x]
    ensures forall y :: y in rows[i := x] && y.id != x.id ==> y in rows
  {
    forall y | y in rows && y.id != x.id ensures y in rows[i := x] {
      var k :| 0 <= k < |rows| && rows[k] == y;
      assert rows[i := x][k] == y;
    }
  }

  // ------------------------------------------------------- every run

  ghost function Run(rows: Rows, calls: seq<Call>): (r: Rows)
    requires Forest(rows) && forall c :: c in calls ==> c.Sane()
    ensures Forest(r)
    decreases |calls|
  {
    if calls == [] then rows
    else
      EffectKeepsForest(rows, calls[0]);
      Run(Effect(rows, calls[0]).0, calls[1..])
  }

  /** A store reached from the empty file by create and update calls, raising ones included. */
  ghost predicate Reachable(rows: Rows) {
    exists calls: seq<Call> :: (forall c :: c in calls ==> c.Sane()) && Forest([]) && Run([], calls) == rows
  }

  /** Every reachable store is a forest whose rows all climb to a root inside their own tenant. */
  lemma ReachableStoresAreForests(rows: Rows)
    requires Reachable(rows)
    ensures Forest(rows)
    ensures forall x :: x in rows ==>
              && IsRootPath(rows, x.tenantId, x.id, RootPath(rows, x.tenantId, x.id))
              && (x.parentId.Some? ==> Find(rows, x.tenantId, x.parentId.value).Some?)
  {
    forall x | x in rows
      ensures IsRootPath(rows, x.tenantId, x.id, RootPath(rows, x.tenantId, x.id))
      ensures x.parentId.Some? ==> Find(rows, x.tenantId, x.parentId.value).Some?
    {
      var i :| 0 <= i < |rows| && rows[i] == x;
      FindOwn(rows, i);
      RootPathIsTheRootPath(rows, x.tenantId, x.id);
      assert x.parentId.Some? ==> Parent(rows, i).Some?;
    }
  }

  lemma EmptyStoreIsForest()
    ensures Forest([])
  {
    assert Ranked([], []);
  }
}
