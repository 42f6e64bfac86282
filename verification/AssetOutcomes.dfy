/** What create and update answer and store, in terms of the rows and the arguments alone. */
module AssetOutcomes {
  import opened Wrappers
  import opened AssetForest
  import opened AssetCalls

  /** Some row of the tenant has this id, which is not empty. */
  predicate Exists(rows: Rows, tenant: string, id: string) {
    id != "" && exists i :: 0 <= i < |rows| && rows[i].tenantId == tenant && rows[i].id == id
  }

  lemma FoundIffExists(rows: Rows, tenant: string, id: string)
    ensures Find(rows, tenant, id).Some? <==> Exists(rows, tenant, id)
  {
  }

  /** The id that a created asset gets. */
  predicate IsNewId(c: Call, id: string)
    requires c.Create?
  {
    if c.wantedId.None? || c.wantedId == Some("") then id == c.freshId else c.wantedId == Some(id)
  }

  /** When create succeeds and, in the order of its checks, why it does not. */
  lemma CreateAnswers(rows: Rows, c: Call, id: string)
    requires c.Create? && IsNewId(c, id)
    ensures var out := CreateEffect(rows, c).1;
            var complete := c.tenant != "" && c.assetType != "" && c.name != "";
            var placed := c.parent.None? || Exists(rows, c.tenant, c.parent.value);
            var taken := exists x :: x in rows && x.id == id;
            && (out == Raised(TenantRequired) <==> c.tenant == "")
            && (out == Raised(TypeAndNameRequired) <==> c.tenant != "" && !complete)
            && (out == Raised(ParentNotFound) <==> complete && !placed)
            && (out == Raised(IdExists) <==> complete && placed && taken)
            && (out.Done? <==> complete && placed && !taken)
  {
    if c.parent.Some? { FoundIffExists(rows, c.tenant, c.parent.value); }
    assert forall i :: 0 <= i < |rows| ==> rows[i] in rows;
  }

  /** What a successful create stores: a new last row with exactly the given fields. */
  lemma CreatedRecord(rows: Rows, c: Call, id: string)
    requires c.Create? && IsNewId(c, id) && CreateEffect(rows, c).1.Done?
    ensures var (rows', out) := CreateEffect(rows, c);
            && rows' == rows + [out.record]
            && out.record.id == id && out.record.tenantId == c.tenant && out.record.parentId == c.parent
            && out.record.assetType == c.assetType && out.record.name == c.name
            && (c.attributes.Some? ==> out.record.attributes == c.attributes.value)
            && (c.attributes.None? ==> out.record.attributes == map[])
            && out.record.created == c.now && out.record.updated == c.now
  {
  }

  /** A created asset's root path is its parent's root path, if it has a parent, followed by the asset. */
  lemma CreatedUnderParent(rows: Rows, c: Call)
    requires Forest(rows) && c.Create? && c.Sane() && CreateEffect(rows, c).1.Done?
    ensures var (rows', out) := CreateEffect(rows, c);
            && Forest(rows')
            && RootPath(rows', c.tenant, out.record.id) ==
               (if c.parent.Some? then RootPath(rows, c.tenant, c.parent.value) else []) + [out.record]
  {
    var (rows', out) := CreateEffect(rows, c);
    var x := out.record;
    EffectKeepsForest(rows, c);
    assert rows'[|rows|] == x;
    FindOwn(rows', |rows|);
    var above := if c.parent.Some? then RootPath(rows, c.tenant, c.parent.value) else [];
    if c.parent.Some? { RootPathIsTheRootPath(rows, c.tenant, c.parent.value); }
    OneMoreOnPath(rows, rows', c.tenant, c.parent, above, x);
    RootPathIsTheRootPath(rows', c.tenant, x.id);
  }

  lemma OneMoreOnPath(rows: Rows, rows': Rows, tenant: string, parent: Option<string>, above: seq<Asset>, x: Asset)
    requires rows' == rows + [x] && x.tenantId == tenant && x.parentId == parent
    requires if parent.Some? then IsRootPath(rows, tenant, parent.value, above) else above == []
    ensures IsRootPath(rows', tenant, x.id, above + [x])
  {
    var p := above + [x];
    assert x in rows' by { assert rows'[|rows|] == x; }
    forall k | 0 <= k < |above| ensures p[k] in rows' && p[k].tenantId == tenant {
      assert p[k] == above[k] && above[k] in rows;
    }
    forall k | 0 < k < |p| ensures p[k].parentId == Some(p[k - 1].id) {
      if k < |above| { assert p[k] == above[k] && p[k - 1] == above[k - 1]; }
    }
  }

  /** The row that an update is about. */
  predicate IsTarget(rows: Rows, c: Call, i: nat)
    requires c.Update?
  {
    i < |rows| && c.assetId != "" && rows[i].tenantId == c.tenant && rows[i].id == c.assetId
  }

  /** When update succeeds and, in the order of its checks, why it does not. */
  lemma UpdateAnswers(rows: Rows, c: Call)
    requires Forest(rows) && c.Update?
    ensures var out := UpdateEffect(rows, c).1;
            var known := c.tenant != "" && Exists(rows, c.tenant, c.assetId);
            var named := known && c.newType != Some("") && c.newName != Some("");
            var moved := named && !c.clearParent && c.newParent.Some?;
            && (out == Raised(TenantRequired) <==> c.tenant == "")
            && (out == Raised(AssetNotFound) <==> c.tenant != "" && !known)
            && (out == Raised(TypeEmpty) <==> known && c.newType == Some(""))
            && (out == Raised(NameEmpty) <==> known && c.newType != Some("") && c.newName == Some(""))
            && (out == Raised(SelfParent) <==> moved && c.newParent == Some(c.assetId))
            && (out == Raised(ParentNotFound) <==>
                moved && c.newParent != Some(c.assetId) && !Exists(rows, c.tenant, c.newParent.value))
            && (out.Done? || out == Raised(Cycle) <==>
                named && (moved ==> c.newParent != Some(c.assetId) && Exists(rows, c.tenant, c.newParent.value)))
            && (out == Raised(Cycle) ==> moved)
  {
    hide Forest;
    FoundIffExists(rows, c.tenant, c.assetId);
    if c.newParent.Some? { FoundIffExists(rows, c.tenant, c.newParent.value); }
  }

  /** What a successful update stores: in the one row, field by field, the given value or the old one. */
  lemma UpdatedRecord(rows: Rows, c: Call, i: nat)
    requires Forest(rows) && c.Update? && IsTarget(rows, c, i) && UpdateEffect(rows, c).1.Done?
    ensures var (rows', out) := UpdateEffect(rows, c);
            var was, x := rows[i], out.record;
            && rows' == rows[i := x]
            && x.id == was.id && x.tenantId == was.tenantId && x.created == was.created && x.updated == c.now
            && (c.newType.Some? ==> x.assetType == c.newType.value) && (c.newType.None? ==> x.assetType == was.assetType)
            && (c.newName.Some? ==> x.name == c.newName.value) && (c.newName.None? ==> x.name == was.name)
            && (c.newAttributes.Some? ==> x.attributes == c.newAttributes.value)
            && (c.newAttributes.None? ==> x.attributes == was.attributes)
            && (c.clearParent ==> x.parentId == None)
            && (!c.clearParent && c.newParent.Some? ==> x.parentId == c.newParent)
            && (!c.clearParent && c.newParent.None? ==> x.parentId == was.parentId)
  {
    FindOwn(rows, i);
  }
}
