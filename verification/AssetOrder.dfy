/** Listing order: by type, then by name, each compared character by character. */
module AssetOrder {
  import opened AssetForest

  predicate TextLeq(a: string, b: string) {
    a == "" || (b != "" && (a[0] < b[0] || (a[0] == b[0] && TextLeq(a[1..], b[1..]))))
  }

  predicate KeyLeq(x: Asset, y: Asset) {
    if x.assetType == y.assetType then TextLeq(x.name, y.name) else TextLeq(x.assetType, y.assetType)
  }

  ghost predicate InOrder(s: seq<Asset>) {
    forall i, j :: 0 <= i < j < |s| ==> KeyLeq(s[i], s[j])
  }

  lemma {:induction false} TextTotal(a: string, b: string)
    ensures TextLeq(a, b) || TextLeq(b, a)
    ensures TextLeq(a, b) && TextLeq(b, a) ==> a == b
  {
    if a != "" && b != "" {
      TextTotal(a[1..], b[1..]);
      assert a == [a[0]] + a[1..] && b == [b[0]] + b[1..];
    }
  }

  lemma {:induction false} TextTransitive(a: string, b: string, c: string)
    requires TextLeq(a, b) && TextLeq(b, c)
    ensures TextLeq(a, c)
  {
    if a != "" && a[0] == b[0] && b[0] == c[0] {
      TextTransitive(a[1..], b[1..], c[1..]);
    }
  }

  lemma KeyTransitive(x: Asset, y: Asset, z: Asset)
    requires KeyLeq(x, y) && KeyLeq(y, z)
    ensures KeyLeq(x, z)
  {
    if x.assetType == y.assetType && y.assetType == z.assetType {
      TextTransitive(x.name, y.name, z.name);
    } else {
      TextTotal(x.assetType, y.assetType);
      TextTotal(y.assetType, x.assetType);
      if x.assetType != y.assetType && y.assetType != z.assetType {
        TextTransitive(x.assetType, y.assetType, z.assetType);
      }
    }
  }

  function Insert(x: Asset, s: seq<Asset>): seq<Asset> {
    if s == [] || KeyLeq(x, s[0]) then [x] + s else [s[0]] + Insert(x, s[1..])
  }

  function Sorted(s: seq<Asset>): seq<Asset> {
    if s == [] then [] else Insert(s[0], Sorted(s[1..]))
  }

  lemma {:induction false} InsertInOrder(x: Asset, s: seq<Asset>)
    requires InOrder(s)
    ensures InOrder(Insert(x, s)) && multiset(Insert(x, s)) == multiset{x} + multiset(s)
  {
    if s == [] {
    } else if KeyLeq(x, s[0]) {
      forall i | 0 < i < |s| ensures KeyLeq(x, s[i]) {
        KeyTransitive(x, s[0], s[i]);
      }
    } else {
      TextTotal(x.assetType, s[0].assetType);
      TextTotal(x.name, s[0].name);
      InsertInOrder(x, s[1..]);
      var t := Insert(x, s[1..]);
      assert s == [s[0]] + s[1..];
      forall i | 0 <= i < |t| ensures KeyLeq(s[0], t[i]) {
        assert t[i] in multiset(t);
        assert t[i] == x || t[i] in s[1..];
      }
    }
  }

  /** Sorting keeps every row and puts the keys in order. */
  lemma {:induction false} SortedInOrder(s: seq<Asset>)
    ensures InOrder(Sorted(s)) && multiset(Sorted(s)) == multiset(s)
  {
    if s != [] {
      SortedInOrder(s[1..]);
      InsertInOrder(s[0], Sorted(s[1..]));
      assert s == [s[0]] + s[1..];
    }
  }
}
