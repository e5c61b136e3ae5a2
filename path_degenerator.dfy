/** The gNMI-path-to-XPath serializer: element names joined by '/', each
    followed by its selectors in ascending key order. The origin is not
    written, and values are never quoted. */
module PathDegenerator {
  import opened PathTypes
  import opened StringOrder

  /** Python's `sorted(keys.items())`: the key/value pairs in ascending
      key order. */
  function SortedItems(keys: map<string, string>): seq<(string, string)>
  {
    var ks := SortedKeys(keys.Keys);
    SortedKeysSpec(keys.Keys);
    assert forall i :: 0 <= i < |ks| ==> ks[i] in ks;
    seq(|ks|, i requires 0 <= i < |ks| => (ks[i], keys[ks[i]]))
  }

  /** The sorted items list the map exactly: one pair per key, each with
      the key's value, in strictly ascending key order. */
  lemma SortedItemsListMap(keys: map<string, string>)
    ensures var items := SortedItems(keys);
            && |items| == |keys|
            && (forall i :: 0 <= i < |items| ==> items[i].0 in keys && items[i].1 == keys[items[i].0])
            && (forall i, j :: 0 <= i < j < |items| ==> StrLt(items[i].0, items[j].0))
            && (forall k :: k in keys ==> exists i :: 0 <= i < |items| && items[i].0 == k)
  {
    var ks := SortedKeys(keys.Keys);
    var items := SortedItems(keys);
    SortedKeysSpec(keys.Keys);
    assert forall i :: 0 <= i < |ks| ==> ks[i] in ks;
    forall k | k in keys
      ensures exists i :: 0 <= i < |items| && items[i].0 == k
    {
      assert k in ks;
      var i :| 0 <= i < |ks| && ks[i] == k;
      assert items[i].0 == k;
    }
  }

  /** One selector clause, `[k=v]`. */
  function Clause(k: string, v: string): string
  {
    "[" + k + "=" + v + "]"
  }

  /** The selector clauses `[k=v]` for `items`, in that order. */
  function Selectors(items: seq<(string, string)>): string
  {
    if items == [] then ""
    else
      var (k, v) := items[|items| - 1];
      Selectors(items[..|items| - 1]) + Clause(k, v)
  }

  /** The text of one element: its name, then its selectors sorted by key. */
  function ElemText(e: PathElem): string
  {
    e.name + Selectors(SortedItems(e.keys))
  }

  function ElemTexts(elems: seq<PathElem>): (ts: seq<string>)
    ensures |ts| == |elems|
    ensures forall i :: 0 <= i < |elems| ==> ts[i] == ElemText(elems[i])
  {
    seq(|elems|, i requires 0 <= i < |elems| => ElemText(elems[i]))
  }

  /** The keys of a listing of pairs, in order. */
  function ItemKeys(items: seq<(string, string)>): (ks: seq<string>)
    ensures |ks| == |items|
  {
    seq(|items|, i requires 0 <= i < |items| => items[i].0)
  }

  /** A listing that holds every key of a map, and only those, has the
      map's key set as its members. */
  lemma ItemKeysMembers(keys: map<string, string>, items: seq<(string, string)>)
    requires forall i :: 0 <= i < |items| ==> items[i].0 in keys
    requires forall k :: k in keys ==> exists i :: 0 <= i < |items| && items[i].0 == k
    ensures forall k :: k in ItemKeys(items) <==> k in keys.Keys
  {
    var ks := ItemKeys(items);
    forall k
      ensures k in ks <==> k in keys.Keys
    {
      if k in ks {
        var i :| 0 <= i < |ks| && ks[i] == k;
      }
      if k in keys {
        var i :| 0 <= i < |items| && items[i].0 == k;
        assert ks[i] == k;
      }
    }
  }

  /** Any strictly ascending listing of a map's pairs is the sorted one. */
  lemma SortedItemsCanonical(keys: map<string, string>, items: seq<(string, string)>)
    requires forall i, j :: 0 <= i < j < |items| ==> StrLt(items[i].0, items[j].0)
    requires forall i :: 0 <= i < |items| ==> items[i].0 in keys && items[i].1 == keys[items[i].0]
    requires forall k :: k in keys ==> exists i :: 0 <= i < |items| && items[i].0 == k
    ensures SortedItems(keys) == items
  {
    ItemKeysMembers(keys, items);
    SortedKeysUnique(keys.Keys, ItemKeys(items));
    var s := SortedItems(keys);
    assert |s| == |items|;
    assert forall i :: 0 <= i < |s| ==> s[i] == items[i];
  }

  /** An element's text depends only on its name and its key map, never on
      the order in which the keys were set. */
  lemma ElemTextCanonical(e: PathElem, items: seq<(string, string)>)
    requires forall i, j :: 0 <= i < j < |items| ==> StrLt(items[i].0, items[j].0)
    requires forall i :: 0 <= i < |items| ==> items[i].0 in e.keys && items[i].1 == e.keys[items[i].0]
    requires forall k :: k in e.keys ==> exists i :: 0 <= i < |items| && items[i].0 == k
    ensures ElemText(e) == e.name + Selectors(items)
  {
    SortedItemsCanonical(e.keys, items);
  }

  /** The serializer writes selectors in ascending key order, whatever the
      order they were set in: `a[a=2][z=1]`. */
  lemma SortedSelectorsExample()
    ensures ElemText(PathElem("a", map["z" := "1", "a" := "2"])) == "a[a=2][z=1]"
  {
    var e := PathElem("a", map["z" := "1", "a" := "2"]);
    var items := [("a", "2"), ("z", "1")];
    assert StrLt("a", "z");
    forall k | k in e.keys
      ensures exists i :: 0 <= i < |items| && items[i].0 == k
    {
      if k == "a" {
        assert items[0].0 == k;
      } else {
        assert items[1].0 == k;
      }
    }
    ElemTextCanonical(e, items);
    assert items[..1] == [("a", "2")] && items[..0] == [];
  }

  /** The serializer. "Nothing to print" (no path, or a path without
      elements) is `None`, never the empty string. */
  function Serialize(p: Option<Path>): (r: Option<string>)
    ensures r.None? <==> p.None? || p.value.elems == []
  {
    if p.None? || p.value.elems == [] then None
    else Some(JoinSlash(ElemTexts(p.value.elems)))
  }

  /** The origin is never written: paths that differ only in their origin
      serialize alike. */
  lemma SerializeIgnoresOrigin(p: Path, origin: string)
    ensures Serialize(Some(p)) == Serialize(Some(p.(origin := origin)))
  {
  }

  /** `gnmi_path_degenerator`: for each element, its name followed by one
      `[k=v]` clause per key in sorted order; the element strings are then
      joined by '/'. */
  method GnmiPathDegenerator(gnmiPath: Option<Path>) returns (result: Option<string>)
    ensures result == Serialize(gnmiPath)
  {
    result := None;
    if gnmiPath.Some? && gnmiPath.value.elems != [] {
      var elems := gnmiPath.value.elems;
      var resourcePath: seq<string> := [];
      for n := 0 to |elems|
        invariant |resourcePath| == n
        invariant forall j :: 0 <= j < n ==> resourcePath[j] == ElemText(elems[j])
      {
        var pathElem := elems[n];
        var tp := "";
        if pathElem.name != "" {
          tp := tp + pathElem.name;
        }
        if pathElem.keys != map[] {
          var items := SortedItems(pathElem.keys);
          for j := 0 to |items|
            invariant tp == pathElem.name + Selectors(items[..j])
          {
            var (pkName, pkValue) := items[j];
            assert items[..j + 1][..j] == items[..j];
            tp := tp + Clause(pkName, pkValue);
          }
          assert items[..|items|] == items;
        } else {
          assert SortedItems(pathElem.keys) == [];
        }
        resourcePath := resourcePath + [tp];
      }
      assert resourcePath == ElemTexts(elems);
      result := Some(JoinSlash(resourcePath));
    }
  }
}
