/** The serializer and the parser are inverse on paths they can both
    express: names without '/' or '[', keys without '=', values without ']'
    that do not start with a quote. The serializer does not write the
    origin, so a path with an origin comes back when the caller writes
    `origin:` in front of the text. */
module RoundTrip {
  import opened PathTypes
  import opened PathGenerator
  import opened PathDegenerator
  import opened ParserProperties

  /** Every key and value reads back unquoted. */
  predicate SafeKeys(keys: map<string, string>)
  {
    forall k :: k in keys ==> PlainKey(k) && PlainValue(keys[k])
  }

  /** An element the serializer writes in a form the parser reads back. */
  predicate SafeElem(e: PathElem)
  {
    PlainName(e.name) && SafeKeys(e.keys)
  }

  predicate SafeElems(es: seq<PathElem>)
  {
    forall i :: 0 <= i < |es| ==> SafeElem(es[i])
  }

  predicate PlainItems(items: seq<(string, string)>)
  {
    forall i :: 0 <= i < |items| ==> PlainKey(items[i].0) && PlainValue(items[i].1)
  }

  /** `m` with the pairs of `items` set in order, later pairs winning. */
  function Assign(m: map<string, string>, items: seq<(string, string)>): map<string, string>
  {
    if items == [] then m
    else
      var (k, v) := items[|items| - 1];
      Assign(m, items[..|items| - 1])[k := v]
  }

  /** `acc` with the pairs of `items` set on its last element. */
  function SetKeys(acc: seq<PathElem>, items: seq<(string, string)>): seq<PathElem>
    requires acc != []
  {
    var last := acc[|acc| - 1];
    acc[|acc| - 1 := PathElem(last.name, Assign(last.keys, items))]
  }

  /** Written selectors begin with '['. */
  lemma {:induction false} SelectorsStartWithBracket(items: seq<(string, string)>)
    requires items != []
    ensures |Selectors(items)| > 0 && Selectors(items)[0] == '['
  {
    var n := |items|;
    var (k, v) := items[n - 1];
    if n > 1 {
      SelectorsStartWithBracket(items[..n - 1]);
    } else {
      assert Selectors(items[..n - 1]) == "";
    }
    assert Selectors(items) == Selectors(items[..n - 1]) + Clause(k, v);
  }

  /** Reading written selectors sets their pairs, in order, on the latest
      element. */
  lemma {:induction false} ScanSelectors(items: seq<(string, string)>, tail: string, acc: seq<PathElem>)
    requires acc != [] && PlainItems(items)
    ensures Scan(Selectors(items) + tail, acc) == Scan(tail, SetKeys(acc, items))
    decreases |items|
  {
    if items == [] {
      assert Selectors(items) + tail == tail;
      assert SetKeys(acc, items) == acc;
    } else {
      var n := |items|;
      var init := items[..n - 1];
      var (k, v) := items[n - 1];
      assert PlainItems(init) by {
        assert forall i :: 0 <= i < |init| ==> init[i] == items[i];
      }
      AppendAssoc(Selectors(init), Clause(k, v), tail);
      ScanSelectors(init, Clause(k, v) + tail, acc);
      SelectorSetsLastKey(k, v, tail, SetKeys(acc, init));
      assert SetKey(SetKeys(acc, init), k, v) == SetKeys(acc, items);
    }
  }

  /** Setting the pairs of a listing drawn from `keys` gives the part of
      `keys` the listing covers. */
  lemma {:induction false} AssignListed(items: seq<(string, string)>, keys: map<string, string>)
    requires forall i :: 0 <= i < |items| ==> items[i].0 in keys && items[i].1 == keys[items[i].0]
    ensures forall k :: k in Assign(map[], items) <==> exists i :: 0 <= i < |items| && items[i].0 == k
    ensures forall k :: k in Assign(map[], items) ==> Assign(map[], items)[k] == keys[k]
    decreases |items|
  {
    if items != [] {
      var n := |items|;
      var init := items[..n - 1];
      assert forall i :: 0 <= i < |init| ==> init[i] == items[i];
      AssignListed(init, keys);
      forall k | exists i :: 0 <= i < |items| && items[i].0 == k
        ensures k in Assign(map[], items)
      {
        var i :| 0 <= i < |items| && items[i].0 == k;
        if i < n - 1 {
          assert init[i].0 == k;
        }
      }
    }
  }

  /** Setting the sorted pairs of a map on an empty map rebuilds it. */
  lemma AssignSortedItems(keys: map<string, string>)
    ensures Assign(map[], SortedItems(keys)) == keys
  {
    var items := SortedItems(keys);
    SortedItemsListMap(keys);
    AssignListed(items, keys);
    var a := Assign(map[], items);
    assert forall k :: k in a <==> k in keys;
  }

  /** The text of a safe element reads back as that element. */
  lemma ScanElemText(e: PathElem, tail: string, acc: seq<PathElem>)
    requires SafeElem(e)
    requires tail == [] || tail[0] == '/'
    ensures Scan(ElemText(e) + tail, acc) == Scan(tail, acc + [e])
  {
    var items := SortedItems(e.keys);
    SortedItemsListMap(e.keys);
    assert PlainItems(items);
    AppendAssoc(e.name, Selectors(items), tail);
    if items != [] {
      SelectorsStartWithBracket(items);
    } else {
      assert Selectors(items) + tail == tail;
    }
    ScanName(e.name, Selectors(items) + tail, acc);
    ScanSelectors(items, tail, acc + [PathElem(e.name, map[])]);
    AssignSortedItems(e.keys);
    assert SetKeys(acc + [PathElem(e.name, map[])], items) == acc + [e];
  }

  /** The joined texts of safe elements read back as those elements. */
  lemma {:induction false} ScanElemTexts(es: seq<PathElem>, acc: seq<PathElem>)
    requires es != [] && SafeElems(es)
    ensures Scan(JoinSlash(ElemTexts(es)), acc) == Ok(acc + es)
    decreases |es|
  {
    var ts := ElemTexts(es);
    if |es| == 1 {
      assert JoinSlash(ts) == ElemText(es[0]) + "";
      ScanElemText(es[0], "", acc);
      assert es == [es[0]];
    } else {
      var rest := JoinSlash(ElemTexts(es[1..]));
      assert ts[1..] == ElemTexts(es[1..]);
      assert JoinSlash(ts) == ts[0] + "/" + rest;
      AppendAssoc(ts[0], "/", rest);
      ScanElemText(es[0], "/" + rest, acc);
      ScanSlash(rest, acc + [es[0]]);
      assert SafeElems(es[1..]) by {
        assert forall i :: 0 <= i < |es| - 1 ==> es[1..][i] == es[i + 1];
      }
      ScanElemTexts(es[1..], acc + [es[0]]);
      AppendAssoc(acc, [es[0]], es[1..]);
      assert [es[0]] + es[1..] == es;
    }
  }

  /** Prefixing the first piece prefixes the joined text. */
  lemma JoinSlashPrefix(pre: string, ts: seq<string>)
    requires |ts| >= 1
    ensures JoinSlash(ts[0 := pre + ts[0]]) == pre + JoinSlash(ts)
  {
    if |ts| > 1 {
      var ts' := ts[0 := pre + ts[0]];
      assert ts'[1..] == ts[1..];
      AppendAssoc(pre, ts[0], "/");
      AppendAssoc(pre, ts[0] + "/", JoinSlash(ts[1..]));
    }
  }

  /** A path without an origin, whose first name has no ':', reads back
      from its serialization. */
  lemma RoundTripWithoutOrigin(p: Path)
    requires p.origin == "" && p.elems != [] && SafeElems(p.elems)
    requires ':' !in p.elems[0].name
    ensures Serialize(Some(p)).Some?
    ensures Parse(Serialize(Some(p)).value) == Ok(p)
  {
    ScanElemTexts(p.elems, []);
    assert [] + p.elems == p.elems;
  }

  /** A path with an origin reads back from `origin:` followed by its
      serialization. */
  lemma RoundTripWithOrigin(p: Path)
    requires p.origin != "" && ':' !in p.origin && '/' !in p.origin && '[' !in p.origin
    requires p.elems != [] && SafeElems(p.elems)
    ensures Serialize(Some(p)).Some?
    ensures Parse(p.origin + ":" + Serialize(Some(p)).value) == Ok(p)
  {
    var o := p.origin;
    var es := p.elems;
    var e0 := es[0];
    var first := PathElem(o + ":" + e0.name, e0.keys);
    var es' := es[0 := first];
    ColonSplit(o, e0.name);
    assert SafeElems(es');
    AppendAssoc(o + ":", e0.name, Selectors(SortedItems(e0.keys)));
    assert ElemTexts(es') == ElemTexts(es)[0 := (o + ":") + ElemText(e0)];
    JoinSlashPrefix(o + ":", ElemTexts(es));
    ScanElemTexts(es', []);
    assert [] + es' == es';
    assert es'[0 := es'[0].(name := e0.name)] == es;
  }
}
