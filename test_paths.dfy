/** Whole expressions of the shapes in the repository's test table, parsed
    by composing the general properties of the tokenizer. */
module TestPaths {
  import opened PathTypes
  import opened PathGenerator
  import opened PathDegenerator
  import opened ParserProperties

  /** `o:n/m[k=v]`: the module prefix becomes the origin, and the selector
      lands on the second element. */
  lemma ModulePathWithKey(o: string, n: string, m: string, k: string, v: string)
    requires ':' !in o && '/' !in o && '[' !in o
    requires PlainName(n) && PlainName(m) && PlainKey(k) && PlainValue(v)
    ensures Parse(o + ":" + n + "/" + m + Clause(k, v))
            == Ok(Path(o, [PathElem(n, map[]), PathElem(m, map[k := v])]))
  {
    var c := Clause(k, v);
    var x := "/" + (m + c);
    var e0 := PathElem(o + ":" + n, map[]);
    var e1 := PathElem(m, map[]);
    var es := [e0, PathElem(m, map[k := v])];
    ScanSlash(m + c, [e0]);
    ScanName(m, c, [e0]);
    assert [e0] + [e1] == [e0, e1];
    assert c + "" == c;
    SelectorSetsLastKey(k, v, "", [e0, e1]);
    assert e1.keys[k := v] == map[k := v];
    assert SetKey([e0, e1], k, v) == es;
    assert Scan(c, [e0, e1]) == Ok(es);
    assert Scan(x, [e0]) == Ok(es);
    ModulePrefixBecomesOrigin(o, n, x);
    AppendAssoc(o + ":" + n, "/", m + c);
    AppendAssoc(o + ":" + n + "/", m, c);
    assert o + ":" + n + "/" + m + c == o + ":" + n + x;
    assert es[0 := es[0].(name := n)] == [PathElem(n, map[]), PathElem(m, map[k := v])];
  }
}
