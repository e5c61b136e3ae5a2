/** What the parser promises: how each kind of token moves the tokenizer,
    when it fails, and how the origin is found. */
module ParserProperties {
  import opened PathTypes
  import opened PathGenerator
  import opened PathDegenerator

  /** A name the tokenizer keeps whole: non-empty, without '/' or '['. */
  predicate PlainName(n: string)
  {
    n != [] && '/' !in n && '[' !in n
  }

  /** A selector key read back as written: the key ends at the first '='. */
  predicate PlainKey(k: string)
  {
    '=' !in k
  }

  /** A value read back unquoted: it ends at the first ']' and does not
      start with a quote. */
  predicate PlainValue(v: string)
  {
    ']' !in v && (v == [] || !IsQuote(v[0]))
  }

  /** A selector written with its value between quotes `q`. */
  function QuotedClause(k: string, q: char, v: string): string
  {
    "[" + k + "=" + ([q] + v + [q, ']'])
  }

  /** Moves the brackets of a clause followed by more text to where the
      tokenizer splits it: after the '[' and after the '='. */
  lemma Regroup(k: string, r: string, tail: string)
    ensures "[" + k + "=" + r + tail == "[" + (k + "=" + (r + tail))
  {
    AppendAssoc("[" + k + "=", r, tail);
    AppendAssoc("[", k, "=");
    AppendAssoc("[", k + "=", r + tail);
  }

  // ---------------------------------------------------------------------
  // One step of the tokenizer

  /** A name followed by a '/', a '[' or the end becomes one new element
      with no keys. */
  lemma ScanName(name: string, x: string, acc: seq<PathElem>)
    requires PlainName(name)
    requires x == [] || IsActive(x[0])
    ensures Scan(name + x, acc) == Scan(x, acc + [PathElem(name, map[])])
  {
    var s := name + x;
    var elems' := acc + [PathElem(name, map[])];
    assert forall j :: 0 <= j < |name| ==> s[j] == name[j] && name[j] in name;
    FirstActiveIs(s, |name|);
    assert s[..|name|] == name;
    if x == [] {
      assert Scan(s, acc) == Ok(elems');
    } else {
      assert s[|name| + 1..] == x[1..];
      FirstActiveIs(x, 0);
      assert x[..0] == [];
      if x[0] == '/' {
        assert Scan(s, acc) == Scan(x[1..], elems');
        assert Scan(x, elems') == Scan(x[1..], elems');
      } else {
        ScanAtSelector(s, acc);
        ScanAtSelector(x, elems');
      }
    }
  }

  /** A '/' with nothing before it creates no element. */
  lemma ScanSlash(x: string, acc: seq<PathElem>)
    ensures Scan("/" + x, acc) == Scan(x, acc)
  {
    FirstActiveIs("/" + x, 0);
    assert ("/" + x)[1..] == x;
  }

  /** A '[' with nothing before it parses a selector for the latest
      element; before any element exists that is an error. */
  lemma ScanBracket(s: string, acc: seq<PathElem>)
    ensures ParseSelector(s).Err? ==> Scan("[" + s, acc) == Err(ParseSelector(s).error)
    ensures ParseSelector(s).Ok? && acc == [] ==> Scan("[" + s, acc) == Err(LeadingSelector)
    ensures ParseSelector(s).Ok? && acc != [] ==>
              var sel := ParseSelector(s).value;
              Scan("[" + s, acc) == Scan(sel.rest, SetKey(acc, sel.key, sel.value))
  {
    FirstActiveIs("[" + s, 0);
    assert ("[" + s)[1..] == s;
  }

  // ---------------------------------------------------------------------
  // Selector clauses

  /** After `k=`, the parser looks at exactly the text that follows. */
  lemma KeyThen(k: string, rest: string)
    requires PlainKey(k)
    ensures var s := k + "=" + rest;
            IndexOf(s, '=') == |k| && s[..|k|] == k && s[|k| + 1..] == rest
  {
    var s := k + "=" + rest;
    assert forall j :: 0 <= j < |k| ==> s[j] == k[j] && k[j] in k;
    IndexOfIs(s, '=', |k|);
  }

  /** `k=v]` reads back the key and the unquoted value, which may hold
      ':' and '/'. */
  lemma ParsePlainSelector(k: string, v: string, tail: string)
    requires PlainKey(k) && PlainValue(v)
    ensures ParseSelector(k + "=" + (v + "]" + tail)) == Ok(Selector(k, v, tail))
  {
    var rest := v + "]" + tail;
    KeyThen(k, rest);
    assert forall j :: 0 <= j < |v| ==> rest[j] == v[j] && v[j] in v;
    IndexOfIs(rest, ']', |v|);
    assert rest[..|v|] == v && rest[|v| + 1..] == tail;
  }

  /** A tail without line breaks is accepted as it is, and with one final
      line break added it is accepted without it. */
  lemma LineTailPlain(u: string)
    requires '\n' !in u
    ensures LineTail(u) == Some(u)
    ensures LineTail(u + "\n") == Some(u)
  {
    var s := u + "\n";
    assert forall j :: 0 <= j < |u| ==> s[j] == u[j] && u[j] in u;
    IndexOfIs(u, '\n', |u|);
    IndexOfIs(s, '\n', |u|);
    assert s[..|u|] == u;
  }

  /** The quoted-value match on `q v q ] t` takes `v` as the value and
      leaves the tail to the line-break rule. */
  lemma MatchesQuoted(q: char, v: string, t: string)
    requires IsQuote(q) && q !in v
    ensures var s := [q] + v + [q, ']'] + t;
            MatchQuoted(s) == if LineTail(t).Some? then Some((v, LineTail(t).value)) else None
  {
    var s := [q] + v + [q, ']'] + t;
    assert forall j :: 0 <= j < |v| ==> s[1..][j] == v[j] && v[j] in v;
    IndexOfIs(s[1..], q, |v|);
    assert s[1..1 + |v|] == v && s[|v| + 3..] == t;
  }

  /** `k=qvq]` reads back the value between the quotes verbatim: it may hold
      '/', '[', ']' and ':', anything but the quote itself. A line break
      before the end of the input makes the match fail. */
  lemma ParseQuotedSelector(k: string, q: char, v: string, tail: string)
    requires PlainKey(k) && IsQuote(q) && q !in v
    ensures var r := ParseSelector(k + "=" + ([q] + v + [q, ']'] + tail));
            && ('\n' !in tail ==> r == Ok(Selector(k, v, tail)))
            && ((exists i :: 0 <= i < |tail| - 1 && tail[i] == '\n') ==>
                  r == Err(UnterminatedQuoted(k, [q] + v + [q, ']'] + tail)))
  {
    KeyThen(k, [q] + v + [q, ']'] + tail);
    MatchesQuoted(q, v, tail);
    LineTailSpec(tail);
    if '\n' !in tail {
      LineTailPlain(tail);
    }
  }

  /** A single line break at the very end of the input is dropped after a
      quoted value. */
  lemma ParseQuotedSelectorFinalLineBreak(k: string, q: char, v: string, tail: string)
    requires PlainKey(k) && IsQuote(q) && q !in v && '\n' !in tail
    ensures ParseSelector(k + "=" + ([q] + v + [q, ']'] + (tail + "\n"))) == Ok(Selector(k, v, tail))
  {
    KeyThen(k, [q] + v + [q, ']'] + (tail + "\n"));
    MatchesQuoted(q, v, tail + "\n");
    LineTailPlain(tail);
  }

  /** A clause without '=' fails, carrying the clause. */
  lemma MissingEqualsFails(t: string)
    requires '=' !in t
    ensures ParseSelector(t) == Err(MissingEquals(t))
  {
    IndexOfSpec(t, '=');
  }

  /** Nothing after the '=' is an error (Python's IndexError on `rest[0]`). */
  lemma MissingValueFails(k: string)
    requires PlainKey(k)
    ensures ParseSelector(k + "=") == Err(MissingValue(k))
  {
    KeyThen(k, []);
    assert k + "=" + [] == k + "=";
  }

  /** An unquoted value with no ']' after it fails. */
  lemma UnterminatedUnquotedFails(k: string, v: string)
    requires PlainKey(k) && v != [] && PlainValue(v)
    ensures ParseSelector(k + "=" + v) == Err(UnterminatedUnquoted(k, v))
  {
    KeyThen(k, v);
    assert forall j :: 0 <= j < |v| ==> v[j] in v;
    IndexOfIs(v, ']', |v|);
  }

  /** A quoted value whose quote never closes fails. */
  lemma UnclosedQuoteFails(k: string, q: char, v: string)
    requires PlainKey(k) && IsQuote(q) && q !in v
    ensures ParseSelector(k + "=" + ([q] + v)) == Err(UnterminatedQuoted(k, [q] + v))
  {
    var rest := [q] + v;
    KeyThen(k, rest);
    assert rest[1..] == v;
    assert forall j :: 0 <= j < |v| ==> v[j] in v;
    IndexOfIs(v, q, |v|);
  }

  /** A quoted value whose closing quote is not followed by ']' fails, even
      when a later quote is: the value ends at the first matching quote. */
  lemma QuoteWithoutBracketFails(k: string, q: char, v: string, t: string)
    requires PlainKey(k) && IsQuote(q) && q !in v
    requires t == [] || t[0] != ']'
    ensures ParseSelector(k + "=" + ([q] + v + [q] + t)) == Err(UnterminatedQuoted(k, [q] + v + [q] + t))
  {
    var rest := [q] + v + [q] + t;
    KeyThen(k, rest);
    assert forall j :: 0 <= j < |v| ==> rest[1..][j] == v[j];
    IndexOfIs(rest[1..], q, |v|);
  }

  // ---------------------------------------------------------------------
  // Selectors on a path

  /** A selector sets `key := value` on the latest element and on no other,
      for unquoted values ... */
  lemma SelectorSetsLastKey(k: string, v: string, tail: string, acc: seq<PathElem>)
    requires acc != [] && PlainKey(k) && PlainValue(v)
    ensures Scan(Clause(k, v) + tail, acc) == Scan(tail, SetKey(acc, k, v))
  {
    var body := k + "=" + (v + "]" + tail);
    ParsePlainSelector(k, v, tail);
    AppendAssoc("[" + k + "=", v, "]");
    Regroup(k, v + "]", tail);
    ScanBracket(body, acc);
  }

  /** ... and for quoted ones, whose value is taken verbatim. */
  lemma QuotedSelectorSetsLastKey(k: string, q: char, v: string, tail: string, acc: seq<PathElem>)
    requires acc != [] && PlainKey(k) && IsQuote(q) && q !in v && '\n' !in tail
    ensures Scan(QuotedClause(k, q, v) + tail, acc) == Scan(tail, SetKey(acc, k, v))
  {
    var body := k + "=" + ([q] + v + [q, ']'] + tail);
    ParseQuotedSelector(k, q, v, tail);
    Regroup(k, [q] + v + [q, ']'], tail);
    ScanBracket(body, acc);
  }

  /** Consecutive selectors accumulate on the same element. */
  lemma SelectorsAccumulate(name: string, k1: string, v1: string, k2: string, v2: string,
                            tail: string, acc: seq<PathElem>)
    requires PlainName(name)
    requires PlainKey(k1) && PlainValue(v1) && PlainKey(k2) && PlainValue(v2)
    requires tail == [] || IsActive(tail[0])
    ensures Scan(name + Clause(k1, v1) + Clause(k2, v2) + tail, acc)
         == Scan(tail, acc + [PathElem(name, map[k1 := v1, k2 := v2])])
  {
    var second := Clause(k2, v2) + tail;
    var acc1 := acc + [PathElem(name, map[])];
    var acc2 := acc + [PathElem(name, map[k1 := v1])];
    AppendAssoc(name + Clause(k1, v1), Clause(k2, v2), tail);
    AppendAssoc(name, Clause(k1, v1), second);
    ScanName(name, Clause(k1, v1) + second, acc);
    SelectorSetsLastKey(k1, v1, second, acc1);
    assert SetKey(acc1, k1, v1) == acc2;
    SelectorSetsLastKey(k2, v2, tail, acc2);
    assert SetKey(acc2, k2, v2) == acc + [PathElem(name, map[k1 := v1, k2 := v2])];
  }

  /** A repeated key keeps the later value. */
  lemma RepeatedKeyOverwrites(name: string, k: string, v1: string, v2: string,
                              tail: string, acc: seq<PathElem>)
    requires PlainName(name) && PlainKey(k) && PlainValue(v1) && PlainValue(v2)
    requires tail == [] || IsActive(tail[0])
    ensures Scan(name + Clause(k, v1) + Clause(k, v2) + tail, acc)
         == Scan(tail, acc + [PathElem(name, map[k := v2])])
  {
    SelectorsAccumulate(name, k, v1, k, v2, tail, acc);
    assert map[k := v1, k := v2] == map[k := v2];
  }

  /** A path cannot start with a selector: whatever follows the '[', the
      parse fails. */
  lemma SelectorFirstFails(s: string)
    ensures Parse("[" + s).Err?
    ensures ParseSelector(s).Ok? ==> Parse("[" + s) == Err(LeadingSelector)
  {
    ScanBracket(s, []);
  }

  /** A malformed selector after a name makes the whole parse fail with the
      selector's error, whatever follows it. */
  lemma BadSelectorFails(name: string, s: string)
    requires PlainName(name) && ParseSelector(s).Err?
    ensures Parse(name + "[" + s) == Err(ParseSelector(s).error)
  {
    ScanName(name, "[" + s, []);
    assert name + "[" + s == name + ("[" + s);
    ScanBracket(s, [PathElem(name, map[])]);
  }

  // ---------------------------------------------------------------------
  // Whole paths

  /** "" and "/" are both the empty path with no origin. */
  lemma EmptyPaths()
    ensures Parse("") == Ok(Path("", []))
    ensures Parse("/") == Ok(Path("", []))
  {
    ScanSlash("", []);
  }

  /** A leading '/' is ignored. */
  lemma LeadingSlashIgnored(s: string)
    ensures Parse("/" + s) == Parse(s)
  {
    ScanSlash(s, []);
  }

  /** Elements named by the non-empty pieces of a split, in order. */
  function BareElems(pieces: seq<string>): seq<PathElem>
  {
    if pieces == [] then []
    else (if pieces[0] == [] then [] else [PathElem(pieces[0], map[])]) + BareElems(pieces[1..])
  }

  /** A piece without '/' or '[' followed by a '/' adds one element when
      it is not empty, and none when it is. */
  lemma ScanPieceSlash(tag: string, rest: string, acc: seq<PathElem>)
    requires '/' !in tag && '[' !in tag
    ensures Scan(tag + "/" + rest, acc)
         == Scan(rest, acc + if tag == [] then [] else [PathElem(tag, map[])])
  {
    if tag == [] {
      assert tag + "/" + rest == "/" + rest;
      ScanSlash(rest, acc);
      assert acc + [] == acc;
    } else {
      AppendAssoc(tag, "/", rest);
      ScanName(tag, "/" + rest, acc);
      ScanSlash(rest, acc + [PathElem(tag, map[])]);
    }
  }

  /** A last piece without '/' or '[' adds one element when it is not
      empty, and none when it is. */
  lemma ScanLastPiece(tag: string, acc: seq<PathElem>)
    requires '/' !in tag && '[' !in tag
    ensures Scan(tag, acc) == Ok(acc + if tag == [] then [] else [PathElem(tag, map[])])
  {
    if tag == [] {
      assert acc + [] == acc;
    } else {
      assert tag + "" == tag;
      ScanName(tag, "", acc);
    }
  }

  /** Without selectors, the elements are exactly the non-empty pieces
      between the '/'s, in source order. */
  lemma {:induction false} SegmentsBecomeElements(s: string, acc: seq<PathElem>)
    requires '[' !in s
    ensures Scan(s, acc) == Ok(acc + BareElems(SplitOn(s, '/')))
    decreases |s|
  {
    var i := IndexOf(s, '/');
    IndexOfSpec(s, '/');
    var pieces := SplitOn(s, '/');
    if i == |s| {
      var first := if s == [] then [] else [PathElem(s, map[])];
      assert pieces == [s] && pieces[1..] == [];
      ScanLastPiece(s, acc);
      assert BareElems(pieces) == first + BareElems([]);
      assert first + [] == first;
    } else {
      var tag := s[..i];
      var rest := s[i + 1..];
      var first := if tag == [] then [] else [PathElem(tag, map[])];
      assert s == tag + "/" + rest;
      assert '/' !in tag by {
        assert forall j :: 0 <= j < |tag| ==> tag[j] == s[j];
      }
      ScanPieceSlash(tag, rest, acc);
      SegmentsBecomeElements(rest, acc + first);
      assert pieces[1..] == SplitOn(rest, '/');
      assert BareElems(pieces) == first + BareElems(SplitOn(rest, '/'));
      AppendAssoc(acc, first, BareElems(SplitOn(rest, '/')));
    }
  }

  // ---------------------------------------------------------------------
  // Origin

  /** `o:` splits at its ':' into `o` and nothing. */
  lemma ColonOnly(o: string)
    requires ':' !in o && '/' !in o && '[' !in o
    ensures var name := o + ":";
            && '/' !in name && '[' !in name && ':' in name
            && IndexOf(name, ':') == |o| && name[..|o|] == o && name[|o| + 1..] == []
  {
    var name := o + ":";
    assert name[|o|] == ':';
    assert forall j :: 0 <= j < |o| ==> name[j] == o[j] && o[j] in o;
    IndexOfIs(name, ':', |o|);
    assert name[..|o|] == o;
  }

  /** `origin://` is the empty path with that origin: the first element is
      only a prefix, so it is dropped. */
  lemma OriginOnly(o: string)
    requires ':' !in o && '/' !in o && '[' !in o
    ensures Parse(o + "://") == Ok(Path(o, []))
  {
    var name := o + ":";
    var e := PathElem(name, map[]);
    ColonOnly(o);
    assert o + "://" == name + "/" + "/";
    assert [] + [e] == [e];
    ScanPieceSlash(name, "/", []);
    assert "/" == "/" + "";
    ScanSlash("", [e]);
    assert Scan(o + "://", []) == Ok([e]);
    assert [e][1..] == [];
    assert ResolveOrigin([e]) == Path(o, []);
  }

  /** ... and so is `/origin://`. */
  lemma RootedOriginOnly(o: string)
    requires ':' !in o && '/' !in o && '[' !in o
    ensures Parse("/" + o + "://") == Ok(Path(o, []))
  {
    OriginOnly(o);
    LeadingSlashIgnored(o + "://");
    AppendAssoc("/", o, "://");
  }

  /** `o:n` splits at its first ':' into `o` and `n`. */
  lemma ColonSplit(o: string, n: string)
    requires ':' !in o && '/' !in o && '[' !in o
    requires n != [] && '/' !in n && '[' !in n
    ensures var name := o + ":" + n;
            && PlainName(name) && ':' in name
            && IndexOf(name, ':') == |o| && name[..|o|] == o && name[|o| + 1..] == n
  {
    var name := o + ":" + n;
    assert name[|o|] == ':';
    assert forall j :: 0 <= j < |o| ==> name[j] == o[j] && o[j] in o;
    assert forall j :: |o| < j < |name| ==> name[j] == n[j - |o| - 1] && n[j - |o| - 1] in n;
    IndexOfIs(name, ':', |o|);
    assert name[..|o|] == o && name[|o| + 1..] == n;
  }

  /** A `module:` prefix on the first element becomes the origin and is
      taken off that element's name; everything else the tokenizer built,
      including colons in later names, is kept. */
  lemma ModulePrefixBecomesOrigin(o: string, n: string, x: string)
    requires ':' !in o && '/' !in o && '[' !in o
    requires n != [] && '/' !in n && '[' !in n
    requires x == [] || IsActive(x[0])
    requires Scan(x, [PathElem(o + ":" + n, map[])]).Ok?
    ensures var es := Scan(x, [PathElem(o + ":" + n, map[])]).value;
            && |es| >= 1
            && Parse(o + ":" + n + x) == Ok(Path(o, es[0 := es[0].(name := n)]))
  {
    var name := o + ":" + n;
    ColonSplit(o, n);
    ScanName(name, x, []);
    assert [] + [PathElem(name, map[])] == [PathElem(name, map[])];
    ScanKeepsBuiltElements(x, [PathElem(name, map[])]);
    var es := Scan(x, [PathElem(name, map[])]).value;
    assert Scan(name + x, []) == Ok(es);
    assert es[0].name == name;
    assert ResolveOrigin(es) == Path(o, es[0 := es[0].(name := n)]);
  }
}
