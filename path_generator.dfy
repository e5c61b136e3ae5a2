/** The XPath-to-gNMI-path parser: a left-to-right tokenizer that splits at
    the first '/' or '[', builds elements, attaches `[key=value]` selectors
    to the latest element, and finally takes the origin from the first
    element's `module:` prefix.

    `Scan`, `ParseSelector` and `ResolveOrigin` are the specification of
    the loop; `GnmiPathGenerator` is the loop itself, proved equal to
    `Parse`. */
module PathGenerator {
  import opened PathTypes

  /** A parsed selector clause: its key, its value, and the text after the
      closing ']'. */
  datatype Selector = Selector(key: string, value: string, rest: string)

  /** Every element has a non-empty name. */
  predicate NamesNonEmpty(elems: seq<PathElem>)
  {
    forall i :: 0 <= i < |elems| ==> elems[i].name != ""
  }

  /** What the pattern `(.*)$` accepts after a quoted value's closing
      `quote]`: a tail without a line break, or one whose only line break is
      its last character, which `$` lets through and the group leaves out. */
  function LineTail(t: string): (r: Option<string>)
    ensures r.Some? ==> |r.value| <= |t|
  {
    var nl := IndexOf(t, '\n');
    if nl == |t| then Some(t)
    else if nl == |t| - 1 then Some(t[..nl])
    else None
  }

  /** The tail is rejected exactly when a line break comes before its last
      character; an accepted tail has no line break and loses at most a
      final one. */
  lemma LineTailSpec(t: string)
    ensures var r := LineTail(t);
            && (r.None? <==> exists i :: 0 <= i < |t| - 1 && t[i] == '\n')
            && (r.Some? ==> '\n' !in r.value && (t == r.value || t == r.value + "\n"))
  {
    IndexOfSpec(t, '\n');
    var nl := IndexOf(t, '\n');
    if nl == |t| - 1 {
      assert t == t[..nl] + "\n";
    }
  }

  /** The match of `q([^q]*)q](.*)$` at the start of `s`, where `q` is the
      quote `s` starts with: the value between the quotes and the rest. */
  function MatchQuoted(s: string): (r: Option<(string, string)>)
    requires s != [] && IsQuote(s[0])
    ensures r.Some? ==> |r.value.0| + |r.value.1| + 3 <= |s|
  {
    var q := s[0];
    var close := 1 + IndexOf(s[1..], q);
    if close + 1 < |s| && s[close + 1] == ']' then
      match LineTail(s[close + 2..])
      case Some(t) => Some((s[1..close], t))
      case None => None
    else None
  }

  /** A match is the opening quote, a value free of that quote, the same
      quote and ']', followed by a tail the line-break rule accepts. */
  lemma MatchQuotedSpec(s: string)
    requires s != [] && IsQuote(s[0])
    ensures var r := MatchQuoted(s);
            r.Some? ==> var n := |r.value.0|;
                        && n + 3 <= |s|
                        && s[0] !in r.value.0
                        && s[1..n + 1] == r.value.0
                        && s[n + 1] == s[0] && s[n + 2] == ']'
                        && LineTail(s[n + 3..]) == Some(r.value.1)
  {
    IndexOfSpec(s[1..], s[0]);
  }

  /** Parses the selector clause that follows a '['. */
  function ParseSelector(s: string): (r: Result<Selector>)
    ensures r.Ok? ==> |r.value.key| < |s| && |r.value.rest| < |s|
  {
    var eq := IndexOf(s, '=');
    if eq == |s| then Err(MissingEquals(s))
    else
      var key := s[..eq];
      var rest := s[eq + 1..];
      if rest == [] then Err(MissingValue(key))
      else if IsQuote(rest[0]) then
        match MatchQuoted(rest)
        case None => Err(UnterminatedQuoted(key, rest))
        case Some((value, tail)) => Ok(Selector(key, value, tail))
      else
        var close := IndexOf(rest, ']');
        if close == |rest| then Err(UnterminatedUnquoted(key, rest))
        else Ok(Selector(key, rest[..close], rest[close + 1..]))
  }

  /** A selector fails for a missing '=' exactly when there is none, and a
      parsed key is the text before the first '='. */
  lemma ParseSelectorSpec(s: string)
    ensures var r := ParseSelector(s);
            && (r.Err? && r.error.MissingEquals? <==> '=' !in s)
            && (r.Ok? ==> && '=' !in r.value.key
                          && s[..|r.value.key| + 1] == r.value.key + "=")
  {
    IndexOfSpec(s, '=');
    var eq := IndexOf(s, '=');
    if eq < |s| {
      assert s[..eq + 1] == s[..eq] + "=";
    }
  }

  /** `elems` with `key := value` set on its last element. */
  function SetKey(elems: seq<PathElem>, key: string, value: string): seq<PathElem>
    requires elems != []
  {
    var last := elems[|elems| - 1];
    elems[|elems| - 1 := PathElem(last.name, last.keys[key := value])]
  }

  /** The tokenizer loop from the state (`remaining`, `elems`) to its end:
      the elements it builds, or the error it stops with. */
  function Scan(remaining: string, elems: seq<PathElem>): (r: Result<seq<PathElem>>)
    ensures r.Ok? ==> |elems| <= |r.value|
    decreases |remaining|
  {
    if remaining == [] then Ok(elems)
    else
      var i := FirstActive(remaining);
      var tag := remaining[..i];
      var elems' := if tag == [] then elems else elems + [PathElem(tag, map[])];
      if i == |remaining| then Ok(elems')
      else if remaining[i] == '/' then Scan(remaining[i + 1..], elems')
      else
        match ParseSelector(remaining[i + 1..])
        case Err(e) => Err(e)
        case Ok(sel) =>
          if elems' == [] then Err(LeadingSelector)
          else Scan(sel.rest, SetKey(elems', sel.key, sel.value))
  }

  /** `after` is `before` with elements appended and keys set on what was
      its last element: names stay, every element before the last one is
      untouched, and no element with an empty name appears. */
  predicate Grows(before: seq<PathElem>, after: seq<PathElem>)
  {
    && |before| <= |after|
    && (forall i :: 0 <= i < |before| ==> after[i].name == before[i].name)
    && (forall i :: 0 <= i < |before| - 1 ==> after[i] == before[i])
    && (NamesNonEmpty(before) ==> NamesNonEmpty(after))
  }

  lemma GrowsTransitive(a: seq<PathElem>, b: seq<PathElem>, c: seq<PathElem>)
    requires Grows(a, b) && Grows(b, c)
    ensures Grows(a, c)
  {
  }

  /** The two steps of the tokenizer: appending a named element and
      setting a key on the last element. */
  lemma GrowsByStep(elems: seq<PathElem>, tag: string, key: string, value: string)
    ensures tag != [] ==> Grows(elems, elems + [PathElem(tag, map[])])
    ensures elems != [] ==> Grows(elems, SetKey(elems, key, value))
  {
  }

  /** One step of the tokenizer at a '[': the clause after it decides. */
  lemma ScanAtSelector(remaining: string, elems: seq<PathElem>)
    requires FirstActive(remaining) < |remaining| && remaining[FirstActive(remaining)] == '['
    ensures var i := FirstActive(remaining);
            var tag := remaining[..i];
            var elems' := if tag == [] then elems else elems + [PathElem(tag, map[])];
            Scan(remaining, elems) ==
              match ParseSelector(remaining[i + 1..])
              case Err(e) => Err(e)
              case Ok(sel) =>
                if elems' == [] then Err(LeadingSelector)
                else Scan(sel.rest, SetKey(elems', sel.key, sel.value))
  {
  }

  /** The tokenizer only appends elements and only sets keys on the last
      element it has. */
  lemma {:induction false} ScanKeepsBuiltElements(remaining: string, elems: seq<PathElem>)
    ensures Scan(remaining, elems).Ok? ==> Grows(elems, Scan(remaining, elems).value)
    decreases |remaining|
  {
    if remaining == [] {
      return;
    }
    var i := FirstActive(remaining);
    var tag := remaining[..i];
    var elems' := if tag == [] then elems else elems + [PathElem(tag, map[])];
    GrowsByStep(elems, tag, "", "");
    assert Grows(elems, elems');
    if i == |remaining| {
      assert Scan(remaining, elems) == Ok(elems');
    } else if remaining[i] == '/' {
      assert Scan(remaining, elems) == Scan(remaining[i + 1..], elems');
      ScanKeepsBuiltElements(remaining[i + 1..], elems');
      if Scan(remaining, elems).Ok? {
        GrowsTransitive(elems, elems', Scan(remaining, elems).value);
      }
    } else {
      var ps := ParseSelector(remaining[i + 1..]);
      if ps.Ok? && elems' != [] {
        var sel := ps.value;
        var next := SetKey(elems', sel.key, sel.value);
        assert Scan(remaining, elems) == Scan(sel.rest, next);
        GrowsByStep(elems', "", sel.key, sel.value);
        GrowsTransitive(elems, elems', next);
        ScanKeepsBuiltElements(sel.rest, next);
        if Scan(remaining, elems).Ok? {
          GrowsTransitive(elems, next, Scan(remaining, elems).value);
        }
      } else {
        assert Scan(remaining, elems).Err?;
      }
    }
  }

  /** The origin step: text before the first ':' of the first element's
      name becomes the origin; the element keeps what follows, or is
      dropped when nothing does. */
  function ResolveOrigin(elems: seq<PathElem>): (p: Path)
    ensures ':' !in p.origin
    ensures elems == [] || ':' !in elems[0].name ==> p == Path("", elems)
    ensures elems != [] && ':' in elems[0].name ==>
              || (elems[0].name == p.origin + ":" && p.elems == elems[1..])
              || (&& |p.elems| == |elems|
                  && elems[0].name == p.origin + ":" + p.elems[0].name
                  && p.elems[0].name != ""
                  && p.elems[0].keys == elems[0].keys
                  && p.elems[1..] == elems[1..])
    ensures NamesNonEmpty(elems) ==> NamesNonEmpty(p.elems)
  {
    if |elems| >= 1 && ':' in elems[0].name then
      var name := elems[0].name;
      var c := IndexOf(name, ':');
      IndexOfSpec(name, ':');
      var origin := name[..c];
      var elemName := name[c + 1..];
      assert name == origin + ":" + elemName;
      if elemName != [] then Path(origin, elems[0 := elems[0].(name := elemName)])
      else Path(origin, elems[1..])
    else Path("", elems)
  }

  /** The parser as a whole. A failure carries no partial path. */
  function Parse(text: string): (r: Result<Path>)
    ensures r.Ok? ==> NamesNonEmpty(r.value.elems)
    ensures r.Ok? ==> ':' !in r.value.origin
  {
    ScanKeepsBuiltElements(text, []);
    match Scan(text, [])
    case Err(e) => Err(e)
    case Ok(elems) => Ok(ResolveOrigin(elems))
  }

  /** The selector reader inside the tokenizer loop: the key up to the
      first '=', then a quoted value up to the matching quote and ']', or
      an unquoted value up to the first ']'. It follows the statements of
      the loop body one by one, each failure leaving at once as the
      source's `raise` does; `ParseSelector` is the same computation as a
      single expression. */
  method ReadSelector(clause: string) returns (r: Result<Selector>)
    ensures r == ParseSelector(clause)
  {
    var eq := IndexOf(clause, '=');
    if eq == |clause| {
      return Err(MissingEquals(clause));
    }
    var key := clause[..eq];
    var rest := clause[eq + 1..];
    if rest == [] {
      return Err(MissingValue(key));
    }
    var quoteChar := rest[0];
    if IsQuote(quoteChar) {
      var m := MatchQuoted(rest);
      if m.None? {
        return Err(UnterminatedQuoted(key, rest));
      }
      return Ok(Selector(key, m.value.0, m.value.1));
    }
    var close := IndexOf(rest, ']');
    if close == |rest| {
      return Err(UnterminatedUnquoted(key, rest));
    }
    return Ok(Selector(key, rest[..close], rest[close + 1..]));
  }

  /** `gnmi_path_generator`: the tokenizer loop over a shrinking remainder,
      then the origin step on the first element. */
  method GnmiPathGenerator(pathInQuestion: string) returns (r: Result<Path>)
    ensures r == Parse(pathInQuestion)
  {
    var elems: seq<PathElem> := [];
    var remainingPath := pathInQuestion;
    while remainingPath != []
      invariant Scan(remainingPath, elems) == Scan(pathInQuestion, [])
      decreases |remainingPath|
    {
      ghost var elems0 := elems;
      var i := FirstActive(remainingPath);
      var tag := remainingPath[..i];
      if tag != [] {
        elems := elems + [PathElem(tag, map[])];
      }
      assert remainingPath[..FirstActive(remainingPath)] == tag;
      assert elems == if tag == [] then elems0 else elems0 + [PathElem(tag, map[])];
      if i == |remainingPath| {
        break;
      }
      var token := remainingPath[i];
      var rest := remainingPath[i + 1..];
      assert rest == remainingPath[FirstActive(remainingPath) + 1..];
      if token == '/' {
        assert Scan(remainingPath, elems0) == Scan(rest, elems);
        remainingPath := rest;
        continue;
      }
      FirstActiveSpec(remainingPath);
      assert token == '[';
      ScanAtSelector(remainingPath, elems0);
      var sel := ReadSelector(rest);
      if sel.Err? {
        return Err(sel.error);
      }
      if elems == [] {
        return Err(LeadingSelector);
      }
      elems := SetKey(elems, sel.value.key, sel.value.value);
      remainingPath := sel.value.rest;
    }
    assert Scan(pathInQuestion, []) == Ok(elems);
    var origin := "";
    if |elems| >= 1 && ':' in elems[0].name {
      var c := IndexOf(elems[0].name, ':');
      IndexOfSpec(elems[0].name, ':');
      var elemName := elems[0].name[c + 1..];
      origin := elems[0].name[..c];
      if elemName != [] {
        elems := elems[0 := elems[0].(name := elemName)];
      } else {
        elems := elems[1..];
      }
    }
    r := Ok(Path(origin, elems));
  }
}
