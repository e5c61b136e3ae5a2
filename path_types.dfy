/** The in-memory shape of a gNMI path, as the parser builds it and the
    serializer reads it, and the outcomes of parsing. */
module PathTypes {

  /** One step of a path: a node name and its `[key=value]` selectors.
      The selectors form an unordered map, so the order in which they were
      written does not survive parsing. */
  datatype PathElem = PathElem(name: string, keys: map<string, string>)

  /** A structured path: the schema origin ("" when unset) and the ordered
      elements from the root down. */
  datatype Path = Path(origin: string, elems: seq<PathElem>)

  /** The ways parsing an XPath expression can fail. */
  datatype ParseError =
    | MissingEquals(selector: string)                  // no '=' after '['
    | MissingValue(key: string)                        // nothing at all after '=' (an IndexError in Python)
    | UnterminatedQuoted(key: string, rest: string)    // no closing quote followed by ']'
    | UnterminatedUnquoted(key: string, rest: string)  // no ']' after an unquoted value
    | LeadingSelector                                  // a selector before any element

  datatype Result<T> = Ok(value: T) | Err(error: ParseError)

  datatype Option<T> = None | Some(value: T)

  predicate IsQuote(c: char)
  {
    c == '\'' || c == '"'
  }

  /** The characters at which the tokenizer splits a path. */
  predicate IsActive(c: char)
  {
    c == '/' || c == '['
  }

  /** Index of the first `c` in `s`, or `|s|` when there is none
      (Python's `str.split(c, maxsplit=1)` splits there). */
  function IndexOf(s: string, c: char): (i: nat)
    ensures i <= |s|
  {
    if s == [] then 0
    else if s[0] == c then 0
    else 1 + IndexOf(s[1..], c)
  }

  /** `IndexOf` finds the first occurrence, and reaches the end exactly
      when there is none. */
  lemma {:induction false} IndexOfSpec(s: string, c: char)
    ensures var i := IndexOf(s, c);
            && (i < |s| ==> s[i] == c)
            && (forall j :: 0 <= j < i ==> s[j] != c)
            && (i == |s| <==> c !in s)
  {
    if s != [] && s[0] != c {
      IndexOfSpec(s[1..], c);
      assert forall j :: 1 <= j < |s| ==> s[j] == s[1..][j - 1];
      if c in s {
        var j :| 0 <= j < |s| && s[j] == c;
        assert s[1..][j - 1] == c;
      }
    }
  }

  /** Index of the first '/' or '[' in `s`, or `|s|` when there is none
      (where the regular expression `(/|\[)` splits `s`). */
  function FirstActive(s: string): (i: nat)
    ensures i <= |s|
  {
    if s == [] then 0
    else if IsActive(s[0]) then 0
    else 1 + FirstActive(s[1..])
  }

  /** `FirstActive` finds the first '/' or '['. */
  lemma {:induction false} FirstActiveSpec(s: string)
    ensures var i := FirstActive(s);
            && (i < |s| ==> IsActive(s[i]))
            && (forall j :: 0 <= j < i ==> !IsActive(s[j]))
  {
    if s != [] && !IsActive(s[0]) {
      FirstActiveSpec(s[1..]);
      assert forall j :: 1 <= j < |s| ==> s[j] == s[1..][j - 1];
    }
  }

  /** The first index of `c` is determined by where `c` first occurs. */
  lemma IndexOfIs(s: string, c: char, i: nat)
    requires i <= |s|
    requires i < |s| ==> s[i] == c
    requires forall j :: 0 <= j < i ==> s[j] != c
    ensures IndexOf(s, c) == i
  {
    IndexOfSpec(s, c);
  }

  lemma FirstActiveIs(s: string, i: nat)
    requires i <= |s|
    requires i < |s| ==> IsActive(s[i])
    requires forall j :: 0 <= j < i ==> !IsActive(s[j])
    ensures FirstActive(s) == i
  {
    FirstActiveSpec(s);
  }

  lemma AppendAssoc<T>(a: seq<T>, b: seq<T>, c: seq<T>)
    ensures a + b + c == a + (b + c)
  {
  }

  /** Python's `'/'.join(parts)`. */
  function JoinSlash(parts: seq<string>): string
  {
    if |parts| == 0 then ""
    else if |parts| == 1 then parts[0]
    else parts[0] + "/" + JoinSlash(parts[1..])
  }

  /** Python's `s.split(c)`: the pieces between the occurrences of `c`. */
  function SplitOn(s: string, c: char): (parts: seq<string>)
    ensures |parts| >= 1
    decreases |s|
  {
    var i := IndexOf(s, c);
    if i == |s| then [s]
    else [s[..i]] + SplitOn(s[i + 1..], c)
  }

  /** Joining the pieces of a split gives back the string. */
  lemma {:induction false} JoinSplitSlash(s: string)
    ensures JoinSlash(SplitOn(s, '/')) == s
    decreases |s|
  {
    var i := IndexOf(s, '/');
    IndexOfSpec(s, '/');
    if i < |s| {
      JoinSplitSlash(s[i + 1..]);
      assert s == s[..i] + "/" + s[i + 1..];
    }
  }

  /** Splitting a join of slash-free pieces gives back the pieces. */
  lemma {:induction false} SplitJoinSlash(parts: seq<string>)
    requires |parts| >= 1
    requires forall i :: 0 <= i < |parts| ==> '/' !in parts[i]
    ensures SplitOn(JoinSlash(parts), '/') == parts
  {
    if |parts| > 1 {
      SplitJoinSlash(parts[1..]);
      var s := JoinSlash(parts);
      assert s == parts[0] + "/" + JoinSlash(parts[1..]);
      IndexOfIs(s, '/', |parts[0]|);
      assert s[..|parts[0]|] == parts[0];
      assert s[|parts[0]| + 1..] == JoinSlash(parts[1..]);
    } else {
      IndexOfIs(parts[0], '/', |parts[0]|);
    }
  }
}
