/** Python's ordering of `str` values (lexicographic by code point) and the
    `sorted` listing of a set of keys that the serializer relies on. */
module StringOrder {

  /** `a < b` for Python strings: compare code points left to right; a
      proper prefix comes first. */
  predicate StrLt(a: string, b: string)
  {
    if a == [] then b != []
    else b != [] && (a[0] < b[0] || (a[0] == b[0] && StrLt(a[1..], b[1..])))
  }

  lemma {:induction false} StrLtIrreflexive(a: string)
    ensures !StrLt(a, a)
  {
    if a != [] {
      StrLtIrreflexive(a[1..]);
    }
  }

  lemma {:induction false} StrLtTransitive(a: string, b: string, c: string)
    requires StrLt(a, b) && StrLt(b, c)
    ensures StrLt(a, c)
  {
    if a != [] && a[0] == b[0] && b[0] == c[0] {
      StrLtTransitive(a[1..], b[1..], c[1..]);
    }
  }

  lemma {:induction false} StrLtTotal(a: string, b: string)
    requires a != b
    ensures StrLt(a, b) || StrLt(b, a)
  {
    if a != [] && b != [] && a[0] == b[0] {
      assert a == [a[0]] + a[1..] && b == [b[0]] + b[1..];
      StrLtTotal(a[1..], b[1..]);
    }
  }

  lemma StrLtAsymmetric(a: string, b: string)
    requires StrLt(a, b)
    ensures !StrLt(b, a)
  {
    if StrLt(b, a) {
      StrLtTransitive(a, b, a);
      StrLtIrreflexive(a);
    }
  }

  /** `k` is the smallest member of `s`. */
  predicate IsLeast(k: string, s: set<string>)
  {
    k in s && forall j :: j in s && j != k ==> StrLt(k, j)
  }

  lemma {:induction false} LeastExists(s: set<string>)
    requires s != {}
    ensures exists k :: IsLeast(k, s)
    decreases |s|
  {
    var x :| x in s;
    if s == {x} {
      assert IsLeast(x, s);
    } else {
      var others := s - {x};
      LeastExists(others);
      var y :| IsLeast(y, others);
      StrLtTotal(x, y);
      if StrLt(x, y) {
        forall j | j in s && j != x
          ensures StrLt(x, j)
        {
          if j != y {
            StrLtTransitive(x, y, j);
          }
        }
        assert IsLeast(x, s);
      } else {
        assert IsLeast(y, s);
      }
    }
  }

  lemma LeastUnique(s: set<string>)
    ensures forall k, k' :: IsLeast(k, s) && IsLeast(k', s) ==> k == k'
  {
    forall k, k' | IsLeast(k, s) && IsLeast(k', s)
      ensures k == k'
    {
      if k != k' {
        StrLtAsymmetric(k, k');
      }
    }
  }

  /** Every element comes strictly before every later one. */
  predicate StrictlyAscending(ks: seq<string>)
  {
    forall i, j :: 0 <= i < j < |ks| ==> StrLt(ks[i], ks[j])
  }

  /** The smallest member of a non-empty set. */
  function Least(s: set<string>): (k: string)
    requires s != {}
    ensures IsLeast(k, s)
  {
    LeastExists(s);
    LeastUnique(s);
    var k :| IsLeast(k, s);
    k
  }

  /** The keys of `s` in ascending order, as Python's `sorted` lists them. */
  function SortedKeys(s: set<string>): seq<string>
    decreases |s|
  {
    if s == {} then []
    else
      var k := Least(s);
      [k] + SortedKeys(s - {k})
  }

  /** The sorted listing holds exactly the keys of the set. */
  lemma {:induction false} SortedKeysMembers(s: set<string>)
    ensures forall k :: k in SortedKeys(s) <==> k in s
    decreases |s|
  {
    if s != {} {
      var k := Least(s);
      SortedKeysMembers(s - {k});
      assert SortedKeys(s) == [k] + SortedKeys(s - {k});
    }
  }

  /** The sorted listing has one entry per key. */
  lemma {:induction false} SortedKeysLength(s: set<string>)
    ensures |SortedKeys(s)| == |s|
    decreases |s|
  {
    if s != {} {
      var k := Least(s);
      SortedKeysLength(s - {k});
      assert SortedKeys(s) == [k] + SortedKeys(s - {k});
    }
  }

  /** The sorted listing is strictly ascending. */
  lemma {:induction false} SortedKeysAscending(s: set<string>)
    ensures StrictlyAscending(SortedKeys(s))
    decreases |s|
  {
    if s != {} {
      var k := Least(s);
      var rest := SortedKeys(s - {k});
      SortedKeysAscending(s - {k});
      SortedKeysMembers(s - {k});
      assert forall j :: 0 <= j < |rest| ==> rest[j] in rest && rest[j] in s - {k} && StrLt(k, rest[j]);
      assert SortedKeys(s) == [k] + rest;
    }
  }

  /** The sorted listing holds each key of the set exactly once, in
      strictly ascending order. */
  lemma SortedKeysSpec(s: set<string>)
    ensures var ks := SortedKeys(s);
            && StrictlyAscending(ks)
            && (forall k :: k in ks <==> k in s)
            && |ks| == |s|
  {
    SortedKeysMembers(s);
    SortedKeysLength(s);
    SortedKeysAscending(s);
  }

  /** There is only one strictly ascending listing of a key set, so the
      listing does not depend on how the set was built. */
  lemma {:induction false} SortedKeysUnique(s: set<string>, ks: seq<string>)
    requires StrictlyAscending(ks)
    requires forall k :: k in ks <==> k in s
    ensures ks == SortedKeys(s)
    decreases |s|
  {
    if s != {} {
      assert ks != [] by { var x :| x in s; assert x in ks; }
      var k := ks[0];
      forall j | j in s && j != k
        ensures StrLt(k, j)
      {
        var i :| 0 <= i < |ks| && ks[i] == j;
      }
      assert IsLeast(k, s);
      LeastUnique(s);
      assert k == Least(s);
      var rest := ks[1..];
      forall x
        ensures x in rest <==> x in s - {k}
      {
        if x in rest {
          var i :| 0 <= i < |rest| && rest[i] == x;
          assert StrLt(ks[0], ks[i + 1]);
          StrLtIrreflexive(k);
        }
        if x in s - {k} {
          var i :| 0 <= i < |ks| && ks[i] == x;
          assert i != 0;
          assert rest[i - 1] == x;
        }
      }
      SortedKeysUnique(s - {k}, rest);
      assert ks == [k] + rest;
    }
  }
}
