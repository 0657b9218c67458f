/**
 * The order in which `encodeMap` writes an object's members: string keys
 * compared byte by byte as Go compares strings, every string key before
 * every key of another type.
 */
module KeyOrder {
  import opened Lexical
  import opened Values

  /** Go's `<` on strings: lexicographic on the bytes. */
  predicate ByteLess(a: bytes, b: bytes)
    decreases |a|
  {
    if |a| == 0 then |b| != 0
    else if |b| == 0 then false
    else if a[0] != b[0] then a[0] < b[0]
    else ByteLess(a[1..], b[1..])
  }

  /** `ByteLess` is a strict total order. */
  lemma {:induction false} ByteLessTotal(a: bytes, b: bytes)
    ensures !ByteLess(a, a)
    ensures ByteLess(a, b) ==> !ByteLess(b, a)
    ensures a != b ==> ByteLess(a, b) || ByteLess(b, a)
    decreases |a|
  {
    if |a| != 0 {
      ByteLessTotal(a[1..], a[1..]);
    }
    if |a| != 0 && |b| != 0 {
      ByteLessTotal(a[1..], b[1..]);
      if a[0] == b[0] && a != b {
        assert a == [a[0]] + a[1..] && b == [b[0]] + b[1..];
      }
    }
  }

  /** `ByteLess` is transitive. */
  lemma {:induction false} ByteLessTransitive(a: bytes, b: bytes, c: bytes)
    requires ByteLess(a, b) && ByteLess(b, c)
    ensures ByteLess(a, c)
    decreases |a|
  {
    if |a| != 0 && a[0] == b[0] && b[0] == c[0] {
      ByteLessTransitive(a[1..], b[1..], c[1..]);
    }
  }

  /**
   * The comparator `encodeMap` gives `sort.Slice`: a non-string key is
   * never less than anything, a string key is less than every non-string
   * key, and two string keys compare as Go strings.
   */
  predicate SortLess(j: Key, k: Key) {
    match j
    case OtherKey(_) => false
    case StringKey(a) =>
      match k
      case OtherKey(_) => true
      case StringKey(b) => ByteLess(a, b)
  }

  /**
   * The comparator made total: non-string keys, which it leaves unordered
   * among themselves, are ordered here by their printed form.
   */
  predicate KeyLess(j: Key, k: Key) {
    if j.OtherKey? && k.OtherKey? then ByteLess(j.printed, k.printed) else SortLess(j, k)
  }

  /** `KeyLess` orders what the comparator orders, the same way, and is a strict total order. */
  lemma KeyLessOrder(j: Key, k: Key, l: Key)
    ensures SortLess(j, k) ==> KeyLess(j, k)
    ensures j.StringKey? || k.StringKey? ==> (KeyLess(j, k) <==> SortLess(j, k))
    ensures !KeyLess(j, j)
    ensures KeyLess(j, k) ==> !KeyLess(k, j)
    ensures j != k ==> KeyLess(j, k) || KeyLess(k, j)
    ensures KeyLess(j, k) && KeyLess(k, l) ==> KeyLess(j, l)
  {
    match j {
      case StringKey(a) =>
        match k {
          case StringKey(b) =>
            ByteLessTotal(a, b);
            if l.StringKey? && KeyLess(j, k) && KeyLess(k, l) {
              ByteLessTransitive(a, b, l.name);
            }
          case OtherKey(_) =>
            ByteLessTotal(a, a);
        }
      case OtherKey(p) =>
        ByteLessTotal(p, p);
        match k {
          case StringKey(_) =>
          case OtherKey(q) =>
            ByteLessTotal(p, q);
            if l.OtherKey? && KeyLess(j, k) && KeyLess(k, l) {
              ByteLessTransitive(p, q, l.printed);
            }
        }
    }
  }

  /** `ks` is in strictly ascending order. */
  ghost predicate Ascending(ks: seq<Key>) {
    forall i, j :: 0 <= i < j < |ks| ==> KeyLess(ks[i], ks[j])
  }

  /** `k` is the least key of `ks`. */
  predicate IsLeast(k: Key, ks: set<Key>) {
    k in ks && forall j :: j in ks && j != k ==> KeyLess(k, j)
  }

  /** Every non-empty set of keys has a least key, and only one. */
  lemma {:induction false} LeastExists(ks: set<Key>)
    requires ks != {}
    ensures exists k :: IsLeast(k, ks)
    ensures forall k, k' :: IsLeast(k, ks) && IsLeast(k', ks) ==> k == k'
    decreases |ks|
  {
    var x :| x in ks;
    if ks - {x} == {} {
      assert ks == {x};
      assert IsLeast(x, ks);
    } else {
      LeastExists(ks - {x});
      var m :| IsLeast(m, ks - {x});
      KeyLessOrder(m, x, x);
      if KeyLess(m, x) {
        forall j | j in ks && j != m
          ensures KeyLess(m, j)
        {
          if j == x {
          }
        }
        assert IsLeast(m, ks);
      } else {
        forall j | j in ks && j != x
          ensures KeyLess(x, j)
        {
          KeyLessOrder(x, m, j);
        }
        assert IsLeast(x, ks);
      }
    }
    forall k, k' | IsLeast(k, ks) && IsLeast(k', ks)
      ensures k == k'
    {
      KeyLessOrder(k, k', k');
    }
  }

  /** The least key of a non-empty set. */
  ghost function Least(ks: set<Key>): (k: Key)
    requires ks != {}
    ensures IsLeast(k, ks)
  {
    LeastExists(ks);
    var k :| IsLeast(k, ks);
    k
  }

  /** The keys of `ks` in ascending order: the order `encodeMap` visits them in. */
  ghost function Sorted(ks: set<Key>): (r: seq<Key>)
    decreases |ks|
  {
    if ks == {} then [] else
      var k := Least(ks);
      [k] + Sorted(ks - {k})
  }

  /** `Sorted(ks)` lists exactly the keys of `ks`, each once, in strictly ascending order. */
  lemma {:induction false} SortedIsAscendingPermutation(ks: set<Key>)
    ensures |Sorted(ks)| == |ks|
    ensures forall k :: k in Sorted(ks) <==> k in ks
    ensures Ascending(Sorted(ks))
    decreases |ks|
  {
    if ks != {} {
      var k := Least(ks);
      var rest := Sorted(ks - {k});
      SortedIsAscendingPermutation(ks - {k});
      assert Sorted(ks) == [k] + rest;
      forall i, j | 0 <= i < j < |Sorted(ks)|
        ensures KeyLess(Sorted(ks)[i], Sorted(ks)[j])
      {
        if i == 0 {
          assert Sorted(ks)[j] == rest[j - 1];
          assert rest[j - 1] in ks - {k};
        } else {
          assert Sorted(ks)[i] == rest[i - 1] && Sorted(ks)[j] == rest[j - 1];
        }
      }
    }
  }

  /**
   * An ascending sequence is determined by its keys: the order of the
   * output does not depend on the order the map was built in.
   */
  lemma {:induction false} AscendingIsUnique(q: seq<Key>, ks: set<Key>)
    requires Ascending(q) && forall k :: k in q <==> k in ks
    ensures q == Sorted(ks)
    decreases |ks|
  {
    if q == [] {
      assert ks == {};
    } else {
      assert IsLeast(q[0], ks) by {
        forall j | j in ks && j != q[0]
          ensures KeyLess(q[0], j)
        {
          var n :| 0 <= n < |q| && q[n] == j;
        }
      }
      LeastExists(ks);
      var rest := ks - {q[0]};
      forall k
        ensures k in q[1..] <==> k in rest
      {
        if k in q[1..] {
          var n :| 1 <= n < |q| && q[n] == k;
          KeyLessOrder(q[0], k, k);
        }
        if k in rest {
          var n :| 0 <= n < |q| && q[n] == k;
          assert n != 0;
          assert q[1..][n - 1] == k;
        }
      }
      assert |rest| < |ks|;
      AscendingIsUnique(q[1..], rest);
      assert q == [q[0]] + q[1..];
    }
  }

  /**
   * The keys of `m` in the order `encodeMap` writes them (`v.MapKeys()`
   * then `sort.Slice`): the least remaining key, one at a time.
   */
  method SortKeys(m: map<Key, Value>) returns (keys: seq<Key>)
    ensures keys == Sorted(m.Keys)
  {
    keys := [];
    var rest := m.Keys;
    while rest != {}
      invariant keys + Sorted(rest) == Sorted(m.Keys)
      decreases |rest|
    {
      LeastExists(rest);
      var k :| k in rest && forall j :: j in rest && j != k ==> KeyLess(k, j);
      assert IsLeast(k, rest) && k == Least(rest);
      keys := keys + [k];
      rest := rest - {k};
    }
  }
}
