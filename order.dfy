/** The order of the memtable's `BTreeMap<String, String>`: keys compare
    byte by byte, and a proper prefix comes first. */
module KeyOrder {
  import opened Codec

  /** `a <= b` in the order of Rust strings. */
  predicate Below(a: Bytes, b: Bytes)
    decreases |a|
  {
    a == [] || (b != [] && (a[0] < b[0] || (a[0] == b[0] && Below(a[1..], b[1..]))))
  }

  lemma {:induction false} BelowReflexive(a: Bytes)
    ensures Below(a, a)
    decreases |a|
  {
    if a != [] {
      BelowReflexive(a[1..]);
    }
  }

  lemma {:induction false} BelowTotal(a: Bytes, b: Bytes)
    ensures Below(a, b) || Below(b, a)
    decreases |a|
  {
    if a != [] && b != [] && a[0] == b[0] {
      BelowTotal(a[1..], b[1..]);
    }
  }

  lemma {:induction false} BelowAntisymmetric(a: Bytes, b: Bytes)
    requires Below(a, b) && Below(b, a)
    ensures a == b
    decreases |a|
  {
    if a != [] {
      BelowAntisymmetric(a[1..], b[1..]);
      assert a == [a[0]] + a[1..];
      assert b == [b[0]] + b[1..];
    }
  }

  lemma {:induction false} BelowTransitive(a: Bytes, b: Bytes, c: Bytes)
    requires Below(a, b) && Below(b, c)
    ensures Below(a, c)
    decreases |a|
  {
    if a != [] && a[0] == b[0] && b[0] == c[0] {
      BelowTransitive(a[1..], b[1..], c[1..]);
    }
  }

  /** Every non-empty finite set of keys has a least element. */
  lemma {:induction false} LeastExists(keys: set<Bytes>)
    requires keys != {}
    ensures exists m :: m in keys && forall k :: k in keys ==> Below(m, k)
    decreases keys
  {
    var x :| x in keys;
    BelowReflexive(x);
    if keys != {x} {
      var others := keys - {x};
      LeastExists(others);
      var m :| m in others && forall k :: k in others ==> Below(m, k);
      if Below(x, m) {
        forall k | k in keys
          ensures Below(x, k)
        {
          if k != x {
            BelowTransitive(x, m, k);
          }
        }
      } else {
        BelowTotal(x, m);
        BelowReflexive(m);
        assert forall k :: k in keys ==> Below(m, k);
      }
    }
  }

  /** The key `BTreeMap::pop_first` takes. */
  ghost function Least(keys: set<Bytes>): (m: Bytes)
    requires keys != {}
    ensures m in keys && forall k :: k in keys ==> Below(m, k)
  {
    LeastExists(keys);
    var m :| m in keys && forall k :: k in keys ==> Below(m, k);
    m
  }

  /** A key below all others is the least one. */
  lemma LeastUnique(keys: set<Bytes>, m: Bytes)
    requires m in keys && forall k :: k in keys ==> Below(m, k)
    ensures m == Least(keys)
  {
    BelowAntisymmetric(m, Least(keys));
  }

  /** Finds the least key of a non-empty set by scanning it. */
  method LeastKey(keys: set<Bytes>) returns (m: Bytes)
    requires keys != {}
    ensures m in keys && forall k :: k in keys ==> Below(m, k)
  {
    m :| m in keys;
    BelowReflexive(m);
    var rest := keys - {m};
    while rest != {}
      invariant rest <= keys && m in keys
      invariant forall k :: k in keys && k !in rest ==> Below(m, k)
      decreases rest
    {
      var k :| k in rest;
      if !Below(m, k) {
        BelowTotal(m, k);
        BelowReflexive(k);
        forall j | j in keys && j !in rest
          ensures Below(k, j)
        {
          BelowTransitive(k, m, j);
        }
        m := k;
      }
      rest := rest - {k};
    }
  }

  /** The entries of a map in ascending key order, as the flush drains them. */
  ghost function Sorted(tree: map<Bytes, Bytes>): (s: seq<(Bytes, Bytes)>)
    ensures |s| == |tree|
    decreases |tree|
  {
    if tree == map[] then []
    else
      var m := Least(tree.Keys);
      var rest := tree - {m};
      assert rest.Keys == tree.Keys - {m};
      [(m, tree[m])] + Sorted(rest)
  }

  /** The drain order lists entries of the map, with strictly ascending keys. */
  lemma {:induction false} SortedEntries(tree: map<Bytes, Bytes>)
    ensures forall i :: 0 <= i < |Sorted(tree)| ==> Sorted(tree)[i].0 in tree && tree[Sorted(tree)[i].0] == Sorted(tree)[i].1
    ensures forall i, j :: 0 <= i < j < |Sorted(tree)| ==> Below(Sorted(tree)[i].0, Sorted(tree)[j].0) && Sorted(tree)[i].0 != Sorted(tree)[j].0
    decreases |tree|
  {
    if tree != map[] {
      var m := Least(tree.Keys);
      var rest := tree - {m};
      assert rest.Keys == tree.Keys - {m};
      SortedEntries(rest);
      var s, t := Sorted(tree), Sorted(rest);
      assert s == [(m, tree[m])] + t;
      forall i | 0 <= i < |s|
        ensures s[i].0 in tree && tree[s[i].0] == s[i].1
      {
        if i > 0 {
          assert s[i] == t[i - 1];
        }
      }
      forall i, j | 0 <= i < j < |s|
        ensures Below(s[i].0, s[j].0) && s[i].0 != s[j].0
      {
        assert s[j] == t[j - 1];
        if i > 0 {
          assert s[i] == t[i - 1];
        }
      }
    }
  }

  /** Every key of the map is drained. */
  lemma {:induction false} SortedCovers(tree: map<Bytes, Bytes>, k: Bytes)
    requires k in tree
    ensures exists i :: 0 <= i < |Sorted(tree)| && Sorted(tree)[i].0 == k
    decreases |tree|
  {
    var m := Least(tree.Keys);
    var rest := tree - {m};
    assert rest.Keys == tree.Keys - {m};
    assert Sorted(tree) == [(m, tree[m])] + Sorted(rest);
    if k != m {
      SortedCovers(rest, k);
      var i :| 0 <= i < |Sorted(rest)| && Sorted(rest)[i].0 == k;
      assert Sorted(tree)[i + 1].0 == k;
    } else {
      assert Sorted(tree)[0].0 == k;
    }
  }
}
