/** Python's `dict`: a finite map that remembers the order in which its keys
    were first inserted. Assigning to a key that is present keeps its place;
    a new key goes last. Iteration follows `keys`. */
module OrderedDict {

  datatype RawDict<K, V> = RawDict(keys: seq<K>, vals: map<K, V>)

  predicate WellFormed<K, V>(d: RawDict<K, V>)
  {
    && (forall i, j | 0 <= i < j < |d.keys| :: d.keys[i] != d.keys[j])
    && (forall k | k in d.vals :: k in d.keys)
    && (forall i | 0 <= i < |d.keys| :: d.keys[i] in d.vals)
  }

  type Dict<K, V> = d: RawDict<K, V> | WellFormed(d) witness RawDict([], map[])

  function Empty<K, V>(): (r: Dict<K, V>)
    ensures r.keys == [] && r.vals == map[]
  {
    RawDict([], map[])
  }

  /** `d[k] = v` */
  function Put<K, V>(d: Dict<K, V>, k: K, v: V): (r: Dict<K, V>)
    ensures r.vals == d.vals[k := v]
    ensures r.keys == if k in d.vals then d.keys else d.keys + [k]
  {
    if k in d.vals then RawDict(d.keys, d.vals[k := v]) else RawDict(d.keys + [k], d.vals[k := v])
  }

  /** `list(d.values())` */
  function Values<K, V>(d: Dict<K, V>): (r: seq<V>)
    ensures |r| == |d.keys|
    ensures forall i :: 0 <= i < |d.keys| ==> r[i] == d.vals[d.keys[i]]
  {
    seq(|d.keys|, i requires 0 <= i < |d.keys| => d.vals[d.keys[i]])
  }

  lemma KeysAreDomain<K, V>(d: Dict<K, V>)
    ensures forall k :: k in d.vals <==> k in d.keys
  {
  }

  /** Two dictionaries with the same key order and the same entries are equal. */
  lemma SameEntries<K, V>(a: Dict<K, V>, b: Dict<K, V>)
    requires a.keys == b.keys
    requires forall k :: k in a.vals <==> k in b.vals
    requires forall k | k in a.vals :: a.vals[k] == b.vals[k]
    ensures a == b
  {
    assert a.vals == b.vals;
  }

  // ----- deletion -----

  /** The elements of `s` that satisfy `p`, in order. */
  function Filter<K>(s: seq<K>, p: K -> bool): (r: seq<K>)
    ensures |r| <= |s|
  {
    if s == [] then [] else Filter(s[..|s| - 1], p) + (if p(s[|s| - 1]) then [s[|s| - 1]] else [])
  }

  predicate Distinct<K(==)>(s: seq<K>)
  {
    forall i, j | 0 <= i < j < |s| :: s[i] != s[j]
  }

  lemma {:induction false} FilterMembers<K>(s: seq<K>, p: K -> bool)
    ensures forall x :: x in Filter(s, p) <==> x in s && p(x)
  {
    if s != [] {
      FilterMembers(s[..|s| - 1], p);
      assert s == s[..|s| - 1] + [s[|s| - 1]];
    }
  }

  lemma {:induction false} FilterDistinct<K>(s: seq<K>, p: K -> bool)
    requires Distinct(s)
    ensures Distinct(Filter(s, p))
  {
    if s != [] {
      var init := s[..|s| - 1];
      FilterDistinct(init, p);
      FilterMembers(init, p);
      assert s[|s| - 1] !in init;
    }
  }

  /** `Filter` read from the front. */
  lemma {:induction false} FilterCons<K>(x: K, s: seq<K>, p: K -> bool)
    ensures Filter([x] + s, p) == (if p(x) then [x] else []) + Filter(s, p)
    decreases |s|
  {
    if s != [] {
      var init := s[..|s| - 1];
      var last := s[|s| - 1];
      assert ([x] + s)[..|s|] == [x] + init;
      assert ([x] + s)[|s|] == last;
      FilterCons(x, init, p);
    }
  }

  /** Two tests that agree on the elements of `s` select the same elements. */
  lemma {:induction false} FilterAgree<K>(s: seq<K>, p: K -> bool, q: K -> bool)
    requires forall x | x in s :: p(x) == q(x)
    ensures Filter(s, p) == Filter(s, q)
  {
    if s != [] {
      var init := s[..|s| - 1];
      assert forall x | x in init :: x in s;
      FilterAgree(init, p, q);
    }
  }

  lemma {:induction false} FilterKeepsAll<K>(s: seq<K>, p: K -> bool)
    requires forall x | x in s :: p(x)
    ensures Filter(s, p) == s
  {
    if s != [] {
      var init := s[..|s| - 1];
      assert forall x | x in init :: x in s;
      FilterKeepsAll(init, p);
    }
  }

  function Both<K>(p: K -> bool, q: K -> bool): K -> bool
  {
    x => p(x) && q(x)
  }

  function Other<K(==)>(k: K): K -> bool
  {
    x => x != k
  }

  lemma {:induction false} FilterTwice<K>(s: seq<K>, p: K -> bool, q: K -> bool)
    ensures Filter(Filter(s, p), q) == Filter(s, Both(p, q))
  {
    if s != [] {
      var init := s[..|s| - 1];
      FilterTwice(init, p, q);
      var last := s[|s| - 1];
      assert Both(p, q)(last) == (p(last) && q(last));
      var fs := Filter(s, p);
      if p(last) {
        assert fs == Filter(init, p) + [last];
        assert fs[..|fs| - 1] == Filter(init, p) && fs[|fs| - 1] == last;
        assert Filter(fs, q) == Filter(Filter(init, p), q) + (if q(last) then [last] else []);
      } else {
        assert fs == Filter(init, p);
      }
    }
  }

  /** `del d[k]`; the key must be present, as Python raises KeyError otherwise. */
  function Remove<K, V>(d: Dict<K, V>, k: K): (r: Dict<K, V>)
    requires k in d.vals
    ensures r.vals == d.vals - {k}
    ensures r.keys == Filter(d.keys, Other(k))
  {
    var ks := Filter(d.keys, Other(k));
    assert Distinct(d.keys);
    FilterDistinct(d.keys, Other(k));
    FilterMembers(d.keys, Other(k));
    assert forall i | 0 <= i < |ks| :: ks[i] in ks;
    assert forall x | x in d.keys :: Other(k)(x) == (x != k);
    assert forall x | x in d.vals - {k} :: x in d.keys;
    var r := RawDict(ks, d.vals - {k});
    assert Distinct(ks);
    assert (forall x | x in r.vals :: x in r.keys);
    assert (forall i | 0 <= i < |r.keys| :: r.keys[i] in r.vals);
    r
  }

  // ----- building from parallel lists -----

  /** `for k, v in zip(ks, vs): d[k] = v` from an empty dictionary: each key
      is placed at its first occurrence and holds the value beside its last. */
  function Zip<K, V>(ks: seq<K>, vs: seq<V>): Dict<K, V>
    requires |ks| == |vs|
  {
    if ks == [] then Empty()
    else Put(Zip(ks[..|ks| - 1], vs[..|vs| - 1]), ks[|ks| - 1], vs[|vs| - 1])
  }

  /** The last position holding `k`. */
  function LastIndex<K(==)>(ks: seq<K>, k: K): (j: nat)
    requires k in ks
    ensures j < |ks| && ks[j] == k
    ensures forall j' :: j < j' < |ks| ==> ks[j'] != k
  {
    if ks[|ks| - 1] == k then |ks| - 1 else LastIndex(ks[..|ks| - 1], k)
  }

  /** A key is present exactly when it occurs. */
  lemma {:induction false} ZipDomain<K, V>(ks: seq<K>, vs: seq<V>)
    requires |ks| == |vs|
    ensures forall k :: k in Zip(ks, vs).vals <==> k in ks
  {
    if ks != [] {
      ZipDomain(ks[..|ks| - 1], vs[..|vs| - 1]);
      assert ks == ks[..|ks| - 1] + [ks[|ks| - 1]];
    }
  }

  /** A key is present exactly when it occurs, and it holds the value of its
      last occurrence. */
  lemma {:induction false} ZipLastWins<K, V>(ks: seq<K>, vs: seq<V>)
    requires |ks| == |vs|
    ensures forall k :: k in Zip(ks, vs).vals <==> k in ks
    ensures forall k | k in ks :: Zip(ks, vs).vals[k] == vs[LastIndex(ks, k)]
  {
    ZipDomain(ks, vs);
    if ks != [] {
      var init := ks[..|ks| - 1];
      ZipLastWins(init, vs[..|vs| - 1]);
      forall k | k in ks
        ensures Zip(ks, vs).vals[k] == vs[LastIndex(ks, k)]
      {
        if k != ks[|ks| - 1] {
          assert ks == init + [ks[|ks| - 1]];
          assert k in init;
          assert LastIndex(ks, k) == LastIndex(init, k);
        }
      }
    }
  }

  /** With no repeated key, every key holds the value at its own position. */
  lemma ZipDistinct<K, V>(ks: seq<K>, vs: seq<V>, x: nat)
    requires |ks| == |vs| && Distinct(ks) && x < |ks|
    ensures ks[x] in Zip(ks, vs).vals && Zip(ks, vs).vals[ks[x]] == vs[x]
  {
    ZipLastWins(ks, vs);
    var j := LastIndex(ks, ks[x]);
    assert j == x;
  }

  /** With no repeated key, the keys keep their order. */
  lemma {:induction false} ZipDistinctKeys<K, V>(ks: seq<K>, vs: seq<V>)
    requires |ks| == |vs| && Distinct(ks)
    ensures Zip(ks, vs).keys == ks
  {
    if ks != [] {
      var n := |ks| - 1;
      DistinctSnoc(ks);
      ZipDistinctKeys(ks[..n], vs[..n]);
      ZipKeysSnoc(ks, vs);
      SplitLast(ks);
    }
  }

  /** Without repeats, all but the last element have none, and the last is not among them. */
  lemma DistinctSnoc<K>(s: seq<K>)
    requires s != [] && Distinct(s)
    ensures Distinct(s[..|s| - 1]) && s[|s| - 1] !in s[..|s| - 1]
  {
    var n := |s| - 1;
    forall i, j | 0 <= i < j < n
      ensures s[..n][i] != s[..n][j]
    {
      assert s[..n][i] == s[i] && s[..n][j] == s[j];
    }
    forall i | 0 <= i < n
      ensures s[..n][i] != s[n]
    {
      assert s[..n][i] == s[i];
    }
  }

  lemma SplitLast<T>(s: seq<T>)
    requires s != []
    ensures s[..|s| - 1] + [s[|s| - 1]] == s
  {
  }

  /** A key that does not occur earlier goes last. */
  lemma ZipKeysSnoc<K, V>(ks: seq<K>, vs: seq<V>)
    requires |ks| == |vs| && ks != [] && ks[|ks| - 1] !in ks[..|ks| - 1]
    ensures Zip(ks, vs).keys == Zip(ks[..|ks| - 1], vs[..|vs| - 1]).keys + [ks[|ks| - 1]]
  {
    ZipDomain(ks[..|ks| - 1], vs[..|vs| - 1]);
  }

  /** The loop form of `ZipSnoc`: the pairs up to `i` inclusive. */
  lemma ZipPrefixStep<K, V>(ks: seq<K>, vs: seq<V>, i: nat)
    requires |ks| == |vs| && i < |ks|
    ensures Zip(ks[..i + 1], vs[..i + 1]) == Put(Zip(ks[..i], vs[..i]), ks[i], vs[i])
  {
    assert ks[..i + 1][..i] == ks[..i] && vs[..i + 1][..i] == vs[..i];
  }

  /** One more pair is one more assignment. */
  lemma ZipSnoc<K, V>(ks: seq<K>, vs: seq<V>, k: K, v: V)
    requires |ks| == |vs|
    ensures Zip(ks + [k], vs + [v]) == Put(Zip(ks, vs), k, v)
  {
    assert (ks + [k])[..|ks|] == ks && (vs + [v])[..|vs|] == vs;
  }
}
