/** `Assignment.filterData`: strips every key outside a keep-list from each
    JSON record of a list, in place. The list is an array of records; the
    records are insertion-ordered dictionaries. */
module RecordFilter {
  import opened Py
  import opened OrderedDict

  function In(keep: seq<string>): string -> bool
  {
    k => k in keep
  }

  function NotIn(keep: seq<string>): string -> bool
  {
    k => k !in keep
  }

  /** A record after filtering: the kept keys, in their original order, with
      their original values. */
  function Restrict<V>(d: Dict<string, V>, keep: seq<string>): (r: Dict<string, V>)
    ensures r.keys == Filter(d.keys, In(keep))
    ensures forall k :: k in r.vals <==> k in d.vals && k in keep
    ensures forall k | k in r.vals :: r.vals[k] == d.vals[k]
  {
    var ks := Filter(d.keys, In(keep));
    assert Distinct(d.keys);
    FilterDistinct(d.keys, In(keep));
    FilterMembers(d.keys, In(keep));
    var r := RawDict(ks, map k | k in d.vals && k in keep :: d.vals[k]);
    assert forall i | 0 <= i < |ks| :: ks[i] in ks;
    assert forall x | x in d.keys :: In(keep)(x) == (x in keep);
    assert forall x | x in r.vals :: x in r.keys;
    assert forall i | 0 <= i < |r.keys| :: r.keys[i] in r.vals;
    r
  }

  function FilterAll<V>(ds: seq<Dict<string, V>>, keep: seq<string>): (r: seq<Dict<string, V>>)
    ensures |r| == |ds|
    ensures forall i :: 0 <= i < |ds| ==> r[i] == Restrict(ds[i], keep)
  {
    seq(|ds|, i requires 0 <= i < |ds| => Restrict(ds[i], keep))
  }

  /** `for item in del_items: del d[item]`, one key after another. */
  function RemoveAll<V>(d: Dict<string, V>, ks: seq<string>): (r: Dict<string, V>)
    requires Distinct(ks) && forall k | k in ks :: k in d.vals
    ensures forall k :: k in r.vals <==> k in d.vals && k !in ks
    ensures forall k | k in r.vals :: r.vals[k] == d.vals[k]
  {
    if ks == [] then d
    else
      var init := ks[..|ks| - 1];
      var last := ks[|ks| - 1];
      assert ks == init + [last];
      assert forall k | k in init :: k in ks;
      Remove(RemoveAll(d, init), last)
  }

  /** Any prefix of a valid deletion list is one, and extends by one deletion. */
  lemma RemoveAllStep<V>(d: Dict<string, V>, ks: seq<string>, n: int)
    requires Distinct(ks) && forall k | k in ks :: k in d.vals
    requires 0 <= n < |ks|
    ensures Distinct(ks[..n]) && Distinct(ks[..n + 1])
    ensures forall k | k in ks[..n + 1] :: k in d.vals
    ensures ks[n] in RemoveAll(d, ks[..n]).vals
    ensures RemoveAll(d, ks[..n + 1]) == Remove(RemoveAll(d, ks[..n]), ks[n])
  {
    PrefixStep(ks, n);
    assert forall k | k in ks[..n + 1] :: k in ks;
    assert ks[n] !in ks[..n];
  }

  lemma {:induction false} RemoveAllKeys<V>(d: Dict<string, V>, ks: seq<string>)
    requires Distinct(ks) && forall k | k in ks :: k in d.vals
    ensures RemoveAll(d, ks).keys == Filter(d.keys, NotIn(ks))
  {
    if ks == [] {
      assert forall x | x in d.keys :: NotIn(ks)(x);
      FilterKeepsAll(d.keys, NotIn(ks));
    } else {
      var init := ks[..|ks| - 1];
      var last := ks[|ks| - 1];
      assert ks == init + [last];
      assert forall k | k in init :: k in ks;
      RemoveAllKeys(d, init);
      assert RemoveAll(d, ks).keys == Filter(RemoveAll(d, init).keys, Other(last));
      FilterSnoc(d.keys, init, last);
    }
  }

  /** Dropping the keys of `init`, then `last`, drops the keys of `init + [last]`. */
  lemma FilterSnoc(s: seq<string>, init: seq<string>, last: string)
    ensures Filter(Filter(s, NotIn(init)), Other(last)) == Filter(s, NotIn(init + [last]))
  {
    FilterTwice(s, NotIn(init), Other(last));
    forall x | x in s
      ensures Both(NotIn(init), Other(last))(x) == NotIn(init + [last])(x)
    {
      assert x in init + [last] <==> x in init || x == last;
    }
    FilterAgree(s, Both(NotIn(init), Other(last)), NotIn(init + [last]));
  }

  /** The keys the first inner loop collects: those outside the keep-list,
      in the record's order. */
  function Dropped<V>(d: Dict<string, V>, keep: seq<string>): (r: seq<string>)
    ensures Distinct(r) && forall k | k in r :: k in d.vals
    ensures forall k :: k in r <==> k in d.vals && k !in keep
  {
    assert Distinct(d.keys);
    FilterDistinct(d.keys, NotIn(keep));
    FilterMembers(d.keys, NotIn(keep));
    Filter(d.keys, NotIn(keep))
  }

  /** Deleting the collected keys leaves exactly the restricted record. */
  lemma RemoveDroppedIsRestrict<V>(d: Dict<string, V>, keep: seq<string>)
    ensures RemoveAll(d, Dropped(d, keep)) == Restrict(d, keep)
  {
    var ks := Dropped(d, keep);
    var r := RemoveAll(d, ks);
    RemoveAllKeys(d, ks);
    assert forall x | x in d.keys :: NotIn(ks)(x) == In(keep)(x);
    FilterAgree(d.keys, NotIn(ks), In(keep));
    SameEntries(r, Restrict(d, keep));
  }

  /** The first inner loop: the keys of one record that are not to be kept. */
  method CollectDropped<V>(d: Dict<string, V>, keep: seq<string>) returns (delItems: seq<string>)
    ensures delItems == Dropped(d, keep)
  {
    delItems := [];
    var j := 0;
    while j < |d.keys|
      invariant 0 <= j <= |d.keys|
      invariant delItems == Filter(d.keys[..j], NotIn(keep))
    {
      PrefixStep(d.keys, j);
      if d.keys[j] !in keep {
        delItems := delItems + [d.keys[j]];
      }
      j := j + 1;
    }
    PrefixWhole(d.keys);
  }

  /** The second inner loop: `del data[x][item]` for each collected key. */
  method DeleteKeys<V>(data: array<Dict<string, V>>, x: int, delItems: seq<string>)
    requires 0 <= x < data.Length
    requires Distinct(delItems) && forall k | k in delItems :: k in data[x].vals
    modifies data
    ensures data[x] == RemoveAll(old(data[x]), delItems)
    ensures forall i :: 0 <= i < data.Length && i != x ==> data[i] == old(data[i])
  {
    var d := data[x];
    var k := 0;
    while k < |delItems|
      invariant 0 <= k <= |delItems|
      invariant data[x] == RemoveAll(d, delItems[..k])
      invariant forall i :: 0 <= i < data.Length && i != x ==> data[i] == old(data[i])
    {
      RemoveAllStep(d, delItems, k);
      data[x] := Remove(data[x], delItems[k]);
      k := k + 1;
    }
    PrefixWhole(delItems);
  }

  /** `Assignment.filterData(data, data_to_keep)`: for each record, collect
      the keys outside the keep-list, then delete them one by one. */
  method FilterData<V>(data: array<Dict<string, V>>, keep: seq<string>)
    modifies data
    ensures forall i :: 0 <= i < data.Length ==> data[i] == Restrict(old(data[i]), keep)
  {
    var x := 0;
    while x < data.Length
      invariant 0 <= x <= data.Length
      invariant forall i :: 0 <= i < x ==> data[i] == Restrict(old(data[i]), keep)
      invariant forall i :: x <= i < data.Length ==> data[i] == old(data[i])
    {
      var delItems := CollectDropped(data[x], keep);
      RemoveDroppedIsRestrict(data[x], keep);
      DeleteKeys(data, x, delItems);
      x := x + 1;
    }
  }

  /** Filtering keeps a record's kept keys with their values and drops
      every other key. */
  lemma RestrictKeeps<V>(d: Dict<string, V>, keep: seq<string>, k: string)
    ensures k in Restrict(d, keep).vals <==> k in d.vals && k in keep
    ensures k in Restrict(d, keep).vals ==> Restrict(d, keep).vals[k] == d.vals[k]
    ensures |Restrict(d, keep).keys| <= |d.keys|
  {
  }

  /** Filtering twice with the same keep-list is filtering once. */
  lemma RestrictIdempotent<V>(d: Dict<string, V>, keep: seq<string>)
    ensures Restrict(Restrict(d, keep), keep) == Restrict(d, keep)
  {
    var r := Restrict(d, keep);
    FilterTwice(d.keys, In(keep), In(keep));
    assert forall x | x in d.keys :: Both(In(keep), In(keep))(x) == In(keep)(x);
    FilterAgree(d.keys, Both(In(keep), In(keep)), In(keep));
    SameEntries(Restrict(r, keep), r);
  }

  lemma FilterAllIdempotent<V>(ds: seq<Dict<string, V>>, keep: seq<string>)
    ensures FilterAll(FilterAll(ds, keep), keep) == FilterAll(ds, keep)
  {
    forall i | 0 <= i < |ds|
      ensures Restrict(Restrict(ds[i], keep), keep) == Restrict(ds[i], keep)
    {
      RestrictIdempotent(ds[i], keep);
    }
  }
}
