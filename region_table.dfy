/**
 * The ordered hash from region key to region config that the registry hands out.
 * A Ruby Hash keeps insertion order: `merge` overwrites an existing key where it
 * stands and appends a new key at the end, and `except` drops the listed keys and
 * keeps the others in order. A hash is modelled as the sequence of its entries.
 */
module RegionTable {
  import opened Wrappers

  /** One entry: a region key and the `:name` carried by its config. */
  datatype Region = Region(key: string, name: string)

  type Table = seq<Region>

  /** `hash.keys`, in insertion order. */
  function Keys(t: Table): (ks: seq<string>)
    ensures |ks| == |t|
    ensures forall i :: 0 <= i < |t| ==> ks[i] == t[i].key
  {
    if t == [] then [] else Keys(t[..|t| - 1]) + [t[|t| - 1].key]
  }

  /** A well-formed hash: no key occurs twice. */
  predicate UniqueKeys(t: Table) {
    forall i, j :: 0 <= i < j < |t| ==> t[i].key != t[j].key
  }

  /** Position of the last entry for `k`, or -1 when `k` is not a key. */
  function IndexOf(t: Table, k: string): (i: int)
    ensures -1 <= i < |t|
    ensures i >= 0 ==> t[i].key == k && forall j :: i < j < |t| ==> t[j].key != k
    ensures i < 0 <==> k !in Keys(t)
  {
    if t == [] then -1
    else if t[|t| - 1].key == k then |t| - 1
    else IndexOf(t[..|t| - 1], k)
  }

  /** `hash[k][:name]`, or None when `k` is not a key. */
  function Lookup(t: Table, k: string): (r: Option<string>)
    ensures r.Some? <==> k in Keys(t)
  {
    var i := IndexOf(t, k);
    if i < 0 then None else Some(t[i].name)
  }

  /** Looking up in a hash with one more entry at the end. */
  lemma LookupSnoc(t: Table, x: Region, k: string)
    ensures Lookup(t + [x], k) == if x.key == k then Some(x.name) else Lookup(t, k)
  {
    assert (t + [x])[..|t|] == t;
  }

  /** `hash[r.key] = r`: overwrite in place, or append a new key. */
  function Put(t: Table, r: Region): (p: Table)
    ensures Keys(p) == if r.key in Keys(t) then Keys(t) else Keys(t) + [r.key]
    ensures forall k :: Lookup(p, k) == if k == r.key then Some(r.name) else Lookup(t, k)
  {
    var i := IndexOf(t, r.key);
    if i < 0 then
      PutNew(t, r);
      t + [r]
    else
      PutExisting(t, r, i);
      t[i := r]
  }

  /** Putting a key the hash does not hold appends it. */
  lemma PutNew(t: Table, r: Region)
    requires r.key !in Keys(t)
    ensures Keys(t + [r]) == Keys(t) + [r.key]
    ensures forall k :: Lookup(t + [r], k) == if k == r.key then Some(r.name) else Lookup(t, k)
  {
    forall k ensures Lookup(t + [r], k) == if k == r.key then Some(r.name) else Lookup(t, k) {
      LookupSnoc(t, r, k);
    }
  }

  /** Putting a key the hash holds at position `i` replaces that entry and leaves the keys alone. */
  lemma PutExisting(t: Table, r: Region, i: int)
    requires i == IndexOf(t, r.key) && i >= 0
    ensures Keys(t[i := r]) == Keys(t)
    ensures forall k :: Lookup(t[i := r], k) == if k == r.key then Some(r.name) else Lookup(t, k)
  {
    var p := t[i := r];
    forall a | 0 <= a < |p| ensures p[a].key == t[a].key {
    }
    assert Keys(p) == Keys(t);
    assert IndexOf(p, r.key) == i by {
      assert forall a :: i < a < |p| ==> p[a].key != r.key;
    }
    forall k ensures Lookup(p, k) == if k == r.key then Some(r.name) else Lookup(t, k) {
      var j := IndexOf(t, k);
      if k != r.key && j >= 0 {
        assert j != i && p[j] == t[j];
        assert forall a :: j < a < |p| ==> p[a].key != k;
        assert IndexOf(p, k) == j;
      }
    }
  }

  /** Putting an entry into a hash with unique keys keeps them unique. */
  lemma PutKeepsKeysUnique(t: Table, r: Region)
    requires UniqueKeys(t)
    ensures UniqueKeys(Put(t, r))
  {
    var p := Put(t, r);
    forall a, b | 0 <= a < b < |p| ensures p[a].key != p[b].key {
      assert Keys(p)[a] == p[a].key && Keys(p)[b] == p[b].key;
      if b < |t| {
        assert Keys(t)[a] == t[a].key && Keys(t)[b] == t[b].key;
      }
    }
  }

  /** The keys of `m` are exactly those of `t` and those of `adds`. */
  ghost predicate MergedKeys(m: Table, t: Table, adds: Table) {
    forall k :: k in Keys(m) <==> k in Keys(t) || k in Keys(adds)
  }

  /**
   * `t.merge(adds)`: the entries of `adds` are put into `t` one after the other,
   * so a later entry of `adds` wins over an earlier one and over `t`.
   */
  function Merge(t: Table, adds: Table): (m: Table)
    ensures MergedKeys(m, t, adds)
  {
    if adds == [] then t
    else
      var init, last := adds[..|adds| - 1], adds[|adds| - 1];
      assert Keys(adds) == Keys(init) + [last.key];
      Put(Merge(t, init), last)
  }

  /**
   * A merge keeps the keys of `t` first and in their order; what follows are
   * added keys that `t` did not hold.
   */
  lemma {:induction false} MergeKeepsOrder(t: Table, adds: Table)
    ensures KeepsOrder(Merge(t, adds), t, adds)
  {
    if adds != [] {
      var init, last := adds[..|adds| - 1], adds[|adds| - 1];
      assert adds == init + [last];
      MergeKeepsOrder(t, init);
      MergeSnoc(t, init, last);
      MergeOrderStep(t, init, last, Merge(t, init));
    }
  }

  /** The keys of `t` lead `m` in their order; every later key is an added key `t` lacked. */
  ghost predicate KeepsOrder(m: Table, t: Table, adds: Table) {
    && |m| >= |t| && Keys(m)[..|t|] == Keys(t)
    && forall j :: |t| <= j < |m| ==> m[j].key in Keys(adds) && m[j].key !in Keys(t)
  }

  /** One step of MergeKeepsOrder: putting `last` into a merge of `init`. */
  lemma MergeOrderStep(t: Table, init: Table, last: Region, rest: Table)
    requires KeepsOrder(rest, t, init)
    requires MergedKeys(rest, t, init)
    ensures KeepsOrder(Put(rest, last), t, init + [last])
  {
    var m := Put(rest, last);
    assert Keys(init + [last]) == Keys(init) + [last.key];
    if last.key !in Keys(rest) {
      assert Keys(m) == Keys(rest) + [last.key];
      assert m == rest + [last];
    } else {
      forall j | 0 <= j < |m| ensures m[j].key == rest[j].key {
        assert Keys(m)[j] == Keys(rest)[j];
      }
    }
  }

  /** After a merge, an added key has the config of its last addition and any other key keeps its own. */
  lemma {:induction false} MergeLookup(t: Table, adds: Table, k: string)
    ensures Lookup(Merge(t, adds), k) == if k in Keys(adds) then Lookup(adds, k) else Lookup(t, k)
  {
    if adds != [] {
      var init, last := adds[..|adds| - 1], adds[|adds| - 1];
      assert adds == init + [last];
      MergeLookup(t, init, k);
      MergeSnoc(t, init, last);
      MergeLookupStep(t, init, last, Merge(t, init), k);
    }
  }

  /** One step of MergeLookup: putting `last` into a merge of `init`. */
  lemma MergeLookupStep(t: Table, init: Table, last: Region, rest: Table, k: string)
    requires Lookup(rest, k) == if k in Keys(init) then Lookup(init, k) else Lookup(t, k)
    ensures Lookup(Put(rest, last), k)
      == if k in Keys(init + [last]) then Lookup(init + [last], k) else Lookup(t, k)
  {
    LookupSnoc(init, last, k);
    assert Keys(init + [last]) == Keys(init) + [last.key];
  }

  /** Merging one more entry puts it into the earlier merge. */
  lemma MergeSnoc(t: Table, init: Table, last: Region)
    ensures Merge(t, init + [last]) == Put(Merge(t, init), last)
  {
    assert (init + [last])[..|init|] == init;
  }

  /** Merging into a hash with unique keys keeps them unique. */
  lemma {:induction false} MergeKeepsKeysUnique(t: Table, adds: Table)
    requires UniqueKeys(t)
    ensures UniqueKeys(Merge(t, adds))
  {
    if adds != [] {
      var init, last := adds[..|adds| - 1], adds[|adds| - 1];
      MergeKeepsKeysUnique(t, init);
      PutKeepsKeysUnique(Merge(t, init), last);
    }
  }

  /** The keys of `ks` that are not listed in `drop`, in their order. */
  function Without(ks: seq<string>, drop: seq<string>): (r: seq<string>)
    ensures |r| <= |ks|
    ensures forall k :: k in r <==> k in ks && k !in drop
  {
    if ks == [] then []
    else
      var rest := Without(ks[..|ks| - 1], drop);
      assert ks == ks[..|ks| - 1] + [ks[|ks| - 1]];
      if ks[|ks| - 1] in drop then rest else rest + [ks[|ks| - 1]]
  }

  /** `t.except(*drop)`: the entries whose key is listed are removed. */
  function Except(t: Table, drop: seq<string>): (e: Table)
    ensures Keys(e) == Without(Keys(t), drop)
    ensures forall k :: Lookup(e, k) == if k in drop then None else Lookup(t, k)
  {
    if t == [] then []
    else
      var init, last := t[..|t| - 1], t[|t| - 1];
      assert t == init + [last];
      var rest := Except(init, drop);
      if last.key in drop then
        DropStep(init, last, rest, drop);
        rest
      else
        KeepStep(init, last, rest, drop);
        rest + [last]
  }

  /** Unfolding one step of `Keys`, `Without` and `Lookup` at the end of `init + [last]`. */
  lemma SnocFacts(init: Table, last: Region, drop: seq<string>)
    ensures Keys(init + [last]) == Keys(init) + [last.key]
    ensures Without(Keys(init + [last]), drop)
      == if last.key in drop then Without(Keys(init), drop) else Without(Keys(init), drop) + [last.key]
    ensures forall k :: Lookup(init + [last], k) == if last.key == k then Some(last.name) else Lookup(init, k)
  {
    var t := init + [last];
    assert t[..|t| - 1] == init;
    assert Keys(t)[..|t| - 1] == Keys(init);
    forall k ensures Lookup(t, k) == if last.key == k then Some(last.name) else Lookup(init, k) {
      LookupSnoc(init, last, k);
    }
  }

  /** The step of Except that drops the last entry. */
  lemma DropStep(init: Table, last: Region, rest: Table, drop: seq<string>)
    requires last.key in drop
    requires Keys(rest) == Without(Keys(init), drop)
    requires forall k :: Lookup(rest, k) == if k in drop then None else Lookup(init, k)
    ensures Keys(rest) == Without(Keys(init + [last]), drop)
    ensures forall k :: Lookup(rest, k) == if k in drop then None else Lookup(init + [last], k)
  {
    SnocFacts(init, last, drop);
  }

  /** The step of Except that keeps the last entry. */
  lemma KeepStep(init: Table, last: Region, rest: Table, drop: seq<string>)
    requires last.key !in drop
    requires Keys(rest) == Without(Keys(init), drop)
    requires forall k :: Lookup(rest, k) == if k in drop then None else Lookup(init, k)
    ensures Keys(rest + [last]) == Without(Keys(init + [last]), drop)
    ensures forall k :: Lookup(rest + [last], k) == if k in drop then None else Lookup(init + [last], k)
  {
    KeepKeys(init, last, rest, drop);
    forall k ensures Lookup(rest + [last], k) == if k in drop then None else Lookup(init + [last], k) {
      LookupSnoc(init, last, k);
      LookupSnoc(rest, last, k);
    }
  }

  /** The keys after a step of Except that keeps the last entry. */
  lemma KeepKeys(init: Table, last: Region, rest: Table, drop: seq<string>)
    requires last.key !in drop
    requires Keys(rest) == Without(Keys(init), drop)
    ensures Keys(rest + [last]) == Without(Keys(init + [last]), drop)
  {
    var t := init + [last];
    assert t[..|t| - 1] == init;
    assert Keys(t)[..|t| - 1] == Keys(init);
    assert (rest + [last])[..|rest|] == rest;
  }

  /** Keeping the last entry keeps the keys unique: it cannot occur among the kept ones. */
  lemma KeepUnique(init: Table, last: Region, rest: Table, drop: seq<string>)
    requires Keys(rest) == Without(Keys(init), drop)
    requires UniqueKeys(rest)
    requires UniqueKeys(init + [last])
    ensures UniqueKeys(rest + [last])
  {
    var t := init + [last];
    forall i | 0 <= i < |init| ensures Keys(init)[i] != last.key {
      assert t[i].key != t[|init|].key;
    }
    var e := rest + [last];
    forall i, j | 0 <= i < j < |e| ensures e[i].key != e[j].key {
      if j == |rest| {
        assert Keys(rest)[i] in Keys(init);
      } else {
        assert e[i] == rest[i] && e[j] == rest[j];
      }
    }
  }

  /** Removing keys from a hash with unique keys keeps them unique. */
  lemma {:induction false} ExceptKeepsKeysUnique(t: Table, drop: seq<string>)
    requires UniqueKeys(t)
    ensures UniqueKeys(Except(t, drop))
  {
    if t != [] {
      var init, last := t[..|t| - 1], t[|t| - 1];
      assert t == init + [last];
      ExceptKeepsKeysUnique(init, drop);
      if last.key !in drop {
        KeepUnique(init, last, Except(init, drop), drop);
      }
    }
  }

  /** Removing no keys leaves the hash as it was, whatever its keys. */
  lemma {:induction false} ExceptNothing(t: Table)
    ensures Except(t, []) == t
  {
    if t != [] {
      var init, last := t[..|t| - 1], t[|t| - 1];
      assert t == init + [last];
      ExceptNothing(init);
      assert Except(t, []) == Except(init, []) + [last];
    }
  }

  /** Keys none of which is listed are all kept, in order. */
  lemma {:induction false} WithoutNoneListed(ks: seq<string>, drop: seq<string>)
    requires forall k :: k in ks ==> k !in drop
    ensures Without(ks, drop) == ks
  {
    if ks != [] {
      var init := ks[..|ks| - 1];
      assert ks == init + [ks[|ks| - 1]];
      WithoutNoneListed(init, drop);
    }
  }

  /** Keys all of which are listed are all removed. */
  lemma {:induction false} WithoutAllListed(ks: seq<string>, drop: seq<string>)
    requires forall k :: k in ks ==> k in drop
    ensures Without(ks, drop) == []
  {
    if ks != [] {
      var init := ks[..|ks| - 1];
      assert ks == init + [ks[|ks| - 1]];
      WithoutAllListed(init, drop);
    }
  }

  /**
   * Merging again entries whose keys the table already holds, or that are then
   * removed anyway, leaves the remaining keys as they were.
   */
  lemma {:induction false} ReapplyKeys(u: Table, adds: Table, drop: seq<string>)
    requires forall i :: 0 <= i < |adds| ==> adds[i].key in Keys(u) || adds[i].key in drop
    ensures Without(Keys(Merge(u, adds)), drop) == Without(Keys(u), drop)
  {
    if adds != [] {
      var init, last := adds[..|adds| - 1], adds[|adds| - 1];
      ReapplyKeys(u, init, drop);
      var m := Merge(u, init);
      if last.key !in Keys(m) {
        var ks := Keys(m) + [last.key];
        assert ks[..|ks| - 1] == Keys(m);
      }
    }
  }

  /** After a merge and an except, every added key is present or was removed. */
  lemma ReapplyCovers(t: Table, adds: Table, drop: seq<string>)
    ensures var u := Except(Merge(t, adds), drop);
      forall i :: 0 <= i < |adds| ==> adds[i].key in Keys(u) || adds[i].key in drop
  {
    var u := Except(Merge(t, adds), drop);
    forall i | 0 <= i < |adds| && adds[i].key !in drop ensures adds[i].key in Keys(u) {
      assert Keys(adds)[i] == adds[i].key;
    }
  }

  /** Looking a key up after merging and excepting twice gives what the first round gave. */
  lemma ReapplyLookup(t: Table, adds: Table, drop: seq<string>, k: string)
    ensures var u := Except(Merge(t, adds), drop);
      Lookup(Except(Merge(u, adds), drop), k) == Lookup(u, k)
  {
    var u := Except(Merge(t, adds), drop);
    MergeLookup(t, adds, k);
    MergeLookup(u, adds, k);
  }

  /** Merging and excepting a second time with the same arguments changes nothing. */
  lemma MergeExceptIdempotent(t: Table, adds: Table, drop: seq<string>)
    requires UniqueKeys(t)
    ensures var u := Except(Merge(t, adds), drop);
      Except(Merge(u, adds), drop) == u
  {
    var u := Except(Merge(t, adds), drop);
    var v := Except(Merge(u, adds), drop);
    MergeKeepsKeysUnique(t, adds);
    ExceptKeepsKeysUnique(Merge(t, adds), drop);
    MergeKeepsKeysUnique(u, adds);
    ExceptKeepsKeysUnique(Merge(u, adds), drop);
    ReapplyCovers(t, adds, drop);
    ReapplyKeys(u, adds, drop);
    assert forall k :: k in Keys(u) ==> k !in drop;
    WithoutNoneListed(Keys(u), drop);
    forall k ensures Lookup(v, k) == Lookup(u, k) {
      ReapplyLookup(t, adds, drop, k);
    }
    TableExtensionality(v, u);
  }

  /** Two well-formed hashes with the same keys in the same order and the same config per key are the same hash. */
  lemma TableExtensionality(t1: Table, t2: Table)
    requires UniqueKeys(t1) && UniqueKeys(t2)
    requires Keys(t1) == Keys(t2)
    requires forall k :: Lookup(t1, k) == Lookup(t2, k)
    ensures t1 == t2
  {
    assert |t1| == |t2|;
    forall i | 0 <= i < |t1| ensures t1[i] == t2[i] {
      var k := t1[i].key;
      assert Keys(t1)[i] == k && Keys(t2)[i] == k;
      assert IndexOf(t1, k) == i;
      assert IndexOf(t2, k) == i;
      assert Lookup(t1, k) == Lookup(t2, k);
    }
  }
}
