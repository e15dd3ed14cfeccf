/**
 * In-place object operations the locale service performs on its bundle,
 * written as functions from the object before to the object after:
 * setting a property, deleting one, `Object.assign`, and the key-by-key
 * sweep that `dispose(url)` and `exclude(url)` run over a ledger entry.
 */
module Objects {
  import opened JsonValues

  function Elems(ks: seq<string>): set<string> {
    set k | k in ks
  }

  /** The key list of a well-formed object holds exactly its properties. */
  lemma KeysElems(o: Object)
    requires WellFormed(o)
    ensures Elems(o.keys) == o.vals.Keys
  {
  }

  /** The names of `ks` that belong to `S`, in the order of `ks`. */
  function Among(ks: seq<string>, S: set<string>): (r: seq<string>)
    ensures forall k :: k in r <==> k in ks && k in S
    ensures Distinct(ks) ==> Distinct(r)
    decreases |ks|
  {
    if ks == [] then []
    else
      var init, last := ks[..|ks| - 1], ks[|ks| - 1];
      assert ks == init + [last];
      DistinctSnoc(init, last);
      var r' := Among(init, S);
      DistinctSnoc(r', last);
      if last in S then r' + [last] else r'
  }

  /** The names of `ks` that do not belong to `S`, in the order of `ks`. */
  function NotAmong(ks: seq<string>, S: set<string>): (r: seq<string>)
    ensures forall k :: k in r <==> k in ks && k !in S
    ensures Distinct(ks) ==> Distinct(r)
    decreases |ks|
  {
    if ks == [] then []
    else
      var init, last := ks[..|ks| - 1], ks[|ks| - 1];
      assert ks == init + [last];
      DistinctSnoc(init, last);
      var r' := NotAmong(init, S);
      DistinctSnoc(r', last);
      if last !in S then r' + [last] else r'
  }

  /** Filtering out `S` and then `T` is filtering out both at once. */
  lemma {:induction false} NotAmongTwice(ks: seq<string>, S: set<string>, T: set<string>)
    ensures NotAmong(NotAmong(ks, S), T) == NotAmong(ks, S + T)
    decreases |ks|
  {
    if ks != [] {
      var init, last := ks[..|ks| - 1], ks[|ks| - 1];
      NotAmongTwice(init, S, T);
      var n := NotAmong(init, S);
      if last !in S {
        assert (n + [last])[..|n|] == n;
      }
    }
  }

  /** Filtering with a set that holds none of the names changes nothing. */
  lemma {:induction false} NotAmongNone(ks: seq<string>, S: set<string>)
    requires forall k :: k in ks ==> k !in S
    ensures NotAmong(ks, S) == ks
    decreases |ks|
  {
    if ks != [] {
      var init := ks[..|ks| - 1];
      assert ks == init + [ks[|ks| - 1]];
      NotAmongNone(init, S);
    }
  }

  /** Filtering out a set that holds all of the names leaves nothing. */
  lemma {:induction false} NotAmongAll(ks: seq<string>, S: set<string>)
    requires forall k :: k in ks ==> k in S
    ensures NotAmong(ks, S) == []
    decreases |ks|
  {
    if ks != [] {
      var init := ks[..|ks| - 1];
      assert ks == init + [ks[|ks| - 1]];
      NotAmongAll(init, S);
    }
  }

  /** Keeping a set that holds all of the names changes nothing. */
  lemma {:induction false} AmongAll(ks: seq<string>, S: set<string>)
    requires forall k :: k in ks ==> k in S
    ensures Among(ks, S) == ks
    decreases |ks|
  {
    if ks != [] {
      var init := ks[..|ks| - 1];
      assert ks == init + [ks[|ks| - 1]];
      AmongAll(init, S);
    }
  }

  /** `delete o[k]`: the property goes, the order of the others is kept. */
  function Remove(o: Object, k: string): (r: Object)
    ensures WellFormed(o) ==> WellFormed(r)
    ensures r.vals == o.vals - {k}
    ensures r.keys == NotAmong(o.keys, {k})
  {
    Object(NotAmong(o.keys, {k}), o.vals - {k})
  }

  /** `o[k] = v`: an existing property keeps its place, a new one goes last. */
  function Put(o: Object, k: string, v: Json): (r: Object)
    ensures WellFormed(o) ==> WellFormed(r)
    ensures r.vals == o.vals[k := v]
    ensures k in o.vals ==> r.keys == o.keys
    ensures k !in o.vals ==> r.keys == o.keys + [k]
  {
    DistinctSnoc(o.keys, k);
    Object(if k in o.vals then o.keys else o.keys + [k], o.vals[k := v])
  }

  /** Copying the properties named by `ks` from `src`, one at a time, in order. */
  function AssignKeys(t: Object, ks: seq<string>, src: map<string, Json>): Object
    requires forall k :: k in ks ==> k in src
    decreases |ks|
  {
    if ks == [] then t
    else
      var last := ks[|ks| - 1];
      Put(AssignKeys(t, ks[..|ks| - 1], src), last, src[last])
  }

  /** `Object.assign(t, s)`: the result is the updated target. */
  function Assign(t: Object, s: Object): (r: Object)
    requires WellFormed(s)
    ensures r.vals.Keys == t.vals.Keys + s.vals.Keys
    ensures forall k :: k in s.vals ==> r.vals[k] == s.vals[k]
    ensures forall k :: k in t.vals && k !in s.vals ==> r.vals[k] == t.vals[k]
  {
    AssignKeysValues(t, s.keys, s.vals);
    KeysElems(s);
    AssignKeys(t, s.keys, s.vals)
  }

  /** Copying keys one by one gives each copied key its value from `src`. */
  lemma {:induction false} AssignKeysValues(t: Object, ks: seq<string>, src: map<string, Json>)
    requires forall k :: k in ks ==> k in src
    ensures var r := AssignKeys(t, ks, src);
      && r.vals.Keys == t.vals.Keys + Elems(ks)
      && forall k :: k in r.vals ==> r.vals[k] == if k in ks then src[k] else t.vals[k]
    decreases |ks|
  {
    if ks != [] {
      var init, last := ks[..|ks| - 1], ks[|ks| - 1];
      assert ks == init + [last];
      AssignKeysValues(t, init, src);
      assert Elems(ks) == Elems(init) + {last};
    }
  }

  /** Copying keys one by one keeps old keys in place and appends the new ones. */
  lemma {:induction false} AssignKeysOrder(t: Object, ks: seq<string>, src: map<string, Json>)
    requires WellFormed(t) && Distinct(ks)
    requires forall k :: k in ks ==> k in src
    ensures WellFormed(AssignKeys(t, ks, src))
    ensures AssignKeys(t, ks, src).keys == t.keys + NotAmong(ks, t.vals.Keys)
    decreases |ks|
  {
    if ks != [] {
      var init, last := ks[..|ks| - 1], ks[|ks| - 1];
      assert ks == init + [last];
      DistinctSnoc(init, last);
      AssignKeysOrder(t, init, src);
      AssignKeysValues(t, init, src);
      assert last in AssignKeys(t, init, src).vals <==> last in t.vals;
    }
  }

  /**
   * After `Object.assign(t, s)` every property of `s` holds its value from
   * `s`, every other property of `t` is unchanged, properties already in `t`
   * keep their place and new ones follow in the order of `s`.
   */
  lemma AssignSpec(t: Object, s: Object)
    requires WellFormed(t) && WellFormed(s)
    ensures var r := Assign(t, s);
      && WellFormed(r)
      && r.keys == t.keys + NotAmong(s.keys, t.vals.Keys)
      && r.vals.Keys == t.vals.Keys + s.vals.Keys
      && (forall k :: k in s.vals ==> r.vals[k] == s.vals[k])
      && (forall k :: k in t.vals && k !in s.vals ==> r.vals[k] == t.vals[k])
  {
    AssignKeysOrder(t, s.keys, s.vals);
    AssignKeysValues(t, s.keys, s.vals);
    assert Elems(s.keys) == s.vals.Keys;
  }

  /**
   * The state of the sweep `dispose(url)` and `exclude(url)` run over a
   * ledger entry: what is left of the bundle, the fragment copied out (the
   * exclusion), and the names emitted so far.
   */
  datatype Sweep = Sweep(rest: Object, taken: Object, emitted: seq<string>)

  /**
   * One turn of the loop: a key still owned by the bundle is copied into the
   * fragment, deleted from the bundle and emitted; any other key is skipped.
   * (The source writes `null` to the property before deleting it; nothing
   * observes that intermediate state.)
   */
  function SweepStep(w: Sweep, k: string): (r: Sweep)
    ensures k !in r.rest.vals
    ensures |r.emitted| <= |w.emitted| + 1
  {
    if k in w.rest.vals then
      Sweep(Remove(w.rest, k), Put(w.taken, k, w.rest.vals[k]), w.emitted + [k])
    else w
  }

  /** The whole loop over `ks`, starting from bundle `o` and an empty fragment. */
  function SweepKeys(o: Object, ks: seq<string>): (r: Sweep)
    ensures |r.emitted| <= |ks|
    decreases |ks|
  {
    if ks == [] then Sweep(o, Empty, [])
    else SweepStep(SweepKeys(o, ks[..|ks| - 1]), ks[|ks| - 1])
  }

  /** Sweeping one more name is one more step of the sweep. */
  lemma SweepKeysNext(o: Object, ks: seq<string>, i: nat)
    requires i < |ks|
    ensures SweepKeys(o, ks[..i + 1]) == SweepStep(SweepKeys(o, ks[..i]), ks[i])
  {
    assert ks[..i + 1][..i] == ks[..i];
  }

  /**
   * Sweeping a list of distinct names removes exactly those names from the
   * bundle and emits exactly the names the bundle held, in list order.
   */
  lemma {:induction false} SweepRemoves(o: Object, ks: seq<string>)
    requires Distinct(ks)
    ensures var w := SweepKeys(o, ks);
      && w.rest.vals == o.vals - Elems(ks)
      && w.emitted == Among(ks, o.vals.Keys)
    decreases |ks|
  {
    if ks != [] {
      var init, k := ks[..|ks| - 1], ks[|ks| - 1];
      assert ks == init + [k];
      DistinctSnoc(init, k);
      SweepRemoves(o, init);
      assert Elems(ks) == Elems(init) + {k};
      assert k in SweepKeys(o, init).rest.vals <==> k in o.vals;
    }
  }

  /** The bundle left by a sweep keeps its remaining keys in their old order. */
  lemma {:induction false} SweepKeepsOrder(o: Object, ks: seq<string>)
    requires WellFormed(o) && Distinct(ks)
    ensures var w := SweepKeys(o, ks);
      && WellFormed(w.rest)
      && w.rest.keys == NotAmong(o.keys, Elems(ks))
    decreases |ks|
  {
    if ks == [] {
      assert Elems(ks) == {};
      NotAmongNone(o.keys, {});
    } else {
      var init, k := ks[..|ks| - 1], ks[|ks| - 1];
      assert ks == init + [k];
      DistinctSnoc(init, k);
      SweepKeepsOrder(o, init);
      var w' := SweepKeys(o, init);
      assert Elems(ks) == Elems(init) + {k};
      NotAmongTwice(o.keys, Elems(init), {k});
      if k !in w'.rest.vals {
        NotAmongNone(w'.rest.keys, {k});
      }
    }
  }

  /**
   * Sweeping a list of distinct names copies out exactly the bundle
   * restricted to those names, with its keys in the order they were emitted.
   */
  lemma {:induction false} SweepTaken(o: Object, ks: seq<string>)
    requires WellFormed(o) && Distinct(ks)
    ensures var w := SweepKeys(o, ks);
      && WellFormed(w.taken)
      && w.taken.keys == w.emitted
      && w.taken.vals.Keys == o.vals.Keys * Elems(ks)
      && forall k :: k in w.taken.vals ==> w.taken.vals[k] == o.vals[k]
    decreases |ks|
  {
    if ks != [] {
      var init, k := ks[..|ks| - 1], ks[|ks| - 1];
      assert ks == init + [k];
      DistinctSnoc(init, k);
      SweepTaken(o, init);
      SweepRemoves(o, init);
      assert Elems(ks) == Elems(init) + {k};
      var w', w := SweepKeys(o, init), SweepKeys(o, ks);
      assert w == SweepStep(w', k);
      if k in w'.rest.vals {
        assert w.taken == Put(w'.taken, k, o.vals[k]);
      } else {
        assert w == w';
      }
    }
  }

  /**
   * The sweep of `exclude` in one statement: the fragment is the bundle
   * restricted to the names, in list order; the rest is the bundle without
   * them, in its old order.
   */
  lemma SweepSpec(o: Object, ks: seq<string>)
    requires WellFormed(o) && Distinct(ks)
    ensures var w := SweepKeys(o, ks);
      && w.taken.keys == Among(ks, o.vals.Keys)
      && w.taken.vals.Keys == o.vals.Keys * Elems(ks)
      && (forall k :: k in w.taken.vals ==> w.taken.vals[k] == o.vals[k])
      && WellFormed(w.rest)
      && w.rest.vals == o.vals - Elems(ks)
      && w.rest.keys == NotAmong(o.keys, Elems(ks))
  {
    SweepRemoves(o, ks);
    SweepKeepsOrder(o, ks);
    SweepTaken(o, ks);
  }

  /** After a merge, excluding the merged origin gives back the fragment's keys, in order. */
  lemma MergeThenExcludeKeys(b: Object, f: Object)
    requires WellFormed(b) && WellFormed(f)
    ensures SweepKeys(Assign(b, f), f.keys).taken.keys == f.keys
  {
    var a := Assign(b, f);
    AssignSpec(b, f);
    MergeThenDisposeEmits(b, f);
    SweepTaken(a, f.keys);
  }

  /** After a merge, excluding the merged origin gives back the fragment's properties. */
  lemma MergeThenExcludeValues(b: Object, f: Object)
    requires WellFormed(b) && WellFormed(f)
    ensures SweepKeys(Assign(b, f), f.keys).taken.vals == f.vals
  {
    var a := Assign(b, f);
    var t := SweepKeys(a, f.keys).taken;
    assert WellFormed(a) by {
      AssignKeysOrder(b, f.keys, f.vals);
    }
    SweepTaken(a, f.keys);
    KeysElems(f);
    assert t.vals.Keys == f.vals.Keys;
    forall k | k in t.vals ensures t.vals[k] == f.vals[k] {
    }
    MapsEqual(t.vals, f.vals);
  }

  /** After a merge, excluding the merged origin gives back the merged fragment. */
  lemma MergeThenExcludeFragment(b: Object, f: Object)
    requires WellFormed(b) && WellFormed(f)
    ensures SweepKeys(Assign(b, f), f.keys).taken == f
  {
    MergeThenExcludeKeys(b, f);
    MergeThenExcludeValues(b, f);
  }

  /** After a merge, disposing of the merged origin emits every merged key, in order. */
  lemma MergeThenDisposeEmits(b: Object, f: Object)
    requires WellFormed(b) && WellFormed(f)
    ensures SweepKeys(Assign(b, f), f.keys).emitted == f.keys
  {
    var a := Assign(b, f);
    AssignSpec(b, f);
    SweepRemoves(a, f.keys);
    AmongAll(f.keys, a.vals.Keys);
  }

  /**
   * After a merge, excluding or disposing of the merged origin leaves the
   * properties the bundle had before the merge, less the merged keys.
   */
  lemma MergeThenExcludeRest(b: Object, f: Object)
    requires WellFormed(b) && WellFormed(f)
    ensures SweepKeys(Assign(b, f), f.keys).rest.vals == b.vals - Elems(f.keys)
  {
    var a := Assign(b, f);
    var r := SweepKeys(a, f.keys).rest.vals;
    SweepRemoves(a, f.keys);
    assert r == a.vals - Elems(f.keys);
    KeysElems(f);
    var m := b.vals - Elems(f.keys);
    assert r.Keys == m.Keys;
    forall k | k in r ensures r[k] == m[k] {
    }
    MapsEqual(r, m);
  }

  /** Maps with the same keys and the same value at each key are equal. */
  lemma MapsEqual(m: map<string, Json>, n: map<string, Json>)
    requires m.Keys == n.Keys
    requires forall k :: k in m ==> m[k] == n[k]
    ensures m == n
  {
  }

  /** Assigning into `{}` keeps the source's key order. */
  lemma AssignIntoEmptyKeys(f: Object)
    requires WellFormed(f)
    ensures Assign(Empty, f).keys == f.keys
  {
    AssignKeysOrder(Empty, f.keys, f.vals);
    assert Empty.vals.Keys == {};
    NotAmongNone(f.keys, {});
  }

  /** Assigning into `{}` copies the source's properties. */
  lemma AssignIntoEmptyValues(f: Object)
    requires WellFormed(f)
    ensures Assign(Empty, f).vals == f.vals
  {
    var r := Assign(Empty, f);
    AssignKeysValues(Empty, f.keys, f.vals);
    KeysElems(f);
    assert r.vals.Keys == f.vals.Keys;
    forall k | k in r.vals ensures r.vals[k] == f.vals[k] {
    }
  }

  /** Assigning into `{}` copies the source, key order included. */
  lemma AssignIntoEmpty(f: Object)
    requires WellFormed(f)
    ensures Assign(Empty, f) == f
  {
    AssignIntoEmptyKeys(f);
    AssignIntoEmptyValues(f);
  }

  /** Excluding the origin of a bundle installed by `origin` hands all of it back. */
  lemma OriginThenExcludeTaken(f: Object)
    requires WellFormed(f)
    ensures SweepKeys(f, f.keys).taken == f
  {
    AssignIntoEmpty(f);
    MergeThenExcludeFragment(Empty, f);
  }

  /** Excluding the origin of a bundle installed by `origin` leaves `{}` behind. */
  lemma OriginThenExcludeRest(f: Object)
    requires WellFormed(f)
    ensures SweepKeys(f, f.keys).rest == Empty
  {
    var w := SweepKeys(f, f.keys);
    SweepRemoves(f, f.keys);
    SweepKeepsOrder(f, f.keys);
    NotAmongAll(f.keys, Elems(f.keys));
    KeysElems(f);
    assert w.rest.vals == map[];
  }
}
