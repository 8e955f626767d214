/** A JavaScript `Map` with string keys: its entries together with the order in
    which their keys were first inserted, the order in which `forEach` and
    `values()` visit them. */
module JsMap {

  datatype Table<V> = Table(keys: seq<string>, entries: map<string, V>)

  ghost predicate Distinct(ks: seq<string>) {
    forall i, j :: 0 <= i < j < |ks| ==> ks[i] != ks[j]
  }

  /** Every key occurs once in the order, and the order lists exactly the keys of the entries. */
  ghost predicate Valid<V>(t: Table<V>) {
    Distinct(t.keys) && (forall k :: k in t.entries <==> k in t.keys)
  }

  /** `new Map()` and `map.clear()`. */
  function Empty<V>(): (t: Table<V>)
    ensures Valid(t) && t.keys == [] && t.entries == map[]
  {
    Table([], map[])
  }

  /** `map.set(k, v)`: a new key goes to the end of the order, a present one keeps its place. */
  function Set<V>(t: Table<V>, k: string, v: V): (r: Table<V>)
    requires Valid(t)
    ensures Valid(r)
    ensures r.entries == t.entries[k := v]
    ensures k in t.entries ==> r.keys == t.keys
    ensures k !in t.entries ==> r.keys == t.keys + [k]
  {
    if k in t.entries then Table(t.keys, t.entries[k := v]) else Table(t.keys + [k], t.entries[k := v])
  }

  /** The keys of `ks` outside `d`, in their order in `ks`. */
  function Without(ks: seq<string>, d: set<string>): (r: seq<string>)
    ensures forall k :: k in r <==> k in ks && k !in d
    ensures Distinct(ks) ==> Distinct(r)
    ensures |r| <= |ks|
  {
    if ks == [] then [] else (if ks[0] in d then [] else [ks[0]]) + Without(ks[1..], d)
  }

  lemma {:induction false} WithoutTwice(ks: seq<string>, a: set<string>, b: set<string>)
    ensures Without(Without(ks, a), b) == Without(ks, a + b)
  {
    if ks != [] {
      WithoutTwice(ks[1..], a, b);
      var rest := Without(ks[1..], a);
      if ks[0] !in a {
        var w := [ks[0]] + rest;
        assert Without(ks, a) == w;
        assert w[0] == ks[0] && w[1..] == rest;
        assert Without(w, b) == (if ks[0] in b then [] else [ks[0]]) + Without(rest, b);
        assert Without(ks, a + b) == (if ks[0] in b then [] else [ks[0]]) + Without(ks[1..], a + b);
      } else {
        assert Without(ks, a) == [] + rest == rest;
        assert Without(ks, a + b) == [] + Without(ks[1..], a + b);
      }
    }
  }

  lemma {:induction false} WithoutNothing(ks: seq<string>)
    ensures Without(ks, {}) == ks
  {
    if ks != [] {
      WithoutNothing(ks[1..]);
      assert ks == [ks[0]] + ks[1..];
    }
  }

  /** Deleting every key of `d` (`map.delete` once per key). */
  function DeleteAll<V>(t: Table<V>, d: set<string>): (r: Table<V>)
    requires Valid(t)
    ensures Valid(r)
    ensures r.entries == t.entries - d
    ensures forall k :: k in r.keys <==> k in t.keys && k !in d
  {
    Table(Without(t.keys, d), t.entries - d)
  }

  /** Deleting `a` and then `b` is deleting `a + b`. */
  lemma DeleteAllTwice<V>(t: Table<V>, a: set<string>, b: set<string>)
    requires Valid(t)
    ensures DeleteAll(DeleteAll(t, a), b) == DeleteAll(t, a + b)
  {
    WithoutTwice(t.keys, a, b);
    assert (t.entries - a) - b == t.entries - (a + b);
  }

  /** Deleting no key changes nothing. */
  lemma DeleteNothing<V>(t: Table<V>)
    requires Valid(t)
    ensures DeleteAll(t, {}) == t
  {
    WithoutNothing(t.keys);
    assert t.entries - {} == t.entries;
  }

  /** `Array.from(map.values())`. */
  function Values<V>(t: Table<V>): (vs: seq<V>)
    requires Valid(t)
    ensures |vs| == |t.keys|
    ensures forall i :: 0 <= i < |vs| ==> vs[i] == t.entries[t.keys[i]]
  {
    seq(|t.keys|, i requires 0 <= i < |t.keys| => t.entries[t.keys[i]])
  }

  /** `vs.forEach(v => map.set(key(v), v))`, starting from `t`. */
  function SetAll<V>(t: Table<V>, vs: seq<V>, key: V -> string): (r: Table<V>)
    requires Valid(t)
    ensures Valid(r)
    decreases |vs|
  {
    if vs == [] then t else Set(SetAll(t, vs[..|vs| - 1], key), key(vs[|vs| - 1]), vs[|vs| - 1])
  }

  /** Setting one more value extends the fill by one `set`. */
  lemma SetAllStep<V>(t: Table<V>, vs: seq<V>, i: nat, key: V -> string)
    requires Valid(t) && i < |vs|
    ensures SetAll(t, vs[..i + 1], key) == Set(SetAll(t, vs[..i], key), key(vs[i]), vs[i])
  {
    assert vs[..i + 1][..i] == vs[..i] && vs[..i + 1][i] == vs[i];
  }

  /** A value that no later value of the fill shares a key with is what the filled map
      holds under its key: every later `set` writes some other key. */
  lemma {:induction false} SetAllLast<V>(t: Table<V>, vs: seq<V>, key: V -> string, i: nat)
    requires Valid(t) && i < |vs|
    requires forall j :: i < j < |vs| ==> key(vs[j]) != key(vs[i])
    ensures key(vs[i]) in SetAll(t, vs, key).entries
    ensures SetAll(t, vs, key).entries[key(vs[i])] == vs[i]
    decreases |vs|
  {
    if i < |vs| - 1 {
      SetAllLast(t, vs[..|vs| - 1], key, i);
    }
  }

  /** Filling an empty map with the values of `t`, each under its own key, rebuilds `t`
      with the same order. */
  lemma SetAllValues<V>(t: Table<V>, key: V -> string)
    requires Valid(t)
    requires forall k :: k in t.entries ==> key(t.entries[k]) == k
    ensures SetAll(Empty(), Values(t), key) == t
  {
    var vs := Values(t);
    assert vs[..|vs|] == vs;
    SetAllPrefix(t, key, |vs|);
    assert t.keys[..|vs|] == t.keys;
    var r := SetAll(Empty(), vs, key);
    assert r.entries == t.entries;
  }

  /** The first `i` values of `t`, set one after another into an empty map, rebuild the
      first `i` entries of `t` in their order. */
  ghost predicate PrefixRebuilt<V>(t: Table<V>, key: V -> string, i: nat)
    requires Valid(t) && i <= |t.keys|
  {
    var r := SetAll(Empty(), Values(t)[..i], key);
    && r.keys == t.keys[..i]
    && (forall k :: k in r.entries <==> k in t.keys[..i])
    && (forall k :: k in r.entries ==> r.entries[k] == t.entries[k])
  }

  lemma {:induction false} SetAllPrefix<V>(t: Table<V>, key: V -> string, i: nat)
    requires Valid(t)
    requires forall k :: k in t.entries ==> key(t.entries[k]) == k
    requires i <= |t.keys|
    ensures PrefixRebuilt(t, key, i)
  {
    if i > 0 {
      SetAllPrefix(t, key, i - 1);
      SetAllPrefixStep(t, key, i);
    } else {
      assert Values(t)[..0] == [];
    }
  }

  lemma SetAllPrefixStep<V>(t: Table<V>, key: V -> string, i: nat)
    requires Valid(t)
    requires forall k :: k in t.entries ==> key(t.entries[k]) == k
    requires 0 < i <= |t.keys| && PrefixRebuilt(t, key, i - 1)
    ensures PrefixRebuilt(t, key, i)
  {
    var vs := Values(t);
    var prev := SetAll(Empty(), vs[..i - 1], key);
    var r := SetAll(Empty(), vs[..i], key);
    var k := t.keys[i - 1];
    var v := vs[i - 1];
    assert v == t.entries[k] && key(v) == k;
    assert r == Set(prev, k, v) by {
      assert vs[..i][..i - 1] == vs[..i - 1] && vs[..i][i - 1] == v;
    }
    assert k !in prev.entries by {
      assert forall j :: 0 <= j < i - 1 ==> t.keys[j] != k;
    }
    TakeOneMore(t.keys, i);
    assert r.keys == t.keys[..i];
    forall x ensures x in r.entries <==> x in t.keys[..i] {
      assert x in t.keys[..i] <==> x in t.keys[..i - 1] || x == k;
    }
    forall x | x in r.entries ensures r.entries[x] == t.entries[x] {
      if x != k {
        assert x in prev.entries;
      }
    }
  }

  lemma TakeOneMore(ks: seq<string>, i: nat)
    requires 0 < i <= |ks|
    ensures ks[..i] == ks[..i - 1] + [ks[i - 1]]
  {
  }
}
