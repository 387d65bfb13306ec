/** Insertion-ordered dictionaries with string keys, behaving as JavaScript's
    `Map` does for `set`, `get`, `has`, `delete`, `clear`, `size` and `values()`:
    `set` on a present key replaces the value where the key stands, `set` on a
    new key appends it, `delete` removes the key and keeps the others in order.
    Both the task registry and the operation queue are such maps. */
module OrderedMap {
  import opened Optional

  predicate Distinct(s: seq<string>) {
    forall i, j :: 0 <= i < j < |s| ==> s[i] != s[j]
  }

  /** The values of `e` under the keys `ks`, in the order of `ks`. */
  function Lookup<V>(ks: seq<string>, e: map<string, V>): (vs: seq<V>)
    requires forall k :: k in ks ==> k in e
  {
    seq(|ks|, i requires 0 <= i < |ks| => e[ks[i]])
  }

  /** Looking up keys with one of them skipped skips that value. */
  lemma LookupSkip<V>(ks: seq<string>, e: map<string, V>, p: nat)
    requires forall k :: k in ks ==> k in e
    requires p < |ks|
    ensures Lookup(ks[..p] + ks[p + 1..], e) == Lookup(ks, e)[..p] + Lookup(ks, e)[p + 1..]
  {
    var vs := Lookup(ks, e);
    var skipped := Lookup(ks[..p] + ks[p + 1..], e);
    var expected := vs[..p] + vs[p + 1..];
    forall i | 0 <= i < |ks| - 1
      ensures skipped[i] == expected[i]
    {
      SkipAt(ks, p, i);
      SkipAt(vs, p, i);
    }
  }

  /** Dropping an entry none of the keys names changes no looked-up value. */
  lemma LookupWithout<V>(ks: seq<string>, e: map<string, V>, x: string)
    requires forall k :: k in ks ==> k in e && k != x
    ensures Lookup(ks, e - {x}) == Lookup(ks, e)
  {
  }

  /** Removing one element of a sequence without duplicates leaves a sequence
      without duplicates that holds exactly the other elements. */
  lemma RemoveAt(s: seq<string>, p: nat)
    requires Distinct(s) && p < |s|
    ensures Distinct(s[..p] + s[p + 1..])
    ensures forall x :: x in s[..p] + s[p + 1..] <==> x in s && x != s[p]
  {
    var t := s[..p] + s[p + 1..];
    assert forall i :: 0 <= i < p ==> t[i] == s[i];
    assert forall i :: p <= i < |t| ==> t[i] == s[i + 1];
    forall x | x in s && x != s[p]
      ensures x in t
    {
      var j :| 0 <= j < |s| && s[j] == x;
      if j < p {
        assert t[j] == x;
      } else {
        assert t[j - 1] == x;
      }
    }
  }

  /** A sequence of distinct keys has as many elements as the set of its keys. */
  lemma {:induction false} DistinctCount(ks: seq<string>, names: set<string>)
    requires Distinct(ks)
    requires forall k :: k in names <==> k in ks
    ensures |names| == |ks|
    decreases |ks|
  {
    if ks != [] {
      var last := ks[|ks| - 1];
      var init := ks[..|ks| - 1];
      assert Distinct(init);
      assert forall k :: k in names - {last} <==> k in init by {
        forall k ensures k in names - {last} <==> k in init {
          if k in init {
            var i :| 0 <= i < |init| && init[i] == k;
            assert ks[i] == k;
          }
          if k in ks && k != last {
            var i :| 0 <= i < |ks| && ks[i] == k;
            assert i < |ks| - 1;
            assert init[i] == k;
          }
        }
      }
      DistinctCount(init, names - {last});
    }
  }

  /** The position of the first occurrence of `x` in `s`. */
  function Position(s: seq<string>, x: string): (i: nat)
    requires x in s
    ensures i < |s| && s[i] == x
    ensures forall j :: 0 <= j < i ==> s[j] != x
  {
    if s[0] == x then 0 else 1 + Position(s[1..], x)
  }

  /** The representation: the keys in iteration order and the key-value entries. */
  datatype OMap<V> = OMap(keys: seq<string>, entries: map<string, V>) {

    /** Keys are unique and are exactly the keys of the entries. */
    ghost predicate Valid() {
      Distinct(keys) && forall k :: k in entries <==> k in keys
    }

    /** `map.size`: the number of entries. */
    function Size(): (n: nat)
      ensures Valid() ==> n == |entries|
    {
      assert Valid() ==> |entries| == |keys| by {
        if Valid() {
          DistinctCount(keys, entries.Keys);
        }
      }
      |keys|
    }

    /** `map.has(k)`: the key is one of those iterated over. */
    predicate Has(k: string)
      ensures Valid() ==> (Has(k) <==> k in keys)
    {
      k in entries
    }

    /** `map.get(k)`, with `None` for `undefined`. */
    function Get(k: string): (r: Option<V>)
      ensures r.Some? <==> Has(k)
      ensures r.Some? ==> r.value == entries[k]
    {
      if k in entries then Some(entries[k]) else None
    }

    /** `map.values()` in iteration order. */
    function Values(): seq<V>
      requires Valid()
    {
      Lookup(keys, entries)
    }

    /** `map.set(k, v)` */
    function Set(k: string, v: V): (r: OMap<V>)
      requires Valid()
      ensures r.Valid()
    {
      if k in entries then OMap(keys, entries[k := v])
      else OMap(keys + [k], entries[k := v])
    }

    /** `map.delete(k)`; the boolean it returns is `Has(k)` beforehand. */
    function Delete(k: string): (r: OMap<V>)
      requires Valid()
      ensures r.Valid()
    {
      if k in entries then
        var i := Position(keys, k);
        RemoveAt(keys, i);
        OMap(keys[..i] + keys[i + 1..], entries - {k})
      else
        this
    }
  }

  /** `map.values()` holds one value per entry: the `i`-th is the value of the
      `i`-th key in iteration order. */
  lemma ValuesInOrder<V>(m: OMap<V>)
    requires m.Valid()
    ensures |m.Values()| == m.Size() == |m.entries|
    ensures forall i :: 0 <= i < |m.keys| ==> m.Values()[i] == m.entries[m.keys[i]]
  {
  }

  /** `new Map()`, and what `map.clear()` leaves. */
  function Empty<V>(): (m: OMap<V>)
    ensures m.Valid() && m.Size() == 0
  {
    OMap([], map[])
  }

  /** Lookup after `set`: the key maps to the new value and no other key changes. */
  lemma SetGet<V>(m: OMap<V>, k: string, v: V)
    requires m.Valid()
    ensures m.Set(k, v).Get(k) == Some(v)
    ensures forall n :: n != k ==> m.Set(k, v).Get(n) == m.Get(n)
  {
  }

  /** `set` on a present key keeps the size and the key's position; on a new key it
      grows the map by one and puts the key last. */
  lemma SetOrder<V>(m: OMap<V>, k: string, v: V)
    requires m.Valid()
    ensures m.Has(k) ==> m.Set(k, v).Size() == m.Size() && Position(m.Set(k, v).keys, k) == Position(m.keys, k)
    ensures !m.Has(k) ==> m.Set(k, v).Size() == m.Size() + 1 && Position(m.Set(k, v).keys, k) == m.Size()
  {
    if !m.Has(k) {
      var r := m.Set(k, v);
      assert r.keys[m.Size()] == k;
    }
  }

  /** `values()` after `set`: replaced where it stands, or appended. */
  lemma SetValues<V>(m: OMap<V>, k: string, v: V)
    requires m.Valid()
    ensures m.Has(k) ==> m.Set(k, v).Values() == m.Values()[Position(m.keys, k) := v]
    ensures !m.Has(k) ==> m.Set(k, v).Values() == m.Values() + [v]
  {
    var r := m.Set(k, v);
    if m.Has(k) {
      var p := Position(m.keys, k);
      forall i | 0 <= i < |r.keys|
        ensures r.Values()[i] == m.Values()[p := v][i]
      {
        if i != p {
          assert m.keys[i] != k;
        }
      }
    } else {
      assert k !in m.keys;
      forall i | 0 <= i < |m.keys|
        ensures r.Values()[i] == (m.Values() + [v])[i]
      {
        assert m.keys[i] != k;
      }
    }
  }

  /** A present key never disappears under `set`: the map only grows. */
  lemma SetKeepsKeys<V>(m: OMap<V>, k: string, v: V, n: string)
    requires m.Valid() && m.Has(n)
    ensures m.Set(k, v).Has(n)
  {
  }

  /** Setting a key to the value it already holds changes nothing. */
  lemma SetSame<V>(m: OMap<V>, k: string, v: V)
    requires m.Valid() && m.Has(k) && m.entries[k] == v
    ensures m.Set(k, v) == m
  {
  }

  /** `delete(k)` of a present key: the key is gone, the map shrinks by one, and
      every other key reads as before. */
  lemma DeleteGet<V>(m: OMap<V>, k: string)
    requires m.Valid() && m.Has(k)
    ensures !m.Delete(k).Has(k) && m.Delete(k).Size() == m.Size() - 1
    ensures forall n :: n != k ==> m.Delete(k).Get(n) == m.Get(n)
  {
  }

  /** The keys `delete(k)` leaves, in order. */
  function KeysWithout(ks: seq<string>, k: string): seq<string>
    requires k in ks
  {
    ks[..Position(ks, k)] + ks[Position(ks, k) + 1..]
  }

  /** The values after `delete(k)` are those of the remaining keys, read from the
      entries as they were. */
  lemma DeleteLookup<V>(m: OMap<V>, k: string)
    requires m.Valid() && m.Has(k)
    ensures m.Delete(k).Values() == Lookup(KeysWithout(m.keys, k), m.entries)
  {
    var rest := KeysWithout(m.keys, k);
    assert m.Delete(k) == OMap(rest, m.entries - {k});
    assert forall y :: y in rest ==> y in m.entries && y != k by {
      RemoveAt(m.keys, Position(m.keys, k));
    }
    LookupWithout(rest, m.entries, k);
  }

  /** `delete(k)` of a present key removes exactly that entry from the value
      order. */
  lemma DeleteValues<V>(m: OMap<V>, k: string)
    requires m.Valid() && m.Has(k)
    ensures m.Delete(k).Values() == m.Values()[..Position(m.keys, k)] + m.Values()[Position(m.keys, k) + 1..]
  {
    DeleteLookup(m, k);
    LookupSkip(m.keys, m.entries, Position(m.keys, k));
  }

  /** Position `i` of `s` with its element at `p` removed. */
  lemma SkipAt<T>(s: seq<T>, p: nat, i: nat)
    requires p < |s| && i + 1 < |s|
    ensures (s[..p] + s[p + 1..])[i] == s[if i < p then i else i + 1]
  {
  }

  /** Setting every element of `vs`, in order, under the key `key` gives it. */
  function SetAll<V>(m: OMap<V>, vs: seq<V>, key: V -> string): (r: OMap<V>)
    requires m.Valid()
    ensures r.Valid()
    decreases |vs|
  {
    if vs == [] then m
    else SetAll(m, vs[..|vs| - 1], key).Set(key(vs[|vs| - 1]), vs[|vs| - 1])
  }

  /** Every entry is stored under its own key, as `set(x.name, x)` stores it. */
  ghost predicate KeyedBy<V>(m: OMap<V>, key: V -> string) {
    m.Valid() && forall k :: k in m.entries ==> key(m.entries[k]) == k
  }

  /** Setting a value under its own key keeps a keyed map keyed. */
  lemma SetKeyedBy<V>(m: OMap<V>, v: V, key: V -> string)
    requires KeyedBy(m, key)
    ensures KeyedBy(m.Set(key(v), v), key)
  {
  }

  /** Setting elements under their own keys keeps a keyed map keyed. */
  lemma {:induction false} SetAllKeyedBy<V>(m: OMap<V>, vs: seq<V>, key: V -> string)
    requires KeyedBy(m, key)
    ensures KeyedBy(SetAll(m, vs, key), key)
    decreases |vs|
  {
    if vs != [] {
      SetAllKeyedBy(m, vs[..|vs| - 1], key);
      SetKeyedBy(SetAll(m, vs[..|vs| - 1], key), vs[|vs| - 1], key);
    }
  }

  /** The last element of `vs` whose key is `n`, if any. */
  function LastKeyed<V>(vs: seq<V>, key: V -> string, n: string): (r: Option<V>)
    ensures r.None? <==> forall v :: v in vs ==> key(v) != n
    ensures r.Some? ==> exists i :: 0 <= i < |vs| && vs[i] == r.value && key(vs[i]) == n &&
                                   forall j :: i < j < |vs| ==> key(vs[j]) != n
    decreases |vs|
  {
    if vs == [] then None
    else if key(vs[|vs| - 1]) == n then Some(vs[|vs| - 1])
    else
      var r := LastKeyed(vs[..|vs| - 1], key, n);
      assert vs == vs[..|vs| - 1] + [vs[|vs| - 1]];
      r
  }

  /** With pairwise distinct keys, each element is the last (and only) one
      carrying its key. */
  lemma {:induction false} LastKeyedDistinct<V>(vs: seq<V>, key: V -> string, i: nat)
    requires forall a, b :: 0 <= a < b < |vs| ==> key(vs[a]) != key(vs[b])
    requires i < |vs|
    ensures LastKeyed(vs, key, key(vs[i])) == Some(vs[i])
    decreases |vs|
  {
    var last := |vs| - 1;
    if i < last {
      var init := vs[..last];
      assert key(vs[i]) != key(vs[last]);
      assert init[i] == vs[i];
      LastKeyedDistinct(init, key, i);
    }
  }

  /** After setting all of `vs`, a key holds the last element with that key; a key
      none of them has keeps its old entry (last write wins). */
  lemma {:induction false} SetAllGet<V>(m: OMap<V>, vs: seq<V>, key: V -> string, n: string)
    requires m.Valid()
    ensures SetAll(m, vs, key).Get(n) == if LastKeyed(vs, key, n).Some? then LastKeyed(vs, key, n) else m.Get(n)
    decreases |vs|
  {
    if vs != [] {
      SetAllGet(m, vs[..|vs| - 1], key, n);
    }
  }

  /** The keys of the elements of `vs`, in order. */
  function KeysOf<V>(vs: seq<V>, key: V -> string): (ks: seq<string>)
    ensures |ks| == |vs| && forall i :: 0 <= i < |vs| ==> ks[i] == key(vs[i])
  {
    seq(|vs|, i requires 0 <= i < |vs| => key(vs[i]))
  }

  /** `acc` followed by every name of `names` not seen before, in the order of
      first occurrence. */
  function AppendNew(acc: seq<string>, names: seq<string>): seq<string>
    decreases |names|
  {
    if names == [] then acc
    else
      var prefix := AppendNew(acc, names[..|names| - 1]);
      if names[|names| - 1] in prefix then prefix else prefix + [names[|names| - 1]]
  }

  /** The distinct names of `names`, in the order of their first occurrence. */
  function FirstOccurrences(names: seq<string>): seq<string> {
    AppendNew([], names)
  }

  /** The keys after setting all of `vs`: the old keys, then the new ones in the
      order they first appear. */
  lemma {:induction false} SetAllKeys<V>(m: OMap<V>, vs: seq<V>, key: V -> string)
    requires m.Valid()
    ensures SetAll(m, vs, key).keys == AppendNew(m.keys, KeysOf(vs, key))
    decreases |vs|
  {
    if vs != [] {
      var init := vs[..|vs| - 1];
      SetAllKeys(m, init, key);
      assert KeysOf(vs, key)[..|vs| - 1] == KeysOf(init, key);
    }
  }

  /** `AppendNew` keeps `acc` in front, adds only names of `names`, adds each once. */
  lemma {:induction false} AppendNewSpec(acc: seq<string>, names: seq<string>)
    requires Distinct(acc)
    ensures Distinct(AppendNew(acc, names))
    ensures |acc| <= |AppendNew(acc, names)| && AppendNew(acc, names)[..|acc|] == acc
    ensures forall x :: x in AppendNew(acc, names) <==> x in acc || x in names
    decreases |names|
  {
    if names != [] {
      var init := names[..|names| - 1];
      AppendNewSpec(acc, init);
      assert names == init + [names[|names| - 1]];
    }
  }

  /** A list of distinct names is its own list of first occurrences. */
  lemma {:induction false} FirstOccurrencesOfDistinct(names: seq<string>)
    requires Distinct(names)
    ensures FirstOccurrences(names) == names
    decreases |names|
  {
    if names != [] {
      var init := names[..|names| - 1];
      FirstOccurrencesOfDistinct(init);
      AppendNewSpec([], init);
    }
  }

  /** The first occurrence of a name in a prefix is its first occurrence in the whole. */
  lemma PositionInPrefix(s: seq<string>, m: nat, x: string)
    requires m <= |s| && x in s[..m]
    ensures Position(s, x) == Position(s[..m], x)
  {
    assert s[Position(s[..m], x)] == x;
  }

  /** `FirstOccurrences` lists the names by increasing first position. */
  lemma {:induction false} FirstOccurrencesOrdered(names: seq<string>)
    ensures forall i, j :: 0 <= i < j < |FirstOccurrences(names)| ==>
      FirstOccurrences(names)[i] in names && FirstOccurrences(names)[j] in names &&
      Position(names, FirstOccurrences(names)[i]) < Position(names, FirstOccurrences(names)[j])
    decreases |names|
  {
    if names != [] {
      var n := |names|;
      var init := names[..n - 1];
      var last := names[n - 1];
      var p := FirstOccurrences(init);
      var r := FirstOccurrences(names);
      FirstOccurrencesOrdered(init);
      AppendNewSpec([], init);
      assert names == init + [last];
      forall x | x in p
        ensures x in names && Position(names, x) == Position(init, x) < n - 1
      {
        PositionInPrefix(names, n - 1, x);
      }
      if last !in p {
        assert r == p + [last];
        assert Position(names, last) == n - 1;
      }
      forall i, j | 0 <= i < j < |r|
        ensures r[i] in names && r[j] in names && Position(names, r[i]) < Position(names, r[j])
      {
        assert r[i] in p;
        if j < |p| {
          assert r[j] in p;
          assert Position(init, r[i]) < Position(init, r[j]);
        }
      }
      assert r == FirstOccurrences(names);
    } else {
      assert FirstOccurrences(names) == [];
    }
  }
}
