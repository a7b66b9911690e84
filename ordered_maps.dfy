/** Insertion-ordered maps: a JavaScript `Map`, and the string-keyed
    properties of a plain object, iterate in the order keys were first set;
    setting an existing key replaces its value where it stands. Every map of
    the pipeline is keyed by strings. */
module OrderedMaps {
  import opened Results

  /** The keys in iteration order, and what each one holds. */
  datatype OrderedMap<V> = OrderedMap(keys: seq<string>, values: map<string, V>)

  /** Every key occurs once in the order, and the order lists exactly the stored keys. */
  ghost predicate Valid<V>(m: OrderedMap<V>) {
    && (forall i, j :: 0 <= i < j < |m.keys| ==> m.keys[i] != m.keys[j])
    && (forall k :: k in m.values <==> k in m.keys)
  }

  function Empty<V>(): (m: OrderedMap<V>)
    ensures Valid(m)
  {
    OrderedMap([], map[])
  }

  /** `map.get(k)`. */
  function Get<V>(m: OrderedMap<V>, k: string): Option<V> {
    if k in m.values then Some(m.values[k]) else None
  }

  /** `map.set(k, v)`: the key keeps its place if present and is appended otherwise. */
  function Put<V>(m: OrderedMap<V>, k: string, v: V): (r: OrderedMap<V>)
    ensures Valid(m) ==> Valid(r)
    ensures Get(r, k) == Some(v)
    ensures forall k' :: k' != k ==> Get(r, k') == Get(m, k')
    ensures r.keys == if k in m.values then m.keys else m.keys + [k]
  {
    OrderedMap(if k in m.values then m.keys else m.keys + [k], m.values[k := v])
  }

  /** `map.entries()`: the pairs in iteration order. */
  function Entries<V>(m: OrderedMap<V>): seq<(string, V)> {
    EntriesOf(m.keys, m.values)
  }

  function EntriesOf<V>(keys: seq<string>, values: map<string, V>): seq<(string, V)> {
    if keys == [] then []
    else (if keys[0] in values then [(keys[0], values[keys[0]])] else []) + EntriesOf(keys[1..], values)
  }

  /** For a well-formed map the entries are its keys in order, each with its value. */
  lemma EntriesInOrder<V>(m: OrderedMap<V>)
    requires Valid(m)
    ensures |Entries(m)| == |m.keys|
    ensures forall i :: 0 <= i < |m.keys| ==> Entries(m)[i] == (m.keys[i], m.values[m.keys[i]])
  {
    EntriesOfAll(m.keys, m.values);
  }

  lemma {:induction false} EntriesOfAll<V>(keys: seq<string>, values: map<string, V>)
    requires forall k :: k in keys ==> k in values
    ensures |EntriesOf(keys, values)| == |keys|
    ensures forall i :: 0 <= i < |keys| ==> EntriesOf(keys, values)[i] == (keys[i], values[keys[i]])
  {
    if keys != [] {
      EntriesOfAll(keys[1..], values);
    }
  }

  /** Every entry is a stored key with its value. */
  lemma {:induction false} EntriesOfMembers<V>(keys: seq<string>, values: map<string, V>)
    ensures forall i :: 0 <= i < |EntriesOf(keys, values)| ==>
      EntriesOf(keys, values)[i].0 in values && EntriesOf(keys, values)[i].1 == values[EntriesOf(keys, values)[i].0]
  {
    if keys != [] {
      EntriesOfMembers(keys[1..], values);
    }
  }

  /** `{...a, ...b}`: `b`'s entries set over `a`. */
  function Merge<V>(a: OrderedMap<V>, b: OrderedMap<V>): OrderedMap<V> {
    PutAll(a, Entries(b))
  }

  /** The value the last pair with key `k` carries, if any pair carries `k`. */
  function LastValue<V>(kvs: seq<(string, V)>, k: string): Option<V> {
    if kvs == [] then None
    else if kvs[|kvs| - 1].0 == k then Some(kvs[|kvs| - 1].1)
    else LastValue(kvs[..|kvs| - 1], k)
  }

  /** Setting every pair of `kvs` in turn, as a loop of `set` calls does. */
  function PutAll<V>(m: OrderedMap<V>, kvs: seq<(string, V)>): OrderedMap<V> {
    if kvs == [] then m else Put(PutAll(m, kvs[..|kvs| - 1]), kvs[|kvs| - 1].0, kvs[|kvs| - 1].1)
  }

  /** After a run of `set` calls a key holds the value set last, or what it held before. */
  lemma {:induction false} GetPutAll<V>(m: OrderedMap<V>, kvs: seq<(string, V)>, k: string)
    ensures Get(PutAll(m, kvs), k) == match LastValue(kvs, k) case Some(v) => Some(v) case None => Get(m, k)
  {
    if kvs != [] {
      GetPutAll(m, kvs[..|kvs| - 1], k);
    }
  }

  /** The last entry for `k` carries what the map holds for `k`. */
  lemma {:induction false} LastValueEntriesOf<V>(keys: seq<string>, values: map<string, V>, k: string)
    ensures LastValue(EntriesOf(keys, values), k) == if k in keys && k in values then Some(values[k]) else None
  {
    if keys != [] {
      var rest := keys[1..];
      LastValueEntriesOf(rest, values, k);
      var head := if keys[0] in values then [(keys[0], values[keys[0]])] else [];
      assert EntriesOf(keys, values) == head + EntriesOf(rest, values);
      LastValueAppend(head, EntriesOf(rest, values), k);
      assert k in keys <==> k == keys[0] || k in rest by {
        assert keys == [keys[0]] + rest;
      }
      if head != [] {
        assert head[..0] == [];
      }
    }
  }

  lemma {:induction false} LastValueAppend<V>(a: seq<(string, V)>, b: seq<(string, V)>, k: string)
    ensures LastValue(a + b, k) == if LastValue(b, k).Some? then LastValue(b, k) else LastValue(a, k)
    decreases |b|
  {
    if b == [] {
      assert a + b == a;
    } else {
      assert (a + b)[..|a + b| - 1] == a + b[..|b| - 1];
      LastValueAppend(a, b[..|b| - 1], k);
    }
  }

  /** Spreading `b` over `a` gives each key `b`'s value where `b` has one and
      `a`'s otherwise. */
  lemma GetMerge<V>(a: OrderedMap<V>, b: OrderedMap<V>, k: string)
    requires Valid(b)
    ensures Get(Merge(a, b), k) == if k in b.values then Some(b.values[k]) else Get(a, k)
  {
    GetPutAll(a, Entries(b), k);
    LastValueEntriesOf(b.keys, b.values, k);
  }

  /** A run of `set` calls keeps a map well formed. */
  lemma {:induction false} PutAllValid<V>(m: OrderedMap<V>, kvs: seq<(string, V)>)
    requires Valid(m)
    ensures Valid(PutAll(m, kvs))
  {
    if kvs != [] {
      PutAllValid(m, kvs[..|kvs| - 1]);
    }
  }

  /** A mutable JavaScript `Map`. */
  class InsertionMap<V> {
    var contents: OrderedMap<V>

    constructor ()
      ensures contents == Empty()
    {
      contents := Empty();
    }

    function Lookup(k: string): Option<V>
      reads this
    {
      Get(contents, k)
    }

    /** `map.set(k, v)`. */
    method Set(k: string, v: V)
      modifies this
      ensures contents == Put(old(contents), k, v)
    {
      contents := Put(contents, k, v);
    }
  }

  /** Returns the value stored under `k`, storing `mkDefault()` first when there is none. */
  method MapSetDefault<V>(m: InsertionMap<V>, k: string, mkDefault: () -> V) returns (item: V)
    modifies m
    ensures old(m.Lookup(k)).Some? ==> item == old(m.Lookup(k)).value && m.contents == old(m.contents)
    ensures old(m.Lookup(k)).None? ==> item == mkDefault() && m.contents == Put(old(m.contents), k, item)
    ensures old(m.Lookup(k)).None? ==> m.contents.keys == old(m.contents.keys) + [k]
    ensures m.Lookup(k) == Some(item)
  {
    var existingItem := m.Lookup(k);
    if existingItem.Some? {
      item := existingItem.value;
    } else {
      item := mkDefault();
      m.Set(k, item);
    }
  }
}
