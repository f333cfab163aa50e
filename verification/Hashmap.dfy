/** The hash map of avahi-core/hashmap.c: buckets of entries and one list of them all, which together
    stand for a finite map on the classes of keys that the equality function makes. */
module Hashmap {
  import opened Utf8
  import opened Domain
  import opened Rr
  import opened Lists

  const HASH_MAP_SIZE := 123

  class Entry<K, V> {
    var key: K
    var value: V

    constructor (key: K, value: V)
      ensures this.key == key && this.value == value
    {
      this.key, this.value := key, value;
    }
  }

  /** The equality of keys is that of what they stand for, and equal keys have equal hashes. */
  ghost predicate Congruent<K(!new), C(!new)>(hash: K -> nat, equal: (K, K) -> bool, canon: K -> C) {
    forall a, b :: Agree(hash, equal, canon, a, b)
  }

  ghost predicate Agree<K, C>(hash: K -> nat, equal: (K, K) -> bool, canon: K -> C, a: K, b: K) {
    (equal(a, b) <==> canon(a) == canon(b)) && (canon(a) == canon(b) ==> hash(a) == hash(b))
  }

  class Hashmap<K(!new), V, C(!new)> {
    const hash: K -> nat
    const equal: (K, K) -> bool
    ghost const canon: K -> C
    const buckets: array<seq<Entry<K, V>>>
    /** All entries, the newest first. */
    var entries: seq<Entry<K, V>>
    /** What was given to the functions that free keys and values. */
    var freedKeys: seq<K>
    var freedValues: seq<V>

    function Index(key: K): nat {
      hash(key) % HASH_MAP_SIZE
    }

    /** The entry is in the bucket of its key, and there only. */
    ghost predicate Bucketed(i: nat, e: Entry<K, V>)
      reads this`entries, buckets, e`key
      requires i < buckets.Length
    {
      e in buckets[i] <==> e in entries && Index(e.key) == i
    }

    ghost predicate Listed()
      reads this`entries, buckets
    {
      && buckets.Length == HASH_MAP_SIZE && NoDuplicates(entries)
      && (forall i :: 0 <= i < HASH_MAP_SIZE ==> NoDuplicates(buckets[i]))
      && (forall i, e :: 0 <= i < HASH_MAP_SIZE && e in buckets[i] ==> e in entries)
    }

    /** No two entries have keys that are equal. */
    ghost predicate Distinct(list: seq<Entry<K, V>>)
      reads list
    {
      forall a, b | a in list && b in list && canon(a.key) == canon(b.key) :: a == b
    }

    ghost function Mapping(list: seq<Entry<K, V>>): map<C, V>
      reads list
      requires Distinct(list)
    {
      map e | e in list :: canon(e.key) := e.value
    }

    lemma MappingPrepend(e: Entry<K, V>, list: seq<Entry<K, V>>)
      requires Distinct(list) && canon(e.key) !in Mapping(list)
      ensures Distinct([e] + list) && Mapping([e] + list) == Mapping(list)[canon(e.key) := e.value]
    {
      forall h | h in list
        ensures canon(h.key) in Mapping(list)
      {
      }
      forall c
        ensures c in Mapping([e] + list) <==> c == canon(e.key) || c in Mapping(list)
      {
        if c in Mapping(list) {
          var h :| h in list && canon(h.key) == c;
          assert h in [e] + list;
        }
        assert e in [e] + list;
      }
    }

    lemma MappingWithout(e: Entry<K, V>, list: seq<Entry<K, V>>)
      requires Distinct(list) && e in list
      ensures Distinct(Without(list, e)) && Mapping(Without(list, e)) == Mapping(list) - {canon(e.key)}
    {
      forall h | h in list && h != e
        ensures h in Without(list, e)
      {
      }
    }

    ghost predicate Valid()
      reads this`entries, buckets, entries
    {
      && Congruent(hash, equal, canon) && Listed() && Distinct(entries)
      && forall i, e :: 0 <= i < HASH_MAP_SIZE && e in entries ==> Bucketed(i, e)
    }

    /** The finite map that the table stands for. */
    ghost function Model(): map<C, V>
      reads this`entries, buckets, entries
      requires Valid()
    {
      Mapping(entries)
    }

    lemma InModel(e: Entry<K, V>)
      requires Valid() && e in entries
      ensures canon(e.key) in Model() && Model()[canon(e.key)] == e.value
    {
    }

    constructor (hash: K -> nat, equal: (K, K) -> bool, ghost canon: K -> C)
      requires Congruent(hash, equal, canon)
      ensures Valid() && fresh(buckets) && Model() == map[] && entries == [] && freedKeys == [] && freedValues == []
      ensures this.hash == hash && this.equal == equal && this.canon == canon
    {
      this.hash, this.equal, this.canon := hash, equal, canon;
      entries, freedKeys, freedValues := [], [], [];
      buckets := new seq<Entry<K, V>>[HASH_MAP_SIZE](_ => []);
    }

    /** entry_get: only the bucket of the key is searched. */
    method EntryGet(key: K) returns (found: Option<Entry<K, V>>)
      requires Valid()
      ensures found.Some? ==> found.value in entries && canon(found.value.key) == canon(key)
      ensures found.None? ==> canon(key) !in Model()
    {
      var bucket := buckets[Index(key)];
      for n := 0 to |bucket|
        invariant forall m :: 0 <= m < n ==> canon(bucket[m].key) != canon(key)
      {
        assert Agree(hash, equal, canon, key, bucket[n].key);
        if equal(key, bucket[n].key) {
          return Some(bucket[n]);
        }
      }
      found := None;
      forall e | e in entries
        ensures canon(e.key) != canon(key)
      {
        assert Bucketed(Index(key), e) && Agree(hash, equal, canon, e.key, key);
      }
    }

    /** avahi_hashmap_lookup */
    method Lookup(key: K) returns (value: Option<V>)
      requires Valid()
      ensures value == if canon(key) in Model() then Some(Model()[canon(key)]) else None
    {
      var e := EntryGet(key);
      if e.None? {
        return None;
      }
      InModel(e.value);
      value := Some(e.value.value);
    }

    /** An entry that is in neither list goes to the front of both. */
    method Prepend(e: Entry<K, V>)
      requires Valid() && e !in entries && canon(e.key) !in Model()
      modifies this`entries, buckets
      ensures Valid() && entries == [e] + old(entries) && Model() == old(Model())[canon(e.key) := e.value]
    {
      hide Distinct, Mapping, Congruent;
      var idx := Index(e.key);
      NoDuplicatesPrepend(e, entries);
      NoDuplicatesPrepend(e, buckets[idx]);
      MappingPrepend(e, entries);
      entries := [e] + entries;
      buckets[idx] := [e] + buckets[idx];
      forall i, h | 0 <= i < HASH_MAP_SIZE && h in entries
        ensures Bucketed(i, h)
      {
        assert h != e ==> old(Bucketed(i, h));
      }
    }

    /** avahi_hashmap_insert: the entry that is there stays, and what was to be inserted is freed. */
    method Insert(key: K, value: V) returns (there: bool)
      requires Valid()
      modifies this, buckets
      ensures Valid() && there == (canon(key) in old(Model()))
      ensures there ==> entries == old(entries) && Model() == old(Model())
      ensures there ==> freedKeys == old(freedKeys) + [key] && freedValues == old(freedValues) + [value]
      ensures !there ==>
                Model() == old(Model())[canon(key) := value] && freedKeys == old(freedKeys)
                  && freedValues == old(freedValues)
      ensures !there ==> entries != [] && fresh(entries[0]) && entries[0].key == key && entries[1..] == old(entries)
    {
      hide Listed, Distinct, Congruent, Bucketed, Mapping;
      var e := EntryGet(key);
      if e.Some? {
        InModel(e.value);
        freedKeys, freedValues := freedKeys + [key], freedValues + [value];
        return true;
      }
      var n := new Entry(key, value);
      Prepend(n);
      there := false;
    }

    /** avahi_hashmap_replace: the new key and value take the place of the old ones, which are freed. */
    method Replace(key: K, value: V) returns (there: bool)
      requires Valid()
      modifies this, buckets, entries
      ensures Valid() && there == (canon(key) in old(Model())) && Model() == old(Model())[canon(key) := value]
      ensures there ==> entries == old(entries)
      ensures there ==> exists e :: e in entries && e.key == key && freedKeys == old(freedKeys) + [old(e.key)]
                                    && freedValues == old(freedValues) + [old(e.value)]
      ensures !there ==> freedKeys == old(freedKeys) && freedValues == old(freedValues)
      ensures !there ==> entries != [] && fresh(entries[0]) && entries[0].key == key && entries[1..] == old(entries)
    {
      hide Listed, Distinct, Congruent, Bucketed, Mapping;
      var e := EntryGet(key);
      if e.Some? {
        InModel(e.value);
        freedKeys, freedValues := freedKeys + [e.value.key], freedValues + [e.value.value];
        Overwrite(e.value, key, value);
        return true;
      }
      var n := new Entry(key, value);
      Prepend(n);
      there := false;
    }

    method Overwrite(e: Entry<K, V>, key: K, value: V)
      requires Valid() && e in entries && canon(e.key) == canon(key)
      modifies e
      ensures Valid() && e.key == key && Model() == old(Model())[canon(key) := value]
    {
      hide Congruent;
      SameIndex(e.key, key);
      e.key := key;
      e.value := value;
      forall i, h | 0 <= i < HASH_MAP_SIZE && h in entries
        ensures Bucketed(i, h)
      {
        assert old(Bucketed(i, h));
      }
    }

    lemma SameIndex(a: K, b: K)
      requires Congruent(hash, equal, canon) && canon(a) == canon(b)
      ensures Index(a) == Index(b)
    {
      assert Agree(hash, equal, canon, a, b);
    }

    lemma OnceInList()
      requires Valid()
      ensures NoDuplicates(entries) && (entries == [] ==> Model() == map[])
    {
    }

    /** entry_free */
    method EntryFree(e: Entry<K, V>)
      requires Valid() && e in entries
      modifies this, buckets
      ensures Valid() && entries == Without(old(entries), e) && |entries| == |old(entries)| - 1
      ensures Model() == old(Model()) - {canon(e.key)}
      ensures freedKeys == old(freedKeys) + [e.key] && freedValues == old(freedValues) + [e.value]
    {
      hide Distinct, Mapping, Congruent;
      var idx := Index(e.key);
      NoDuplicatesWithout(entries, e);
      NoDuplicatesWithout(buckets[idx], e);
      MappingWithout(e, entries);
      buckets[idx] := Without(buckets[idx], e);
      entries := Without(entries, e);
      freedKeys, freedValues := freedKeys + [e.key], freedValues + [e.value];
      forall i, h | 0 <= i < HASH_MAP_SIZE && h in entries
        ensures Bucketed(i, h)
      {
        assert old(Bucketed(i, h));
      }
      forall i, h | 0 <= i < HASH_MAP_SIZE && h in buckets[i]
        ensures h in entries
      {
        assert h in old(buckets[i]) && old(Bucketed(i, e));
        WithoutHolds(old(buckets[idx]), e);
        WithoutHolds(old(entries), e);
      }
    }

    /** avahi_hashmap_remove */
    method Remove(key: K)
      requires Valid()
      modifies this, buckets
      ensures Valid() && Model() == old(Model()) - {canon(key)}
      ensures if canon(key) in old(Model()) then
                exists e :: && e in old(entries) && canon(e.key) == canon(key) && entries == Without(old(entries), e)
                            && freedKeys == old(freedKeys) + [e.key] && freedValues == old(freedValues) + [e.value]
              else entries == old(entries) && freedKeys == old(freedKeys) && freedValues == old(freedValues)
    {
      hide Valid, Model;
      var e := EntryGet(key);
      if e.Some? {
        InModel(e.value);
        EntryFree(e.value);
      }
    }

    /** avahi_hashmap_free: every key and value that is held is freed, once. */
    method Free()
      requires Valid()
      modifies this, buckets
      ensures Valid() && entries == [] && Model() == map[]
      ensures |freedKeys| == |old(freedKeys)| + |old(entries)| && old(freedKeys) <= freedKeys
      ensures forall i :: 0 <= i < |old(entries)| ==> freedKeys[|old(freedKeys)| + i] == old(entries)[i].key
      ensures |freedValues| == |old(freedValues)| + |old(entries)| && old(freedValues) <= freedValues
      ensures forall i :: 0 <= i < |old(entries)| ==> freedValues[|old(freedValues)| + i] == old(entries)[i].value
    {
      hide Valid, NoDuplicates, Model;
      ghost var all, first, firstValue, n := entries, |freedKeys|, |freedValues|, 0;
      while entries != []
        invariant Valid() && n <= |all| && entries == all[n..] && |freedKeys| == first + n
                  && old(freedKeys) <= freedKeys
        invariant forall i :: 0 <= i < n ==> freedKeys[first + i] == all[i].key
        invariant |freedValues| == firstValue + n && old(freedValues) <= freedValues
        invariant forall i :: 0 <= i < n ==> freedValues[firstValue + i] == all[i].value
        decreases |entries|
      {
        OnceInList();
        FirstWithout(entries);
        EntryFree(entries[0]);
        n := n + 1;
      }
      OnceInList();
    }

    /** avahi_hashmap_foreach, with a callback that may remove the entry it is called for: every entry is
        visited once, newest first. */
    method Foreach(drop: (K, V) -> bool) returns (visited: seq<(K, V)>)
      requires Valid()
      modifies this, buckets
      ensures Valid() && |visited| == |old(entries)|
      ensures forall i :: 0 <= i < |visited| ==> visited[i] == (old(entries)[i].key, old(entries)[i].value)
      ensures forall e :: e in entries <==> e in old(entries) && !drop(e.key, e.value)
    {
      hide Valid, NoDuplicates, Model;
      OnceInList();
      var list := entries;
      visited := [];
      for n := 0 to |list|
        invariant Valid() && |visited| == n
        invariant forall i :: 0 <= i < n ==> visited[i] == (list[i].key, list[i].value)
        invariant forall e :: e in entries <==> e in list[n..] || (e in list[..n] && !drop(e.key, e.value))
      {
        var e := list[n];
        visited := visited + [(e.key, e.value)];
        Passed(list, n);
        if drop(e.key, e.value) {
          WithoutHolds(entries, e);
          EntryFree(e);
        }
      }
    }

    lemma Passed(list: seq<Entry<K, V>>, n: nat)
      requires NoDuplicates(list) && n < |list|
      ensures list[n] !in list[..n] && list[n] !in list[n + 1..]
      ensures list[n..] == [list[n]] + list[n + 1..] && list[..n + 1] == list[..n] + [list[n]]
    {
      forall i | 0 <= i < |list| && i != n
        ensures list[i] != list[n]
      {
        assert Apart(list, i, n);
      }
    }
  }

  // ---------------------------------------------------------------- the tables of the responder

  type ProperKey = k: Key | KeyWellFormed(k) witness Key([], 0, 0)

  /** avahi_key_equal and avahi_key_hash can be used for a table, whatever the spelling of the keys. */
  lemma KeysCongruent()
    ensures Congruent((k: ProperKey) => HashOf(ClassOf(k)), (a: ProperKey, b: ProperKey) => ClassOf(a) == ClassOf(b),
            (k: ProperKey) => ClassOf(k))
  {
  }

  /** Texts are equal to themselves only. */
  lemma TextsCongruent(hash: Text -> nat)
    ensures Congruent(hash, (a: Text, b: Text) => a == b, (t: Text) => t)
  {
  }
}
