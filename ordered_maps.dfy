/**
 * Insertion-ordered maps as `java.util.LinkedHashMap` keeps them: a key keeps the position of
 * its first insertion, a later `put` of the same key replaces only the value, and `remove`
 * closes the gap. A map's abstract value is its entry sequence in iteration order.
 */
module OrderedMaps {
  import opened Options

  /** The keys of a list of entries, in order. */
  function KeysOf<K, V>(es: seq<(K, V)>): seq<K> {
    seq(|es|, i requires 0 <= i < |es| => es[i].0)
  }

  /** The keys after one more entry. */
  lemma KeysOfSnoc<K, V>(es: seq<(K, V)>, e: (K, V))
    ensures KeysOf(es + [e]) == KeysOf(es) + [e.0]
  {
  }

  /** No key occurs twice: what every map's entry sequence satisfies. */
  predicate DistinctKeys<K(==), V>(es: seq<(K, V)>) {
    forall i, j :: 0 <= i < j < |es| ==> es[i].0 != es[j].0
  }

  /** `get`: the value of the first entry with key `k`, `None` (Java's null) when there is none. */
  function Lookup<K(==), V>(es: seq<(K, V)>, k: K): (r: Option<V>)
    ensures r.Some? <==> k in KeysOf(es)
    ensures r.Some? ==> (k, r.value) in es
  {
    if es == [] then None
    else
      assert KeysOf(es) == [es[0].0] + KeysOf(es[1..]);
      if es[0].0 == k then Some(es[0].1) else Lookup(es[1..], k)
  }

  /**
   * `put(k, v)`: an entry for a key already present takes the new value where it stands;
   * a new key is appended at the end.
   */
  function PutEntry<K(==), V>(es: seq<(K, V)>, k: K, v: V): (r: seq<(K, V)>)
    ensures k in KeysOf(es) ==> |r| == |es|
    ensures k !in KeysOf(es) ==> r == es + [(k, v)]
  {
    if es == [] then [(k, v)]
    else
      assert KeysOf(es) == [es[0].0] + KeysOf(es[1..]);
      if es[0].0 == k then [(k, v)] + es[1..] else [es[0]] + PutEntry(es[1..], k, v)
  }

  /** In a map's entries, `put` changes the entry of its key, if there is one, and no other, and keeps the keys distinct. */
  lemma {:induction false} PutEntryAt<K, V>(es: seq<(K, V)>, k: K, v: V)
    requires DistinctKeys(es)
    ensures forall i :: 0 <= i < |es| ==> PutEntry(es, k, v)[i] == if es[i].0 == k then (k, v) else es[i]
    ensures DistinctKeys(PutEntry(es, k, v))
  {
    if es != [] && es[0].0 != k {
      var rest := PutEntry(es[1..], k, v);
      var r := [es[0]] + rest;
      assert DistinctKeys(es[1..]) by {
        forall a, b | 0 <= a < b < |es[1..]| ensures es[1..][a].0 != es[1..][b].0 {
          assert es[1..][a] == es[a + 1] && es[1..][b] == es[b + 1];
        }
      }
      PutEntryAt(es[1..], k, v);
      assert PutEntry(es, k, v) == r;
      forall i | 0 < i < |es| ensures r[i] == if es[i].0 == k then (k, v) else es[i] {
        assert es[1..][i - 1] == es[i];
      }
      forall j | 0 < j < |r| ensures r[0].0 != r[j].0 {
        if j < |es| {
          assert es[1..][j - 1] == es[j];
        } else {
          assert KeysOf(es) == [es[0].0] + KeysOf(es[1..]);
          assert rest == es[1..] + [(k, v)];
        }
      }
    } else if es != [] {
      var r := PutEntry(es, k, v);
      assert forall i :: 0 < i < |es| ==> r[i] == es[i];
    }
  }

  /** `remove(k)`: the entry with key `k`, if any, leaves; the others keep their order. */
  function RemoveEntry<K(==), V>(es: seq<(K, V)>, k: K): (r: seq<(K, V)>)
    ensures k !in KeysOf(r)
    ensures k !in KeysOf(es) ==> r == es
  {
    if es == [] then []
    else
      assert KeysOf(es) == [es[0].0] + KeysOf(es[1..]);
      var rest := RemoveEntry(es[1..], k);
      var r := if es[0].0 == k then rest else [es[0]] + rest;
      assert es[0].0 != k ==> KeysOf(r) == [es[0].0] + KeysOf(rest);
      r
  }

  /** The entries of a map built by putting `obs` in order into a map whose entries are `es`. */
  function PutEntries<K(==), V>(es: seq<(K, V)>, obs: seq<(K, V)>): seq<(K, V)> {
    if obs == [] then es
    else
      var last := obs[|obs| - 1];
      PutEntry(PutEntries(es, obs[..|obs| - 1]), last.0, last.1)
  }

  /** The elements of `s` in the order of their first occurrence, each once. */
  function FirstOccurrences<T(==)>(s: seq<T>): (r: seq<T>)
    ensures forall x :: x in r ==> x in s
    ensures forall x :: x in s ==> x in r
  {
    if s == [] then []
    else
      var init, last := s[..|s| - 1], s[|s| - 1];
      assert s == init + [last];
      if last in init then FirstOccurrences(init) else FirstOccurrences(init) + [last]
  }

  /** The value of the last pair with key `k`. */
  function LastValue<K(==), V>(obs: seq<(K, V)>, k: K): Option<V> {
    if obs == [] then None
    else if obs[|obs| - 1].0 == k then Some(obs[|obs| - 1].1)
    else LastValue(obs[..|obs| - 1], k)
  }

  /** Putting one more pair. */
  lemma PutEntriesSnoc<K, V>(es: seq<(K, V)>, obs: seq<(K, V)>, k: K, v: V)
    ensures PutEntries(es, obs + [(k, v)]) == PutEntry(PutEntries(es, obs), k, v)
  {
    assert (obs + [(k, v)])[..|obs|] == obs;
  }

  /** A second `put` of a key changes the value seen for that key and no other. */
  lemma {:induction false} PutThenLookup<K, V>(es: seq<(K, V)>, k: K, v: V, other: K)
    ensures Lookup(PutEntry(es, k, v), other) == if other == k then Some(v) else Lookup(es, other)
  {
    if es != [] && es[0].0 != k {
      PutThenLookup(es[1..], k, v, other);
      assert PutEntry(es, k, v)[1..] == PutEntry(es[1..], k, v);
    }
  }

  /** `put` appends a new key to the key order and leaves the order alone for a key already present. */
  lemma {:induction false} PutKeys<K, V>(es: seq<(K, V)>, k: K, v: V)
    ensures KeysOf(PutEntry(es, k, v)) == if k in KeysOf(es) then KeysOf(es) else KeysOf(es) + [k]
  {
    if es != [] {
      assert KeysOf(es) == [es[0].0] + KeysOf(es[1..]);
      if es[0].0 != k {
        PutKeys(es[1..], k, v);
        var r := PutEntry(es, k, v);
        assert r == [es[0]] + PutEntry(es[1..], k, v);
        assert KeysOf(r) == [es[0].0] + KeysOf(PutEntry(es[1..], k, v));
      }
    }
  }

  /**
   * Putting a sequence of pairs into an empty map keeps each key at the position of its first
   * occurrence: the key order is the keys of the pairs with repeats dropped.
   */
  lemma {:induction false} PutEntriesKeyOrder<K, V>(obs: seq<(K, V)>)
    ensures KeysOf(PutEntries([], obs)) == FirstOccurrences(KeysOf(obs))
  {
    if obs != [] {
      var init, last := obs[..|obs| - 1], obs[|obs| - 1];
      PutEntriesKeyOrder(init);
      PutKeys(PutEntries([], init), last.0, last.1);
      var ks := KeysOf(obs);
      assert ks[..|ks| - 1] == KeysOf(init) && ks[|ks| - 1] == last.0;
    }
  }

  /** A key matched again takes the later value: each key maps to the value of its last pair. */
  lemma {:induction false} PutEntriesLastValue<K, V>(obs: seq<(K, V)>, k: K)
    ensures Lookup(PutEntries([], obs), k) == LastValue(obs, k)
  {
    if obs != [] {
      var init, last := obs[..|obs| - 1], obs[|obs| - 1];
      PutEntriesLastValue(init, k);
      PutThenLookup(PutEntries([], init), last.0, last.1, k);
    }
  }

  /** Pairs whose keys are all different go into the map exactly as they come. */
  lemma {:induction false} PutEntriesOfDistinct<K, V>(obs: seq<(K, V)>)
    requires DistinctKeys(obs)
    ensures PutEntries([], obs) == obs
  {
    if obs != [] {
      var init, last := obs[..|obs| - 1], obs[|obs| - 1];
      assert DistinctKeys(init);
      PutEntriesOfDistinct(init);
      assert last.0 !in KeysOf(init) by {
        forall i | 0 <= i < |init| ensures KeysOf(init)[i] != last.0 {
          assert obs[i].0 != obs[|obs| - 1].0;
        }
      }
      assert init + [last] == obs;
    }
  }

  /** Removing the key of entry `j` from a map's entries cuts exactly that entry out. */
  lemma {:induction false} RemoveEntryAt<K, V>(es: seq<(K, V)>, j: nat)
    requires DistinctKeys(es) && j < |es|
    ensures RemoveEntry(es, es[j].0) == es[..j] + es[j + 1..]
  {
    var k := es[j].0;
    if j == 0 {
      assert k !in KeysOf(es[1..]) by {
        forall i | 0 <= i < |es[1..]| ensures KeysOf(es[1..])[i] != k {
          assert es[i + 1].0 != es[0].0;
        }
      }
    } else {
      assert DistinctKeys(es[1..]) by {
        forall a, b | 0 <= a < b < |es[1..]| ensures es[1..][a].0 != es[1..][b].0 {
          assert es[1..][a] == es[a + 1] && es[1..][b] == es[b + 1];
        }
      }
      assert es[1..][j - 1] == es[j];
      RemoveEntryAt(es[1..], j - 1);
      assert es[1..][..j - 1] == es[1..j] && es[1..][j..] == es[j + 1..];
      assert es[..j] == [es[0]] + es[1..j];
    }
  }

  /** `a` is `b` with some entries left out, the others in their order. */
  predicate IsSubsequence<T(==)>(a: seq<T>, b: seq<T>) {
    if a == [] then true
    else if b == [] then false
    else (a[|a| - 1] == b[|b| - 1] && IsSubsequence(a[..|a| - 1], b[..|b| - 1])) || IsSubsequence(a, b[..|b| - 1])
  }

  /** Keeping one more element at the end of both. */
  lemma SubsequenceAppendBoth<T>(a: seq<T>, b: seq<T>, x: T)
    requires IsSubsequence(a, b)
    ensures IsSubsequence(a + [x], b + [x])
  {
    assert (a + [x])[..|a|] == a && (b + [x])[..|b|] == b;
  }

  /** Leaving out one more element at the end of the longer one. */
  lemma SubsequenceAppendRight<T>(a: seq<T>, b: seq<T>, x: T)
    requires IsSubsequence(a, b)
    ensures IsSubsequence(a, b + [x])
  {
    assert (b + [x])[..|b|] == b;
  }

  /** The entries a map with key order `keys` and key-value table `vals` iterates over. */
  function EntriesOf<K(==), V>(keys: seq<K>, vals: map<K, V>): (es: seq<(K, V)>)
    requires forall k :: k in keys ==> k in vals
  {
    seq(|keys|, i requires 0 <= i < |keys| => (keys[i], vals[keys[i]]))
  }

  /**
   * `LinkedHashMap<K, V>`: the hash table `vals` and the insertion order `keys`. The abstract
   * value `Entries()` is the entry sequence in iteration order.
   */
  class LinkedMap<K(==), V> {
    var keys: seq<K>
    var vals: map<K, V>

    ghost predicate Valid()
      reads this
    {
      Consistent(keys, vals)
    }

    ghost function Entries(): (es: seq<(K, V)>)
      reads this
      requires Valid()
      ensures DistinctKeys(es) && KeysOf(es) == keys
    {
      EntriesOf(keys, vals)
    }

    /** `new LinkedHashMap<>()`. */
    constructor ()
      ensures Valid() && Entries() == []
    {
      keys := [];
      vals := map[];
    }

    /** `put(k, v)`. */
    method Put(k: K, v: V)
      requires Valid()
      modifies this
      ensures Valid() && Entries() == PutEntry(old(Entries()), k, v)
    {
      ghost var before := Entries();
      if k !in vals {
        keys := keys + [k];
      }
      vals := vals[k := v];
      assert k in KeysOf(before) <==> old(k in vals);
      if old(k in vals) {
        PutEntryAt(before, k, v);
        forall i | 0 <= i < |before| ensures Entries()[i] == PutEntry(before, k, v)[i] {
        }
      } else {
        assert Entries() == before + [(k, v)];
      }
    }

    /** `get(k)`. */
    method Get(k: K) returns (r: Option<V>)
      requires Valid()
      ensures r == Lookup(Entries(), k)
    {
      r := if k in vals then Some(vals[k]) else None;
      ghost var es := Entries();
      if k in vals {
        var i :| 0 <= i < |keys| && keys[i] == k;
        LookupDistinct(es, i);
      }
    }

    /** `remove(k)`, as removing through an iterator over the map's values does it. */
    method Remove(k: K)
      requires Valid()
      modifies this
      ensures Valid() && Entries() == RemoveEntry(old(Entries()), k)
    {
      if k in vals {
        var j := IndexOf(k);
        ghost var before := Entries();
        RemoveEntryAt(before, j);
        EntriesWithout(keys, vals, j);
        keys := keys[..j] + keys[j + 1..];
        vals := vals - {k};
      }
    }

    /** The position of key `k` in the iteration order. */
    method IndexOf(k: K) returns (j: nat)
      requires Valid() && k in vals
      ensures j < |keys| && keys[j] == k
    {
      j := 0;
      while keys[j] != k
        invariant j < |keys| && k in keys[j..]
        decreases |keys| - j
      {
        assert keys[j..] == [keys[j]] + keys[j + 1..];
        j := j + 1;
      }
    }
  }

  /** The key order lists each key of the table once, and nothing else. */
  ghost predicate Consistent<K, V>(keys: seq<K>, vals: map<K, V>) {
    (forall i, j :: 0 <= i < j < |keys| ==> keys[i] != keys[j]) &&
    (forall k :: k in vals ==> k in keys) && (forall k :: k in keys ==> k in vals)
  }

  /** Cutting key `j` out of the key order and its value out of the table cuts entry `j` out. */
  lemma EntriesWithout<K, V>(keys: seq<K>, vals: map<K, V>, j: nat)
    requires Consistent(keys, vals) && j < |keys|
    ensures var rest := keys[..j] + keys[j + 1..];
            Consistent(rest, vals - {keys[j]}) &&
            EntriesOf(rest, vals - {keys[j]}) == EntriesOf(keys, vals)[..j] + EntriesOf(keys, vals)[j + 1..]
  {
    var rest := keys[..j] + keys[j + 1..];
    assert forall i :: 0 <= i < |rest| ==> rest[i] == if i < j then keys[i] else keys[i + 1];
    forall k | k in vals - {keys[j]} ensures k in rest {
      var i :| 0 <= i < |keys| && keys[i] == k;
      assert i != j;
      assert rest[if i < j then i else i - 1] == k;
    }
  }

  /** In a map's entries, the key of entry `i` finds the value of entry `i`. */
  lemma {:induction false} LookupDistinct<K, V>(es: seq<(K, V)>, i: nat)
    requires DistinctKeys(es) && i < |es|
    ensures Lookup(es, es[i].0) == Some(es[i].1)
  {
    if i > 0 {
      assert es[1..][i - 1] == es[i];
      assert DistinctKeys(es[1..]) by {
        forall a, b | 0 <= a < b < |es[1..]| ensures es[1..][a].0 != es[1..][b].0 {
          assert es[1..][a] == es[a + 1] && es[1..][b] == es[b + 1];
        }
      }
      LookupDistinct(es[1..], i - 1);
    }
  }
}
