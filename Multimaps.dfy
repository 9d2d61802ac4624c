/** Multimaps as sequences of (key, value) entries, and the set-valued multimap
    that `fromFiles` fills (Guava's `hashKeys().linkedHashSetValues()`): every key
    maps to its values in insertion order, each value at most once per key. */
module Multimaps {

  /** No element occurs twice. */
  predicate NoDup<T(==,!new)>(s: seq<T>)
  {
    forall i, j :: 0 <= i < j < |s| ==> s[i] != s[j]
  }

  /** The first occurrence of every element, in order. */
  function Dedup<T(==,!new)>(s: seq<T>): (r: seq<T>)
    ensures NoDup(r)
    ensures forall x :: x in r <==> x in s
    ensures |r| <= |s|
  {
    if s == [] then []
    else
      var init := s[..|s| - 1];
      var d := Dedup(init);
      if s[|s| - 1] in init then d else d + [s[|s| - 1]]
  }

  /** Removing duplicates from a sequence that has none changes nothing. */
  lemma {:induction false} DedupOfNoDup<T(!new)>(s: seq<T>)
    requires NoDup(s)
    ensures Dedup(s) == s
  {
    if s != [] {
      var init := s[..|s| - 1];
      assert NoDup(init);
      DedupOfNoDup(init);
      assert s[|s| - 1] !in init by {
        forall i | 0 <= i < |init| ensures init[i] != s[|s| - 1] { assert init[i] == s[i]; }
      }
      assert init + [s[|s| - 1]] == s;
    }
  }

  /** Removing duplicates after appending one element: it is kept exactly when new. */
  lemma DedupSnoc<T(!new)>(s: seq<T>, x: T)
    ensures Dedup(s + [x]) == if x in s then Dedup(s) else Dedup(s) + [x]
  {
    assert (s + [x])[..|s|] == s;
  }

  /** The values stored under key `k`, in entry order. */
  function Values<K(==,!new), V(==,!new)>(s: seq<(K, V)>, k: K): (r: seq<V>)
    ensures |r| <= |s|
  {
    if s == [] then []
    else (if s[0].0 == k then [s[0].1] else []) + Values(s[1..], k)
  }

  /** A value is stored under `k` exactly when the entry (k, v) is present. */
  lemma {:induction false} ValuesMember<K(!new), V(!new)>(s: seq<(K, V)>, k: K, v: V)
    ensures v in Values(s, k) <==> (k, v) in s
  {
    if s != [] {
      ValuesMember(s[1..], k, v);
      assert (k, v) in s <==> s[0] == (k, v) || (k, v) in s[1..];
    }
  }

  /** A key with no entry has no values. */
  lemma ValuesOfAbsentKey<K(!new), V(!new)>(s: seq<(K, V)>, k: K)
    requires k !in KeysOf(s)
    ensures Values(s, k) == []
  {
    if Values(s, k) != [] {
      ValuesMember(s, k, Values(s, k)[0]);
    }
  }

  /** Values distribute over concatenation of entry sequences. */
  lemma {:induction false} ValuesAppend<K(!new), V(!new)>(s: seq<(K, V)>, u: seq<(K, V)>, k: K)
    ensures Values(s + u, k) == Values(s, k) + Values(u, k)
  {
    if s != [] {
      assert (s + u)[0] == s[0];
      assert (s + u)[1..] == s[1..] + u;
      ValuesAppend(s[1..], u, k);
    } else {
      assert s + u == u;
    }
  }

  /** Appending one entry adds its value to its own key's values only. */
  lemma ValuesSnoc<K(!new), V(!new)>(s: seq<(K, V)>, k: K, v: V, k': K)
    ensures Values(s + [(k, v)], k') == Values(s, k') + (if k' == k then [v] else [])
  {
    ValuesAppend(s, [(k, v)], k');
    assert Values([(k, v)], k') == (if k' == k then [v] else []) + Values([(k, v)][1..], k');
  }

  /** Every key that occurs in some entry. */
  function KeysOf<K(==,!new), V(==,!new)>(s: seq<(K, V)>): (r: set<K>)
  {
    set e | e in s :: e.0
  }

  /** Appending one entry adds its key. */
  lemma KeysOfSnoc<K(!new), V(!new)>(s: seq<(K, V)>, k: K, v: V)
    ensures KeysOf(s + [(k, v)]) == KeysOf(s) + {k}
  {
    assert forall e :: e in s + [(k, v)] <==> e in s || e == (k, v);
  }

  /** One entry (k, v) per value v, in order. */
  function Pairs<K(==,!new), V(==,!new)>(k: K, vs: seq<V>): (r: seq<(K, V)>)
    ensures |r| == |vs|
    ensures forall i :: 0 <= i < |r| ==> r[i] == (k, vs[i])
  {
    seq(|vs|, i requires 0 <= i < |vs| => (k, vs[i]))
  }

  /** Under its own key, a run of pairs yields its values; under any other key, nothing. */
  lemma {:induction false} ValuesPairs<K(!new), V(!new)>(k: K, vs: seq<V>, k': K)
    ensures Values(Pairs(k, vs), k') == if k' == k then vs else []
  {
    if vs != [] {
      var p := Pairs(k, vs);
      assert p[1..] == Pairs(k, vs[1..]);
      ValuesPairs(k, vs[1..], k');
      assert [vs[0]] + vs[1..] == vs;
    }
  }

  /** The entries of a multimap whose keys, in iteration order, are `ks`:
      each key's values as one contiguous run. */
  function Flat<K(==,!new), V(==,!new)>(ks: seq<K>, vals: map<K, seq<V>>): (r: seq<(K, V)>)
    requires forall k :: k in ks ==> k in vals
  {
    if ks == [] then []
    else Flat(ks[..|ks| - 1], vals) + Pairs(ks[|ks| - 1], vals[ks[|ks| - 1]])
  }

  /** Reading a key back from the flattened entries gives exactly its stored values. */
  lemma {:induction false} ValuesFlat<K(!new), V(!new)>(ks: seq<K>, vals: map<K, seq<V>>, k: K)
    requires NoDup(ks)
    requires forall k :: k in ks ==> k in vals
    ensures Values(Flat(ks, vals), k) == if k in ks then vals[k] else []
  {
    if ks != [] {
      var init, last := ks[..|ks| - 1], ks[|ks| - 1];
      assert NoDup(init);
      assert ks == init + [last];
      assert last !in init by {
        forall i | 0 <= i < |init| ensures init[i] != last { assert init[i] == ks[i]; }
      }
      ValuesAppend(Flat(init, vals), Pairs(last, vals[last]), k);
      ValuesFlat(init, vals, k);
      ValuesPairs(last, vals[last], k);
    }
  }

  /** An entry sequence in which no key holds a value twice has no duplicate entry. */
  lemma {:induction false} NoDupByKey<K(!new), V(!new)>(s: seq<(K, V)>)
    requires forall k :: NoDup(Values(s, k))
    ensures NoDup(s)
  {
    if s != [] {
      var k := s[0].0;
      assert Values(s, k) == [s[0].1] + Values(s[1..], k);
      assert forall k' :: NoDup(Values(s[1..], k')) by {
        forall k' ensures NoDup(Values(s[1..], k')) {
          var w := Values(s, k');
          if k' == k {
            assert Values(s[1..], k') == w[1..];
            forall i, j | 0 <= i < j < |w[1..]| ensures w[1..][i] != w[1..][j] {
              assert w[1..][i] == w[i + 1] && w[1..][j] == w[j + 1];
            }
          } else {
            assert Values(s[1..], k') == w;
          }
        }
      }
      NoDupByKey(s[1..]);
      assert s[0] !in s[1..] by {
        var w, tail := Values(s, k), Values(s[1..], k);
        assert forall j :: 0 <= j < |tail| ==> tail[j] == w[j + 1] != w[0];
        assert s[0].1 !in tail;
        ValuesMember(s[1..], k, s[0].1);
      }
      forall i, j | 0 <= i < j < |s| ensures s[i] != s[j] {
        assert s[j] == s[1..][j - 1];
        if i > 0 { assert s[i] == s[1..][i - 1]; }
      }
    }
  }

  /** A set-valued multimap with keys in iteration order and, per key, its values
      in insertion order. */
  datatype SetMultimap<K(==,!new), V(==,!new)> = SetMultimap(keys: seq<K>, vals: map<K, seq<V>>)
  {
    /** Keys listed once each and exactly the stored ones; no value twice under one key. */
    ghost predicate Valid()
    {
      && NoDup(keys)
      && (forall k :: k in keys <==> k in vals)
      && (forall k :: k in vals ==> NoDup(vals[k]))
    }

    /** The values under `k`; none for a key never put. */
    function Get(k: K): (r: seq<V>)
    {
      if k in vals then vals[k] else []
    }

    /** Adds `v` under `k` unless that pair is already present (set semantics). */
    function Put(k: K, v: V): (r: SetMultimap<K, V>)
      requires Valid()
      ensures r.Valid()
      ensures forall k' :: k' in r.keys <==> k' in keys || k' == k
      ensures forall k' :: r.Get(k') == if k' == k && v !in Get(k) then Get(k) + [v] else Get(k')
    {
      if k !in vals then
        assert forall i :: 0 <= i < |keys| ==> keys[i] != k;
        SetMultimap(keys + [k], vals[k := [v]])
      else if v in vals[k] then this
      else
        assert forall i :: 0 <= i < |vals[k]| ==> vals[k][i] != v;
        SetMultimap(keys, vals[k := vals[k] + [v]])
    }

    /** All entries, key by key; what a `putAll` of this multimap hands over. */
    function Entries(): (r: seq<(K, V)>)
      requires Valid()
      ensures NoDup(r)
      ensures forall k :: Values(r, k) == Get(k)
    {
      forall k ensures Values(Flat(keys, vals), k) == Get(k) { ValuesFlat(keys, vals, k); }
      NoDupByKey(Flat(keys, vals));
      Flat(keys, vals)
    }
  }

  /** The empty multimap. */
  function Empty<K(==,!new), V(==,!new)>(): (r: SetMultimap<K, V>)
    ensures r.Valid()
    ensures forall k :: r.Get(k) == []
  {
    SetMultimap([], map[])
  }
}
