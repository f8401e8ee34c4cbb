/** BTreeMap with string keys, as the sorted list of its entries. */
module BTree {
  import opened Wrappers

  datatype Entry<+V> = Entry(key: string, value: V)

  /** str's Ord: lexicographic; UTF-8 keeps code points in order. */
  predicate Less(a: string, b: string) {
    if b == [] then false
    else if a == [] then true
    else a[0] < b[0] || (a[0] == b[0] && Less(a[1..], b[1..]))
  }

  lemma {:induction false} LessTotal(a: string, b: string)
    ensures Less(a, b) || Less(b, a) || a == b
    ensures !(Less(a, b) && Less(b, a)) && (a == b ==> !Less(a, b))
  {
    if a != [] && b != [] {
      LessTotal(a[1..], b[1..]);
      assert a == [a[0]] + a[1..] && b == [b[0]] + b[1..];
    }
  }

  lemma {:induction false} LessTransitive(a: string, b: string, c: string)
    requires Less(a, b) && Less(b, c)
    ensures Less(a, c)
  {
    if a != [] && a[0] == b[0] && b[0] == c[0] {
      LessTransitive(a[1..], b[1..], c[1..]);
    }
  }

  ghost predicate AllAbove<V>(key: string, m: seq<Entry<V>>) {
    m == [] || (Less(key, m[0].key) && AllAbove(key, m[1..]))
  }

  /** Strictly ascending keys: every key is below all that follow. */
  ghost predicate Sorted<V>(m: seq<Entry<V>>) {
    m == [] || (AllAbove(m[0].key, m[1..]) && Sorted(m[1..]))
  }

  function Insert<V>(m: seq<Entry<V>>, key: string, value: V): seq<Entry<V>> {
    if m == [] then [Entry(key, value)]
    else if m[0].key == key then [Entry(key, value)] + m[1..]
    else if Less(key, m[0].key) then [Entry(key, value)] + m
    else [m[0]] + Insert(m[1..], key, value)
  }

  predicate Fresh<V>(m: seq<Entry<V>>, key: string) {
    m == [] || (m[0].key != key && Fresh(m[1..], key))
  }

  /** A new key adds exactly its own entry. */
  lemma {:induction false} InsertAdds<V>(m: seq<Entry<V>>, key: string, value: V, e: Entry<V>)
    requires Fresh(m, key)
    ensures |Insert(m, key, value)| == |m| + 1
    ensures e in Insert(m, key, value) <==> e == Entry(key, value) || e in m
  {
    if m != [] {
      assert m == [m[0]] + m[1..];
      InsertAdds(m[1..], key, value, e);
    }
  }

  lemma {:induction false} InsertFresh<V>(m: seq<Entry<V>>, key: string, value: V, other: string)
    requires Fresh(m, key) && Fresh(m, other) && key != other
    ensures Fresh(Insert(m, key, value), other)
  {
    if m == [] {
      assert [Entry(key, value)][1..] == [];
    } else {
      InsertFresh(m[1..], key, value, other);
      assert ([m[0]] + Insert(m[1..], key, value))[1..] == Insert(m[1..], key, value);
      assert ([Entry(key, value)] + m)[1..] == m;
    }
  }

  lemma {:induction false} AboveTrans<V>(key: string, mid: string, m: seq<Entry<V>>)
    requires Less(key, mid) && AllAbove(mid, m)
    ensures AllAbove(key, m)
  {
    if m != [] {
      LessTransitive(key, mid, m[0].key);
      AboveTrans(key, mid, m[1..]);
    }
  }

  lemma {:induction false} AboveInsert<V>(low: string, m: seq<Entry<V>>, key: string, value: V)
    requires AllAbove(low, m) && Less(low, key)
    ensures AllAbove(low, Insert(m, key, value))
  {
    if m == [] {
      assert [Entry(key, value)][1..] == [];
    } else {
      AboveInsert(low, m[1..], key, value);
      assert ([m[0]] + Insert(m[1..], key, value))[1..] == Insert(m[1..], key, value);
      assert ([Entry(key, value)] + m)[1..] == m;
    }
  }

  lemma {:induction false} InsertSorted<V>(m: seq<Entry<V>>, key: string, value: V)
    requires Sorted(m)
    ensures Sorted(Insert(m, key, value))
  {
    if m == [] {
      assert [Entry(key, value)][1..] == [];
    } else if m[0].key == key {
      assert ([Entry(key, value)] + m[1..])[1..] == m[1..];
    } else if Less(key, m[0].key) {
      AboveTrans(key, m[0].key, m[1..]);
      assert ([Entry(key, value)] + m)[1..] == m;
    } else {
      var rest := m[1..];
      LessTotal(key, m[0].key);
      InsertSorted(rest, key, value);
      AboveInsert(m[0].key, rest, key, value);
      assert ([m[0]] + Insert(rest, key, value))[1..] == Insert(rest, key, value);
    }
  }

  // ----- reading the map

  function Find<V>(m: seq<Entry<V>>, key: string): Option<V> {
    if m == [] then None else if m[0].key == key then Some(m[0].value) else Find(m[1..], key)
  }

  /** Inserting under a key, present or not, changes what is found under it and nothing else. */
  lemma {:induction false} FindAfterInsert<V>(m: seq<Entry<V>>, key: string, value: V, other: string)
    ensures Find(Insert(m, key, value), other) == if other == key then Some(value) else Find(m, other)
  {
    if m == [] {
      assert [Entry(key, value)][1..] == [];
    } else {
      FindAfterInsert(m[1..], key, value, other);
      assert ([m[0]] + Insert(m[1..], key, value))[1..] == Insert(m[1..], key, value);
      assert ([Entry(key, value)] + m)[1..] == m;
      assert ([Entry(key, value)] + m[1..])[1..] == m[1..];
    }
  }

  lemma {:induction false} AboveMember<V>(key: string, m: seq<Entry<V>>, e: Entry<V>)
    requires AllAbove(key, m) && e in m
    ensures Less(key, e.key)
  {
    if e != m[0] {
      assert m == [m[0]] + m[1..];
      AboveMember(key, m[1..], e);
    }
  }

  /** Every entry of a sorted map is the one found under its key. */
  lemma {:induction false} FindMember<V>(m: seq<Entry<V>>, e: Entry<V>)
    requires Sorted(m) && e in m
    ensures Find(m, e.key) == Some(e.value)
  {
    if e != m[0] {
      assert m == [m[0]] + m[1..];
      AboveMember(m[0].key, m[1..], e);
      LessTotal(m[0].key, e.key);
      FindMember(m[1..], e);
    }
  }

  // ----- a map filled with n entries of different keys

  function InsertAll<V>(f: nat -> Entry<V>, n: nat): seq<Entry<V>> {
    if n == 0 then [] else Insert(InsertAll(f, n - 1), f(n - 1).key, f(n - 1).value)
  }

  ghost predicate DistinctKeys<V>(f: nat -> Entry<V>, n: nat) {
    forall i: nat, j: nat :: i < j < n ==> f(i).key != f(j).key
  }

  lemma {:induction false} InsertAllFresh<V>(f: nat -> Entry<V>, n: nat, key: string)
    requires DistinctKeys(f, n) && forall i: nat :: i < n ==> f(i).key != key
    ensures Fresh(InsertAll(f, n), key)
  {
    if n > 0 {
      InsertAllFresh(f, n - 1, f(n - 1).key);
      InsertAllFresh(f, n - 1, key);
      InsertFresh(InsertAll(f, n - 1), f(n - 1).key, f(n - 1).value, key);
    }
  }

  /** It ends up with exactly those entries, in ascending key order. */
  lemma {:induction false} InsertAllEntries<V>(f: nat -> Entry<V>, n: nat, e: Entry<V>)
    requires DistinctKeys(f, n)
    ensures |InsertAll(f, n)| == n && Sorted(InsertAll(f, n))
    ensures e in InsertAll(f, n) <==> exists i: nat :: i < n && e == f(i)
  {
    if n > 0 {
      var last := f(n - 1);
      InsertAllEntries(f, n - 1, e);
      InsertAllFresh(f, n - 1, last.key);
      InsertAdds(InsertAll(f, n - 1), last.key, last.value, e);
      InsertSorted(InsertAll(f, n - 1), last.key, last.value);
    }
  }
}
