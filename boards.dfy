/**
 An insertion-ordered Python dict, modelled as the sequence of its items.

 A board is the list of `(key, value)` items in insertion order. A real dict
 never holds a key twice, so every board that stands for a dict satisfies
 `DistinctNames`; `AsMap` gives the dict's key-to-value view.
 */
module Boards {

  /** One item of the dict: a student name and the value stored under it. */
  datatype Entry<V> = Entry(name: string, value: V)

  /** The keys, in insertion order (iterating over the dict). */
  function Names<V>(b: seq<Entry<V>>): seq<string>
  {
    seq(|b|, i requires 0 <= i < |b| => b[i].name)
  }

  /** The values, in insertion order (`d.values()`). */
  function Values<V>(b: seq<Entry<V>>): seq<V>
  {
    seq(|b|, i requires 0 <= i < |b| => b[i].value)
  }

  /** No name occurs twice: the invariant of every dict. */
  predicate DistinctNames<V>(b: seq<Entry<V>>)
  {
    forall i, j :: 0 <= i < j < |b| ==> b[i].name != b[j].name
  }

  /** The dict built by storing the items one after the other (`d[name] = value`). */
  function AsMap<V>(b: seq<Entry<V>>): map<string, V>
  {
    if b == [] then map[] else AsMap(b[..|b| - 1])[b[|b| - 1].name := b[|b| - 1].value]
  }

  /** The dict has exactly the names of the board as keys. */
  lemma {:induction false} AsMapKeys<V>(b: seq<Entry<V>>)
    ensures forall n :: n in AsMap(b) <==> n in Names(b)
  {
    if b != [] {
      var p := b[..|b| - 1];
      AsMapKeys(p);
      assert Names(b) == Names(p) + [b[|b| - 1].name];
    }
  }

  /** With distinct names, looking a name up gives the value stored with it. */
  lemma {:induction false} AsMapAt<V>(b: seq<Entry<V>>, i: nat)
    requires DistinctNames(b)
    requires i < |b|
    ensures b[i].name in AsMap(b) && AsMap(b)[b[i].name] == b[i].value
  {
    if i < |b| - 1 {
      AsMapAt(b[..|b| - 1], i);
    }
  }

  /** With distinct names, the dict has one entry per item. */
  lemma {:induction false} AsMapSize<V>(b: seq<Entry<V>>)
    requires DistinctNames(b)
    ensures |AsMap(b)| == |b|
  {
    if b != [] {
      var p := b[..|b| - 1];
      var last := b[|b| - 1].name;
      AsMapSize(p);
      AsMapKeys(p);
      assert last !in Names(p);
      assert last !in AsMap(p);
      assert AsMap(b).Keys == AsMap(p).Keys + {last};
    }
  }

  /** Boards with the same names in the same order make dicts with the same key set. */
  lemma SameNamesSameKeys<V, W>(b: seq<Entry<V>>, c: seq<Entry<W>>)
    requires Names(b) == Names(c)
    ensures AsMap(b).Keys == AsMap(c).Keys
  {
    AsMapKeys(b);
    AsMapKeys(c);
  }
}
