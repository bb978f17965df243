/**
 * Append-only interning tables: the `components`/`componentToIndex` and
 * `entities`/`entityToIndex` pairs of a cache store. The first occurrence of a
 * name gets the next index; an index never changes afterwards.
 */
module Interning {

  /** `names[i]` is the name interned at index `i`; `index` maps each name back to its index. */
  datatype Table = Table(names: seq<string>, index: map<string, nat>)

  const EmptyTable: Table := Table([], map[])

  /** The reverse index is an exact inverse of the name sequence. */
  ghost predicate Valid(t: Table) {
    && (forall i :: 0 <= i < |t.names| ==> t.names[i] in t.index && t.index[t.names[i]] == i)
    && (forall n :: n in t.index ==> t.index[n] < |t.names| && t.names[t.index[n]] == n)
  }

  /**
   * Looks `name` up, appending it first if it is new. Returns the new table
   * and the index of `name` in it.
   */
  function Intern(t: Table, name: string): (r: (Table, nat))
    requires Valid(t)
    ensures Valid(r.0)
    ensures r.1 < |r.0.names| && r.0.names[r.1] == name && r.0.index[name] == r.1
    ensures t.names <= r.0.names && |r.0.names| <= |t.names| + 1
    ensures name in t.index <==> r.0 == t
  {
    if name in t.index then (t, t.index[name])
    else (Table(t.names + [name], t.index[name := |t.names|]), |t.names|)
  }

  /** A valid table holds every name at most once. */
  lemma {:induction false} NamesDistinct(t: Table, i: nat, j: nat)
    requires Valid(t)
    requires i < |t.names| && j < |t.names| && t.names[i] == t.names[j]
    ensures i == j
  {
    assert t.index[t.names[i]] == i && t.index[t.names[j]] == j;
  }

  /** Extending a table never moves a name it already held. */
  lemma IndexStable(t: Table, t': Table, n: string)
    requires Valid(t) && Valid(t') && t.names <= t'.names
    requires n in t.index
    ensures n in t'.index && t'.index[n] == t.index[n]
  {
    assert t'.names[t.index[n]] == n;
  }

  /** A name the extended table holds but the original did not sits past the original's end. */
  lemma IndexFresh(t: Table, t': Table, n: string)
    requires Valid(t) && Valid(t') && t.names <= t'.names
    requires n in t'.index && n !in t.index
    ensures t'.index[n] >= |t.names|
  {
  }

  /** The table after interning each of `ns` in turn. */
  function InternAll(t: Table, ns: seq<string>): (r: Table)
    requires Valid(t)
    ensures Valid(r) && t.names <= r.names
    ensures forall n :: n in r.index <==> n in t.index || n in ns
    decreases |ns|
  {
    if ns == [] then t else InternAll(Intern(t, ns[0]).0, ns[1..])
  }

  /** A sequence holds at most as many distinct names as it has entries. */
  lemma {:induction false} DistinctNamesBound(ns: seq<string>)
    ensures |set n | n in ns| <= |ns|
    decreases |ns|
  {
    if ns != [] {
      DistinctNamesBound(ns[1..]);
      assert ns == [ns[0]] + ns[1..];
      assert (set n | n in ns) == {ns[0]} + set n | n in ns[1..];
    }
  }

  /** The names of `ns` missing from `known`, split at the head of `ns`. */
  lemma AddedSplit(ns: seq<string>, known: map<string, nat>, known1: map<string, nat>)
    requires ns != []
    requires forall n :: n in known1 <==> n in known || n == ns[0]
    ensures (set n | n in ns && n !in known) ==
              (if ns[0] in known then {} else {ns[0]}) + (set n | n in ns[1..] && n !in known1)
  {
    assert ns == [ns[0]] + ns[1..];
  }

  /** Interning a sequence of names appends exactly one entry per distinct name the table lacked. */
  lemma {:induction false} InternAllSize(t: Table, ns: seq<string>)
    requires Valid(t)
    ensures |InternAll(t, ns).names| == |t.names| + |set n | n in ns && n !in t.index|
    decreases |ns|
  {
    if ns != [] {
      var t1 := Intern(t, ns[0]).0;
      assert InternAll(t, ns) == InternAll(t1, ns[1..]);
      InternAllSize(t1, ns[1..]);
      AddedSplit(ns, t.index, t1.index);
    }
  }
}
