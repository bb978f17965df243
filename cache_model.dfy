/**
 * The cache store as a value: its interning tables, its insertion-ordered
 * state keyed by packed (component index, entity index) keys, and its
 * block-number watermark; what `storeEvent` does to it, and how
 * `getCacheStoreEntries` reads it back as update records.
 */
module CacheModel {
  import opened Outcomes
  import opened TupleCodec
  import Interning
  import OrderedMaps

  /**
   * A component update (NetworkComponentUpdate). StoreEvent consumes it;
   * Entries produces it.
   */
  datatype Update<V> = Update(
    entity: string,
    component: string,
    value: V,
    lastEventInTx: bool,
    blockNumber: int,
    txHash: string)

  /** The transaction-hash marker of every record read back from a cache. */
  const CacheTxHash: string := "cache"

  /** A (component, entity) pair, by name. */
  datatype Pair = Pair(component: string, entity: string)

  function PairOf<V>(u: Update<V>): Pair {
    Pair(u.component, u.entity)
  }

  function Pairs<V>(us: seq<Update<V>>): (ps: seq<Pair>)
    ensures |ps| == |us|
    ensures forall i :: 0 <= i < |us| ==> ps[i] == PairOf(us[i])
  {
    seq(|us|, i requires 0 <= i < |us| => PairOf(us[i]))
  }

  lemma PairsTail<V>(us: seq<Update<V>>)
    requires |us| > 0
    ensures Pairs(us) == [PairOf(us[0])] + Pairs(us[1..])
  {
    assert Pairs(us)[1..] == Pairs(us[1..]);
  }

  /** The component names of `us`, in order. */
  function ComponentNames<V>(us: seq<Update<V>>): (ns: seq<string>)
    ensures |ns| == |us|
    ensures forall i :: 0 <= i < |us| ==> ns[i] == us[i].component
  {
    seq(|us|, i requires 0 <= i < |us| => us[i].component)
  }

  /** The entity names of `us`, in order. */
  function EntityNames<V>(us: seq<Update<V>>): (ns: seq<string>)
    ensures |ns| == |us|
    ensures forall i :: 0 <= i < |us| ==> ns[i] == us[i].entity
  {
    seq(|us|, i requires 0 <= i < |us| => us[i].entity)
  }

  predicate DistinctPairs(ps: seq<Pair>) {
    forall i, j :: 0 <= i < j < |ps| ==> ps[i] != ps[j]
  }

  /** The whole store: both interning tables, the state and the watermark. */
  datatype Store<V> = Store(
    components: Interning.Table,
    entities: Interning.Table,
    state: OrderedMaps.OrderedMap<nat, V>,
    blockNumber: int)

  /** `key` is a packed key whose indices are valid positions in both tables. */
  ghost predicate KeyDecodes<V>(s: Store<V>, key: nat) {
    IsKey(key) && Unpack(key).0 < |s.components.names| && Unpack(key).1 < |s.entities.names|
  }

  /** The store invariant. */
  ghost predicate Valid<V>(s: Store<V>) {
    && Interning.Valid(s.components)
    && Interning.Valid(s.entities)
    && OrderedMaps.Valid(s.state)
    && forall key :: key in s.state.values ==> KeyDecodes(s, key)
  }

  /** `createCacheStore`. */
  function Empty<V>(): (s: Store<V>)
    ensures Valid(s)
  {
    Store(Interning.EmptyTable, Interning.EmptyTable, OrderedMaps.Empty(), 0)
  }

  /** The value the store holds for a (component, entity) pair, if any. */
  function Lookup<V>(s: Store<V>, p: Pair): Option<V> {
    if p.component in s.components.index && p.entity in s.entities.index then
      match Pack(s.components.index[p.component], s.entities.index[p.entity])
      case Success(key) => if key in s.state.values then Some(s.state.values[key]) else None
      case Failure(_) => None
    else None
  }

  /** What storeEvent leaves behind: the new store and whether it raised. */
  datatype Step<V> = Step(store: Store<V>, outcome: Outcome)

  /**
   * `storeEvent`: intern the component and the entity, then write the value
   * under their packed key and set the watermark to one less than the event's
   * block number. A pair of indices out of the codec's range raises
   * RangeError after the interning, so the state and the watermark keep
   * their old values.
   */
  function StoreEventSpec<V>(s: Store<V>, e: Update<V>): (r: Step<V>)
    requires Valid(s)
    ensures Valid(r.store)
    ensures e.component in r.store.components.index && e.entity in r.store.entities.index
    ensures r.outcome.Pass? <==>
              InRange(r.store.components.index[e.component], r.store.entities.index[e.entity])
    ensures r.outcome.Fail? ==>
              r.outcome.error == RangeError && r.store.state == s.state && r.store.blockNumber == s.blockNumber
    ensures r.outcome.Pass? ==> r.store.blockNumber == e.blockNumber - 1
  {
    var (components, c) := Interning.Intern(s.components, e.component);
    var (entities, n) := Interning.Intern(s.entities, e.entity);
    var interned := s.(components := components, entities := entities);
    assert forall key :: key in s.state.values ==> KeyDecodes(interned, key);
    match Pack(c, n)
    case Failure(err) => Step(interned, Fail(err))
    case Success(key) =>
      Step(interned.(state := OrderedMaps.Set(s.state, key, e.value), blockNumber := e.blockNumber - 1), Pass)
  }

  /** The record `getCacheStoreEntries` yields for one state key. */
  function Record<V>(s: Store<V>, key: nat): Update<V>
    requires Valid(s) && key in s.state.values
  {
    Update(
      entity := s.entities.names[Unpack(key).1],
      component := s.components.names[Unpack(key).0],
      value := s.state.values[key],
      lastEventInTx := false,
      blockNumber := s.blockNumber,
      txHash := CacheTxHash)
  }

  /**
   * `getCacheStoreEntries`: one record per state entry, in the state's
   * insertion order, each stamped with the store-wide watermark.
   */
  function Entries<V>(s: Store<V>): (r: seq<Update<V>>)
    requires Valid(s)
    ensures |r| == |s.state.keys|
    ensures forall i :: 0 <= i < |r| ==>
              && !r[i].lastEventInTx
              && r[i].blockNumber == s.blockNumber
              && r[i].txHash == CacheTxHash
  {
    seq(|s.state.keys|, i requires 0 <= i < |s.state.keys| => Record(s, s.state.keys[i]))
  }

  // ---------------------------------------------------------------------
  // createCacheStore

  /** A fresh store is empty, holds nothing and has watermark 0. */
  lemma EmptyIsEmpty<V>()
    ensures Empty<V>().components.names == [] && Empty<V>().components.index == map[]
    ensures Empty<V>().entities.names == [] && Empty<V>().entities.index == map[]
    ensures Entries(Empty<V>()) == []
    ensures Empty<V>().blockNumber == 0
    ensures forall p :: Lookup(Empty<V>(), p) == None
  {
  }

  // ---------------------------------------------------------------------
  // Reading entries back

  /** The record for a state key names exactly the pair that Lookup finds the key under. */
  lemma RecordLookup<V>(s: Store<V>, key: nat)
    requires Valid(s) && key in s.state.values
    ensures Lookup(s, PairOf(Record(s, key))) == Some(s.state.values[key])
  {
    var (c, n) := Unpack(key);
    assert s.components.index[s.components.names[c]] == c;
    assert s.entities.index[s.entities.names[n]] == n;
    PackUnpack(key);
  }

  /**
   * Every record reports the value Lookup finds for its pair, and no pair is
   * reported twice.
   */
  lemma EntriesSound<V>(s: Store<V>)
    requires Valid(s)
    ensures forall i :: 0 <= i < |Entries(s)| ==> Lookup(s, PairOf(Entries(s)[i])) == Some(Entries(s)[i].value)
    ensures DistinctPairs(Pairs(Entries(s)))
  {
    var es := Entries(s);
    forall i | 0 <= i < |es|
      ensures Lookup(s, PairOf(es[i])) == Some(es[i].value)
    {
      RecordLookup(s, s.state.keys[i]);
    }
    EntriesDistinct(s);
  }

  /** No pair is reported twice. */
  lemma EntriesDistinct<V>(s: Store<V>)
    requires Valid(s)
    ensures DistinctPairs(Pairs(Entries(s)))
  {
    var es := Entries(s);
    forall i, j | 0 <= i < j < |es|
      ensures Pairs(es)[i] != Pairs(es)[j]
    {
      if Pairs(es)[i] == Pairs(es)[j] {
        RecordPairInjective(s, s.state.keys[i], s.state.keys[j]);
        assert false;
      }
    }
  }

  /** Every pair Lookup finds a value for is reported by some record. */
  lemma EntriesComplete<V>(s: Store<V>, p: Pair)
    requires Valid(s) && Lookup(s, p).Some?
    ensures exists i :: 0 <= i < |Entries(s)| && PairOf(Entries(s)[i]) == p && Entries(s)[i].value == Lookup(s, p).value
  {
    var c, n := s.components.index[p.component], s.entities.index[p.entity];
    var key := Pack(c, n).value;
    var i :| 0 <= i < |s.state.keys| && s.state.keys[i] == key;
    assert PairOf(Entries(s)[i]) == p;
  }

  /**
   * Two stores that report the same pairs in the same order, hold the same
   * value for every pair and share a watermark read back the same records.
   */
  lemma EntriesAgree<V>(s: Store<V>, t: Store<V>)
    requires Valid(s) && Valid(t)
    requires Pairs(Entries(s)) == Pairs(Entries(t)) && s.blockNumber == t.blockNumber
    requires forall p :: Lookup(s, p) == Lookup(t, p)
    ensures Entries(s) == Entries(t)
  {
    EntriesSound(s);
    EntriesSound(t);
    forall i | 0 <= i < |Entries(s)|
      ensures Entries(s)[i] == Entries(t)[i]
    {
      assert Pairs(Entries(s))[i] == Pairs(Entries(t))[i];
      assert Lookup(s, PairOf(Entries(s)[i])) == Lookup(t, PairOf(Entries(t)[i]));
    }
  }

  /** A pair is reported by some record exactly when the store holds a value for it. */
  lemma InEntries<V>(s: Store<V>, p: Pair)
    requires Valid(s)
    ensures p in Pairs(Entries(s)) <==> Lookup(s, p).Some?
  {
    EntriesSound(s);
    if Lookup(s, p).Some? {
      EntriesComplete(s, p);
      var i :| 0 <= i < |Entries(s)| && PairOf(Entries(s)[i]) == p;
      assert Pairs(Entries(s))[i] == p;
    }
  }

  /**
   * The records of a valid store name at most 2^8 distinct components and
   * 2^24 distinct entities: each names the table entry its key's index
   * points at, and every key's indices are in the codec's range.
   */
  lemma EntriesNamesFit<V>(s: Store<V>)
    requires Valid(s)
    ensures |set n | n in ComponentNames(Entries(s))| <= ComponentLimit
    ensures |set n | n in EntityNames(Entries(s))| <= EntityLimit
  {
    EntriesComponentsFit(s);
    EntriesEntitiesFit(s);
  }

  lemma EntriesComponentsFit<V>(s: Store<V>)
    requires Valid(s)
    ensures |set n | n in ComponentNames(Entries(s))| <= ComponentLimit
  {
    var r := Entries(s);
    var names := set n | n in ComponentNames(r);
    var image := set c | 0 <= c < ComponentLimit && c < |s.components.names| :: s.components.names[c];
    forall n | n in names
      ensures n in image
    {
      var i :| 0 <= i < |r| && ComponentNames(r)[i] == n;
      var c := Unpack(s.state.keys[i]).0;
      assert n == s.components.names[c];
    }
    ImageBound(s.components.names, ComponentLimit);
    SubsetBound(names, image);
  }

  lemma EntriesEntitiesFit<V>(s: Store<V>)
    requires Valid(s)
    ensures |set n | n in EntityNames(Entries(s))| <= EntityLimit
  {
    var r := Entries(s);
    var names := set n | n in EntityNames(r);
    var image := set c | 0 <= c < EntityLimit && c < |s.entities.names| :: s.entities.names[c];
    forall n | n in names
      ensures n in image
    {
      var i :| 0 <= i < |r| && EntityNames(r)[i] == n;
      var c := Unpack(s.state.keys[i]).1;
      assert n == s.entities.names[c];
    }
    ImageBound(s.entities.names, EntityLimit);
    SubsetBound(names, image);
  }

  /** The first `k` entries of a table are at most `k` names. */
  lemma {:induction false} ImageBound(names: seq<string>, k: nat)
    ensures |set c | 0 <= c < k && c < |names| :: names[c]| <= k
    decreases k
  {
    if k > 0 {
      ImageBound(names, k - 1);
      var last := if k - 1 < |names| then {names[k - 1]} else {};
      assert (set c | 0 <= c < k && c < |names| :: names[c]) ==
               (set c | 0 <= c < k - 1 && c < |names| :: names[c]) + last;
    }
  }

  lemma SubsetBound(a: set<string>, b: set<string>)
    requires a <= b
    ensures |a| <= |b|
  {
    assert b == a + (b - a);
  }

  // ---------------------------------------------------------------------
  // storeEvent

  /**
   * Interning: an unseen name is appended at the end of its table, so its
   * index is its position; a seen name leaves the table as it was; no name
   * already in a table changes index.
   */
  lemma StoreEventInterns<V>(s: Store<V>, e: Update<V>)
    requires Valid(s)
    ensures var t := StoreEventSpec(s, e).store;
      && t.components.names == (if e.component in s.components.index then s.components.names else s.components.names + [e.component])
      && t.entities.names == (if e.entity in s.entities.index then s.entities.names else s.entities.names + [e.entity])
      && t.components.names[t.components.index[e.component]] == e.component
      && t.entities.names[t.entities.index[e.entity]] == e.entity
      && (forall c :: c in s.components.index ==> c in t.components.index && t.components.index[c] == s.components.index[c])
      && (forall n :: n in s.entities.index ==> n in t.entities.index && t.entities.index[n] == s.entities.index[n])
  {
    var t := StoreEventSpec(s, e).store;
    forall c | c in s.components.index
      ensures c in t.components.index && t.components.index[c] == s.components.index[c]
    {
      Interning.IndexStable(s.components, t.components, c);
    }
    forall n | n in s.entities.index
      ensures n in t.entities.index && t.entities.index[n] == s.entities.index[n]
    {
      Interning.IndexStable(s.entities, t.entities, n);
    }
  }

  /**
   * Last write wins: after a successful storeEvent the event's pair holds the
   * event's value and every other pair holds what it held before; after a
   * RangeError every pair holds what it held before.
   */
  lemma StoreEventLookup<V>(s: Store<V>, e: Update<V>, p: Pair)
    requires Valid(s)
    ensures var r := StoreEventSpec(s, e);
      Lookup(r.store, p) == if r.outcome.Pass? && p == PairOf(e) then Some(e.value) else Lookup(s, p)
  {
    var r := StoreEventSpec(s, e);
    var t := r.store;
    if p.component in t.components.index && p.entity in t.entities.index {
      var c, n := t.components.index[p.component], t.entities.index[p.entity];
      var oldC := p.component in s.components.index;
      var oldN := p.entity in s.entities.index;
      if oldC {
        Interning.IndexStable(s.components, t.components, p.component);
      } else {
        Interning.IndexFresh(s.components, t.components, p.component);
      }
      if oldN {
        Interning.IndexStable(s.entities, t.entities, p.entity);
      } else {
        Interning.IndexFresh(s.entities, t.entities, p.entity);
      }
      if Pack(c, n).Success? {
        var key := Pack(c, n).value;
        // A key built from an index that is new to the store cannot be in the old state.
        if key in s.state.values {
          assert KeyDecodes(s, key);
          assert oldC && oldN;
        }
        if r.outcome.Pass? {
          var ek := Pack(t.components.index[e.component], t.entities.index[e.entity]).value;
          if p == PairOf(e) {
            assert key == ek;
          }
        }
      }
    } else {
      if p.component in s.components.index {
        Interning.IndexStable(s.components, t.components, p.component);
      }
      if p.entity in s.entities.index {
        Interning.IndexStable(s.entities, t.entities, p.entity);
      }
    }
  }

  /** The packed key a successful storeEvent writes, and when it was already present. */
  lemma StoreEventKey<V>(s: Store<V>, e: Update<V>) returns (key: nat)
    requires Valid(s) && StoreEventSpec(s, e).outcome.Pass?
    ensures var t := StoreEventSpec(s, e).store;
      && Pack(t.components.index[e.component], t.entities.index[e.entity]) == Success(key)
      && t.state == OrderedMaps.Set(s.state, key, e.value)
      && (key in s.state.values <==> Lookup(s, PairOf(e)).Some?)
      && s.components.names <= t.components.names && s.entities.names <= t.entities.names
      && key in t.state.values && PairOf(Record(t, key)) == PairOf(e)
  {
    var t := StoreEventSpec(s, e).store;
    key := Pack(t.components.index[e.component], t.entities.index[e.entity]).value;
    if key in s.state.values {
      assert KeyDecodes(s, key);
      var (c, n) := Unpack(key);
      assert t.components.names[c] == e.component;
      assert t.entities.names[n] == e.entity;
      assert s.components.names[c] == e.component;
      assert s.entities.names[n] == e.entity;
    } else if Lookup(s, PairOf(e)).Some? {
      Interning.IndexStable(s.components, t.components, e.component);
      Interning.IndexStable(s.entities, t.entities, e.entity);
    }
  }

  /** A record already read back keeps its position and pair, takes the event's value if its pair is the event's, and carries the new watermark. */
  lemma StoreEventOldEntry<V>(s: Store<V>, e: Update<V>, i: nat)
    requires Valid(s) && StoreEventSpec(s, e).outcome.Pass? && i < |Entries(s)|
    ensures var es := Entries(s);
      && i < |Entries(StoreEventSpec(s, e).store)|
      && Entries(StoreEventSpec(s, e).store)[i]
         == es[i].(value := if PairOf(es[i]) == PairOf(e) then e.value else es[i].value,
                   blockNumber := e.blockNumber - 1)
  {
    var key := StoreEventKey(s, e);
    SetEntry(s, StoreEventSpec(s, e).store, key, e.value, i);
  }

  /**
   * Writing `v` under `key`, with tables that only grow, keeps record `i` in
   * place and changes its value only if it is the record for `key`.
   */
  lemma SetEntry<V>(s: Store<V>, t: Store<V>, key: nat, v: V, i: nat)
    requires Valid(s) && Valid(t) && i < |Entries(s)|
    requires s.components.names <= t.components.names && s.entities.names <= t.entities.names
    requires t.state == OrderedMaps.Set(s.state, key, v)
    ensures var es := Entries(s);
      && i < |Entries(t)|
      && Entries(t)[i]
         == es[i].(value := if PairOf(es[i]) == PairOf(Record(t, key)) then v else es[i].value,
                   blockNumber := t.blockNumber)
  {
    var k := s.state.keys[i];
    assert t.state.keys[i] == k;
    RecordExtend(s, t, k);
    if PairOf(Record(t, k)) == PairOf(Record(t, key)) {
      RecordPairInjective(t, k, key);
    }
  }

  /** Growing the tables and rewriting the state leave a key's pair alone. */
  lemma RecordExtend<V>(s: Store<V>, t: Store<V>, k: nat)
    requires Valid(s) && Valid(t) && k in s.state.values && k in t.state.values
    requires s.components.names <= t.components.names && s.entities.names <= t.entities.names
    ensures Record(t, k) == Record(s, k).(value := t.state.values[k], blockNumber := t.blockNumber)
  {
    assert KeyDecodes(s, k);
  }

  /** Distinct keys of a valid store are read back under distinct pairs. */
  lemma RecordPairInjective<V>(s: Store<V>, k1: nat, k2: nat)
    requires Valid(s) && k1 in s.state.values && k2 in s.state.values
    requires PairOf(Record(s, k1)) == PairOf(Record(s, k2))
    ensures k1 == k2
  {
    assert KeyDecodes(s, k1) && KeyDecodes(s, k2);
    Interning.NamesDistinct(s.components, Unpack(k1).0, Unpack(k2).0);
    Interning.NamesDistinct(s.entities, Unpack(k1).1, Unpack(k2).1);
    UnpackInjective(k1, k2);
  }

  /** An event for a pair not read back before adds one record, at the end. */
  lemma StoreEventNewEntry<V>(s: Store<V>, e: Update<V>)
    requires Valid(s) && StoreEventSpec(s, e).outcome.Pass? && PairOf(e) !in Pairs(Entries(s))
    ensures var ts := Entries(StoreEventSpec(s, e).store);
      && |ts| == |Entries(s)| + 1
      && ts[|Entries(s)|] == Update(e.entity, e.component, e.value, false, e.blockNumber - 1, CacheTxHash)
  {
    var t := StoreEventSpec(s, e).store;
    var key := StoreEventKey(s, e);
    InEntries(s, PairOf(e));
    assert t.state.keys[|s.state.keys|] == key;
    var (c, n) := Unpack(key);
    assert t.components.names[c] == e.component;
    assert t.entities.names[n] == e.entity;
  }

  /**
   * What a successful storeEvent does to the records read back: an existing
   * pair keeps its position and takes the new value, a new pair is appended
   * at the end, and every record carries the new watermark.
   */
  lemma StoreEventEntries<V>(s: Store<V>, e: Update<V>)
    requires Valid(s) && StoreEventSpec(s, e).outcome.Pass?
    ensures var t := StoreEventSpec(s, e).store;
      var es, ts := Entries(s), Entries(t);
      && |ts| == |es| + (if PairOf(e) in Pairs(es) then 0 else 1)
      && (forall i :: 0 <= i < |es| ==>
            ts[i] == es[i].(value := if PairOf(es[i]) == PairOf(e) then e.value else es[i].value,
                            blockNumber := e.blockNumber - 1))
      && (PairOf(e) !in Pairs(es) ==>
            ts[|es|] == Update(e.entity, e.component, e.value, false, e.blockNumber - 1, CacheTxHash))
  {
    var key := StoreEventKey(s, e);
    InEntries(s, PairOf(e));
    forall i | 0 <= i < |Entries(s)| {
      StoreEventOldEntry(s, e, i);
    }
    if PairOf(e) !in Pairs(Entries(s)) {
      StoreEventNewEntry(s, e);
    }
  }

  /** The pairs read back after a successful storeEvent: the old ones, then the event's pair if it was new. */
  lemma StoreEventPairs<V>(s: Store<V>, e: Update<V>)
    requires Valid(s) && StoreEventSpec(s, e).outcome.Pass?
    ensures var ps := Pairs(Entries(s));
      Pairs(Entries(StoreEventSpec(s, e).store)) == if PairOf(e) in ps then ps else ps + [PairOf(e)]
  {
    StoreEventEntries(s, e);
  }

  /**
   * storeEvent interns at most one new name per table, and cannot raise while
   * both tables have room for one more name.
   */
  lemma StoreEventRoom<V>(s: Store<V>, e: Update<V>)
    requires Valid(s)
    ensures var t := StoreEventSpec(s, e).store;
      && |t.components.names| <= |s.components.names| + 1
      && |t.entities.names| <= |s.entities.names| + 1
      && (|s.components.names| < ComponentLimit && |s.entities.names| < EntityLimit ==>
            StoreEventSpec(s, e).outcome.Pass?)
  {
  }

  /** storeEvent ignores the event's own transaction flag and hash. */
  lemma StoreEventIgnoresTxFields<V>(s: Store<V>, e: Update<V>, lastEventInTx: bool, txHash: string)
    requires Valid(s)
    ensures StoreEventSpec(s, e.(lastEventInTx := lastEventInTx, txHash := txHash)) == StoreEventSpec(s, e)
  {
  }
}
