/**
 * The cache store object that `createCacheStore` returns and `storeEvent`
 * updates in place, and `mergeCacheStores`, which builds a fresh one by
 * replaying the inputs' records into it.
 */
module CacheStores {
  import opened Outcomes
  import opened TupleCodec
  import Interning
  import OrderedMaps
  import opened CacheModel
  import opened MergeModel

  class CacheStore<V> {
    var components: seq<string>
    var componentToIndex: map<string, nat>
    var entities: seq<string>
    var entityToIndex: map<string, nat>
    var state: OrderedMaps.OrderedMap<nat, V>
    var blockNumber: int

    /** The store's fields as a value. */
    function Snapshot(): Store<V>
      reads this
    {
      Store(Interning.Table(components, componentToIndex), Interning.Table(entities, entityToIndex), state, blockNumber)
    }

    ghost predicate Valid()
      reads this
    {
      CacheModel.Valid(Snapshot())
    }

    /** `createCacheStore`. */
    constructor ()
      ensures Valid()
      ensures Snapshot() == Empty()
    {
      components := [];
      componentToIndex := map[];
      entities := [];
      entityToIndex := map[];
      state := OrderedMaps.Empty();
      blockNumber := 0;
    }

    /** The merge's overwrite of the watermark; nothing else changes. */
    method SetBlockNumber(w: int)
      requires Valid()
      modifies this
      ensures Valid()
      ensures Snapshot() == old(Snapshot()).(blockNumber := w)
    {
      blockNumber := w;
    }

    /** `storeEvent`. */
    method StoreEvent(event: Update<V>) returns (outcome: Outcome)
      requires Valid()
      modifies this
      ensures Valid()
      ensures Snapshot() == StoreEventSpec(old(Snapshot()), event).store
      ensures outcome == StoreEventSpec(old(Snapshot()), event).outcome
    {
      ghost var before := Snapshot();
      var componentIndex: nat;
      if event.component in componentToIndex {
        componentIndex := componentToIndex[event.component];
      } else {
        componentIndex := |components|;
        components := components + [event.component];
        componentToIndex := componentToIndex[event.component := componentIndex];
      }
      var entityIndex: nat;
      if event.entity in entityToIndex {
        entityIndex := entityToIndex[event.entity];
      } else {
        entityIndex := |entities|;
        entities := entities + [event.entity];
        entityToIndex := entityToIndex[event.entity := entityIndex];
      }
      assert (Interning.Table(components, componentToIndex), componentIndex)
          == Interning.Intern(before.components, event.component);
      assert (Interning.Table(entities, entityToIndex), entityIndex)
          == Interning.Intern(before.entities, event.entity);
      ghost var spec := StoreEventSpec(before, event);
      var key := Pack(componentIndex, entityIndex);
      if key.Failure? {
        assert Snapshot() == spec.store;
        return Fail(key.error);
      }
      state := OrderedMaps.Set(state, key.value, event.value);
      blockNumber := event.blockNumber - 1;
      assert Snapshot() == spec.store;
      return Pass;
    }
  }

  /** The value of each store, in order. */
  function Snapshots<V>(stores: seq<CacheStore<V>>): (snaps: seq<Store<V>>)
    reads stores
    ensures |snaps| == |stores|
    ensures forall i :: 0 <= i < |stores| ==> snaps[i] == stores[i].Snapshot()
    decreases |stores|
  {
    if |stores| == 0 then [] else Snapshots(stores[..|stores| - 1]) + [stores[|stores| - 1].Snapshot()]
  }

  /**
   * The inner loop of `mergeCacheStores`: stores each record into `result` in
   * turn, stopping at the first RangeError.
   */
  method ReplayInto<V>(result: CacheStore<V>, entries: seq<Update<V>>) returns (outcome: Outcome)
    requires result.Valid()
    modifies result
    ensures result.Valid()
    ensures outcome.Pass? <==> Replay(old(result.Snapshot()), entries).Success?
    ensures outcome.Pass? ==> result.Snapshot() == Replay(old(result.Snapshot()), entries).value
    ensures outcome.Fail? ==> outcome.error == RangeError
  {
    ghost var start := result.Snapshot();
    var j := 0;
    while j < |entries|
      invariant 0 <= j <= |entries|
      invariant result.Valid()
      invariant Replay(start, entries) == Replay(result.Snapshot(), entries[j..])
    {
      assert entries[j..][1..] == entries[j + 1..];
      outcome := result.StoreEvent(entries[j]);
      if outcome.Fail? {
        return;
      }
      j := j + 1;
    }
    return Pass;
  }

  /**
   * One round of `mergeCacheStores`: replay the records of input `k` into
   * `result`, which holds the replay of the inputs before it.
   */
  method MergeRound<V>(result: CacheStore<V>, snaps: seq<Store<V>>, k: nat) returns (outcome: Outcome)
    requires AllValid(snaps) && k < |snaps|
    requires Replay(Empty(), AllEntries(snaps, k)) == Success(result.Snapshot())
    modifies result
    ensures outcome.Pass? ==> Replay(Empty(), AllEntries(snaps, k + 1)) == Success(result.Snapshot())
    ensures outcome.Fail? ==> outcome.error == RangeError && Merge(snaps).Failure?
  {
    ReplayAppend(Empty(), AllEntries(snaps, k), Entries(snaps[k]));
    assert AllEntries(snaps, k + 1) == AllEntries(snaps, k) + Entries(snaps[k]);
    outcome := ReplayInto(result, Entries(snaps[k]));
    if outcome.Fail? {
      MergeFailurePropagates(snaps, k + 1);
    }
  }

  /**
   * `mergeCacheStores`: a fresh store holding the inputs' records replayed in
   * input order, whose watermark is the largest input watermark; a RangeError
   * raised during the replay aborts the merge.
   */
  method MergeCacheStores<V>(stores: seq<CacheStore<V>>) returns (r: Result<CacheStore<V>>)
    requires forall i :: 0 <= i < |stores| ==> stores[i].Valid()
    ensures AllValid(old(Snapshots(stores)))
    ensures r.Success? <==> Merge(old(Snapshots(stores))).Success?
    ensures r.Failure? ==> r.error == RangeError
    ensures r.Success? ==> fresh(r.value) && r.value.Valid() && r.value.Snapshot() == Merge(old(Snapshots(stores))).value
  {
    // The inputs are only read; take their values once.
    var snaps := Snapshots(stores);
    assert AllValid(snaps);
    r := MergeSnapshots(snaps);
  }

  /**
   * The loops of `mergeCacheStores`, over the inputs' values: each input's
   * records are replayed into one fresh store, in input order.
   */
  method MergeSnapshots<V>(snaps: seq<Store<V>>) returns (r: Result<CacheStore<V>>)
    requires AllValid(snaps)
    ensures r.Success? <==> Merge(snaps).Success?
    ensures r.Failure? ==> r.error == RangeError
    ensures r.Success? ==> fresh(r.value) && r.value.Valid() && r.value.Snapshot() == Merge(snaps).value
  {
    var result := new CacheStore<V>();
    var watermark := 0;
    var i := 0;
    while i < |snaps|
      invariant 0 <= i <= |snaps|
      invariant fresh(result)
      invariant Replay(Empty(), AllEntries(snaps, i)) == Success(result.Snapshot())
      invariant i > 0 ==> watermark == MaxWatermark(snaps, i)
    {
      MaxWatermarkStep(snaps, i, watermark);
      watermark := if i == 0 || watermark < snaps[i].blockNumber then snaps[i].blockNumber else watermark;
      var outcome := MergeRound(result, snaps, i);
      if outcome.Fail? {
        return Failure(outcome.error);
      }
      i := i + 1;
    }
    MergeOfReplay(snaps, result.Snapshot());
    if |snaps| > 0 {
      result.SetBlockNumber(watermark);
    }
    r := Success(result);
  }
}
