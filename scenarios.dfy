/**
 * The repository's own examples, replayed on the model: two events into a
 * fresh store, the watermark after successive events, the records read back
 * after each of three events, and the merge of two stores.
 */
module Scenarios {
  import opened Outcomes
  import opened TupleCodec
  import opened CacheModel
  import opened MergeModel
  import Interning

  /** The component values the examples use. */
  datatype Value = Position(x: int, y: int) | Health(health: int) | Speed(speed: int)

  /** An event with an empty transaction hash, as every example writes it. */
  function Event(entity: string, component: string, value: Value, lastEventInTx: bool, blockNumber: int): Update<Value> {
    Update(entity, component, value, lastEventInTx, blockNumber, "")
  }

  /** A record as `getCacheStoreEntries` yields it. */
  function Cached(entity: string, component: string, value: Value, blockNumber: int): Update<Value> {
    Update(entity, component, value, false, blockNumber, CacheTxHash)
  }

  /** The store after the first event of the examples: one name in each table and one state entry under key (0, 0). */
  const AfterFirst: Store<Value> := Store(
    Interning.Table(["Position"], map["Position" := 0]),
    Interning.Table(["0x0"], map["0x0" := 0]),
    OrderedMaps.OrderedMap([0], map[0 := Position(1, 2)]),
    0)

  /** Storing into a fresh store: the names are interned at index 0 and the watermark is one less than the event's. */
  lemma FirstEvent()
    ensures Pack(0, 0) == Success(0)
    ensures StoreEventSpec(Empty(), Event("0x0", "Position", Position(1, 2), false, 1)) == Step(AfterFirst, Pass)
  {
  }

  /** The store after the second event: a second entity and a second state entry, under key (0, 1). */
  const AfterSecond: Store<Value> := Store(
    Interning.Table(["Position"], map["Position" := 0]),
    Interning.Table(["0x0", "0x1"], map["0x0" := 0, "0x1" := 1]),
    OrderedMaps.OrderedMap([0, 1], map[0 := Position(1, 2), 1 := Position(1, 2)]),
    0)

  lemma InternSecondEntity()
    ensures Interning.Intern(AfterFirst.entities, "0x1") == (AfterSecond.entities, 1)
  {
    assert "0x1"[2] != "0x0"[2];
    assert AfterFirst.entities.names + ["0x1"] == ["0x0", "0x1"];
  }

  /** A second entity under the same component gets the next entity index and a second state entry. */
  lemma SecondEvent()
    ensures Valid(AfterFirst)
    ensures Pack(0, 1) == Success(1)
    ensures StoreEventSpec(AfterFirst, Event("0x1", "Position", Position(1, 2), true, 1)) == Step(AfterSecond, Pass)
  {
    FirstEvent();
    InternSecondEntity();
    assert OrderedMaps.Set(AfterFirst.state, 1, Position(1, 2)) == AfterSecond.state;
  }

  /** A later event for the same pair. */
  lemma WatermarkFollowsLastEvent()
    ensures StoreEventSpec(Empty(), Event("0x0", "Position", Position(1, 2), false, 1)).store.blockNumber == 0
    ensures Valid(AfterFirst)
    ensures StoreEventSpec(AfterFirst, Event("0x0", "Position", Position(1, 2), false, 2)).store.blockNumber == 1
  {
    FirstEvent();
  }

  // ---------------------------------------------------------------------
  // Records read back after each of three events

  /** After overwriting the first pair: the same tables, the new value, watermark 1. */
  const AfterOverwrite: Store<Value> := Store(
    Interning.Table(["Position"], map["Position" := 0]),
    Interning.Table(["0x0"], map["0x0" := 0]),
    OrderedMaps.OrderedMap([0], map[0 := Position(2, 2)]),
    1)

  /** After a third event for a new entity: a second entry after the first, watermark 2. */
  const AfterThird: Store<Value> := Store(
    Interning.Table(["Position"], map["Position" := 0]),
    Interning.Table(["0x0", "0x1"], map["0x0" := 0, "0x1" := 1]),
    OrderedMaps.OrderedMap([0, 1], map[0 := Position(2, 2), 1 := Position(-1, 2)]),
    2)

  lemma OverwriteEvent()
    ensures Valid(AfterFirst)
    ensures StoreEventSpec(AfterFirst, Event("0x0", "Position", Position(2, 2), false, 2)) == Step(AfterOverwrite, Pass)
  {
    FirstEvent();
  }

  lemma ThirdEvent()
    ensures Valid(AfterOverwrite)
    ensures StoreEventSpec(AfterOverwrite, Event("0x1", "Position", Position(-1, 2), false, 3)) == Step(AfterThird, Pass)
  {
    OverwriteEvent();
    InternSecondEntity();
    assert OrderedMaps.Set(AfterOverwrite.state, 1, Position(-1, 2)) == AfterThird.state;
  }

  /** `getCacheStoreEntries` after the first event: the one record, at watermark 0, marked as cached. */
  lemma EntriesAfterFirst()
    ensures Valid(AfterFirst)
    ensures Entries(AfterFirst) == [Cached("0x0", "Position", Position(1, 2), 0)]
  {
    FirstEvent();
    assert Entries(AfterFirst)[0] == Cached("0x0", "Position", Position(1, 2), 0);
  }

  /** Overwriting the pair from the first event: still one record, with the new value and watermark 1. */
  lemma EntriesAfterOverwrite()
    ensures StoreEventSpec(AfterFirst, Event("0x0", "Position", Position(2, 2), false, 2)) == Step(AfterOverwrite, Pass)
    ensures Valid(AfterOverwrite)
    ensures Entries(AfterOverwrite) == [Cached("0x0", "Position", Position(2, 2), 1)]
  {
    OverwriteEvent();
    assert Entries(AfterOverwrite)[0] == Cached("0x0", "Position", Position(2, 2), 1);
  }

  /** A third event, for a new entity: the overwritten record first, the new entity's second, both at watermark 2. */
  lemma EntriesAfterThird()
    ensures StoreEventSpec(AfterOverwrite, Event("0x1", "Position", Position(-1, 2), false, 3)) == Step(AfterThird, Pass)
    ensures Valid(AfterThird)
    ensures Entries(AfterThird) == [Cached("0x0", "Position", Position(2, 2), 2), Cached("0x1", "Position", Position(-1, 2), 2)]
  {
    ThirdEvent();
    assert Entries(AfterThird)[0] == Cached("0x0", "Position", Position(2, 2), 2);
    assert Entries(AfterThird)[1] == Cached("0x1", "Position", Position(-1, 2), 2);
  }

  // ---------------------------------------------------------------------
  // Merging two stores

  /** The first input of the merge example: Position of 0x0, then Health of 0x1, watermark 1. */
  const MergeInput1: Store<Value> := Store(
    Interning.Table(["Position", "Health"], map["Position" := 0, "Health" := 1]),
    Interning.Table(["0x0", "0x1"], map["0x0" := 0, "0x1" := 1]),
    OrderedMaps.OrderedMap([0, 0x100_0001], map[0 := Position(1, 2), 0x100_0001 := Health(1)]),
    1)

  /** The second input after its first event: Position of 0x0, watermark 2. */
  const MergeInput2Start: Store<Value> := Store(
    Interning.Table(["Position"], map["Position" := 0]),
    Interning.Table(["0x0"], map["0x0" := 0]),
    OrderedMaps.OrderedMap([0], map[0 := Position(3, 2)]),
    2)

  /** The second input: Position of 0x0, then Speed of 0x0, watermark 3. */
  const MergeInput2: Store<Value> := Store(
    Interning.Table(["Position", "Speed"], map["Position" := 0, "Speed" := 1]),
    Interning.Table(["0x0"], map["0x0" := 0]),
    OrderedMaps.OrderedMap([0, 0x100_0000], map[0 := Position(3, 2), 0x100_0000 := Speed(10)]),
    3)

  lemma InternHealth()
    ensures Interning.Intern(AfterFirst.components, "Health") == (MergeInput1.components, 1)
  {
    assert "Health"[0] != "Position"[0];
    assert AfterFirst.components.names + ["Health"] == ["Position", "Health"];
  }

  lemma HealthEvent()
    ensures Valid(AfterFirst)
    ensures StoreEventSpec(AfterFirst, Event("0x1", "Health", Health(1), false, 2)) == Step(MergeInput1, Pass)
  {
    FirstEvent();
    InternSecondEntity();
    InternHealth();
    assert Pack(1, 1) == Success(0x100_0001);
    assert OrderedMaps.Set(AfterFirst.state, 0x100_0001, Health(1)) == MergeInput1.state;
  }

  lemma SecondInputFirstEvent()
    ensures Pack(0, 0) == Success(0)
    ensures StoreEventSpec(Empty(), Event("0x0", "Position", Position(3, 2), false, 3)) == Step(MergeInput2Start, Pass)
  {
  }

  lemma InternSpeed()
    ensures Interning.Intern(MergeInput2Start.components, "Speed") == (MergeInput2.components, 1)
  {
    assert "Speed"[0] != "Position"[0];
    assert MergeInput2Start.components.names + ["Speed"] == ["Position", "Speed"];
  }

  /** The second merge input after both of its events, starting from a fresh store. */
  lemma SecondInputSecondEvent()
    ensures StoreEventSpec(Empty(), Event("0x0", "Position", Position(3, 2), false, 3)) == Step(MergeInput2Start, Pass)
    ensures Valid(MergeInput2Start)
    ensures StoreEventSpec(MergeInput2Start, Event("0x0", "Speed", Speed(10), true, 4)) == Step(MergeInput2, Pass)
  {
    SecondInputFirstEvent();
    InternSpeed();
    assert Pack(1, 0) == Success(0x100_0000);
    assert OrderedMaps.Set(MergeInput2Start.state, 0x100_0000, Speed(10)) == MergeInput2.state;
  }

  lemma EntriesOfFirstInput()
    ensures Valid(MergeInput1)
    ensures Entries(MergeInput1) == [Cached("0x0", "Position", Position(1, 2), 1), Cached("0x1", "Health", Health(1), 1)]
  {
    HealthEvent();
    assert Entries(MergeInput1)[0] == Cached("0x0", "Position", Position(1, 2), 1);
    assert Entries(MergeInput1)[1] == Cached("0x1", "Health", Health(1), 1);
  }

  lemma EntriesOfSecondInput()
    ensures Valid(MergeInput2)
    ensures Entries(MergeInput2) == [Cached("0x0", "Position", Position(3, 2), 3), Cached("0x0", "Speed", Speed(10), 3)]
  {
    SecondInputSecondEvent();
    assert Entries(MergeInput2)[0] == Cached("0x0", "Position", Position(3, 2), 3);
    assert Entries(MergeInput2)[1] == Cached("0x0", "Speed", Speed(10), 3);
  }

  const PositionOf0: Pair := Pair("Position", "0x0")
  const HealthOf1: Pair := Pair("Health", "0x1")
  const SpeedOf0: Pair := Pair("Speed", "0x0")

  /** The example's inputs, in order, as the merge receives them. */
  ghost predicate ExampleInputs(stores: seq<Store<Value>>) {
    |stores| == 2 && stores[0] == MergeInput1 && stores[1] == MergeInput2
  }

  lemma MergeExampleRecords(stores: seq<Store<Value>>)
    requires ExampleInputs(stores)
    ensures AllValid(stores)
    ensures AllEntries(stores, 2)
         == [Cached("0x0", "Position", Position(1, 2), 1), Cached("0x1", "Health", Health(1), 1),
             Cached("0x0", "Position", Position(3, 2), 3), Cached("0x0", "Speed", Speed(10), 3)]
  {
    EntriesOfFirstInput();
    EntriesOfSecondInput();
    assert AllEntries(stores, 2) == Entries(MergeInput1) + Entries(MergeInput2);
  }

  /** Four records name at most four components and four entities, so the example merge raises no RangeError. */
  lemma ExampleSucceeds(stores: seq<Store<Value>>)
    requires ExampleInputs(stores)
    ensures AllValid(stores) && Merge(stores).Success?
  {
    MergeExampleRecords(stores);
    Interning.DistinctNamesBound(ComponentNames(AllEntries(stores, 2)));
    Interning.DistinctNamesBound(EntityNames(AllEntries(stores, 2)));
    MergeSucceeds(stores);
  }

  /** The merged store reports each pair once, in order of first occurrence across the inputs. */
  lemma MergeExamplePairs(stores: seq<Store<Value>>)
    requires ExampleInputs(stores)
    ensures AllValid(stores) && Merge(stores).Success?
    ensures Pairs(Entries(Merge(stores).value)) == [PositionOf0, HealthOf1, SpeedOf0]
  {
    MergeExampleRecords(stores);
    ExampleSucceeds(stores);
    MergeOrder(stores);
    ExampleFirstOccurrences();
  }

  /** The pairs of the replayed records, and each of them once, in order of first occurrence. */
  lemma ExampleFirstOccurrences()
    ensures Pairs([Cached("0x0", "Position", Position(1, 2), 1), Cached("0x1", "Health", Health(1), 1),
                   Cached("0x0", "Position", Position(3, 2), 3), Cached("0x0", "Speed", Speed(10), 3)])
         == [PositionOf0, HealthOf1, PositionOf0, SpeedOf0]
    ensures AddNew([], [PositionOf0, HealthOf1, PositionOf0, SpeedOf0]) == [PositionOf0, HealthOf1, SpeedOf0]
  {
    assert "Health"[0] != "Position"[0] && "Speed"[0] != "Position"[0] && "Speed"[0] != "Health"[0];
    var p, h, sp := PositionOf0, HealthOf1, SpeedOf0;
    assert [p, h, p, sp][1..] == [h, p, sp] && [h, p, sp][1..] == [p, sp] && [p, sp][1..] == [sp];
    assert [] + [p] == [p] && [p] + [h] == [p, h] && [p, h] + [sp] == [p, h, sp];
    assert h !in [p] && p in [p, h] && sp !in [p, h];
    calc {
      AddNew([], [p, h, p, sp]);
      AddNew([p], [h, p, sp]);
      AddNew([p, h], [p, sp]);
      AddNew([p, h], [sp]);
      AddNew([p, h, sp], []);
    }
  }

  /** The later input wins for Position of 0x0; the other pairs keep the value of the one input holding them. */
  lemma MergeExampleValues(stores: seq<Store<Value>>)
    requires ExampleInputs(stores)
    ensures AllValid(stores) && Merge(stores).Success?
    ensures Lookup(Merge(stores).value, PositionOf0) == Some(Position(3, 2))
    ensures Lookup(Merge(stores).value, HealthOf1) == Some(Health(1))
    ensures Lookup(Merge(stores).value, SpeedOf0) == Some(Speed(10))
  {
    MergeExampleRecords(stores);
    ExampleSucceeds(stores);
    MergeLookup(stores, PositionOf0);
    MergeLookup(stores, HealthOf1);
    MergeLookup(stores, SpeedOf0);
    ExampleLatest(stores);
  }

  /** Which input holds each pair last. */
  lemma ExampleLatest(stores: seq<Store<Value>>)
    requires ExampleInputs(stores)
    ensures Latest(stores, 2, PositionOf0) == Some(Position(3, 2))
    ensures Latest(stores, 2, HealthOf1) == Some(Health(1))
    ensures Latest(stores, 2, SpeedOf0) == Some(Speed(10))
  {
    assert "Health"[0] != "Position"[0] && "Health"[0] != "Speed"[0];
    assert Lookup(MergeInput2, HealthOf1) == None;
  }

  /**
   * `mergeCacheStores` on the example: three records, in first-occurrence
   * order, later input winning, all at the furthest watermark 3.
   */
  lemma MergeExample(stores: seq<Store<Value>>)
    requires ExampleInputs(stores)
    ensures AllValid(stores) && Merge(stores).Success?
    ensures Entries(Merge(stores).value)
         == [Cached("0x0", "Position", Position(3, 2), 3), Cached("0x1", "Health", Health(1), 3),
             Cached("0x0", "Speed", Speed(10), 3)]
  {
    MergeExamplePairs(stores);
    MergeExampleValues(stores);
    MergeWatermark(stores);
    MaxWatermarkBounds(stores, 2);
    ExampleRecords(Merge(stores).value);
  }

  /** A store reporting the example's pairs, values and watermark reads back the example's records. */
  lemma ExampleRecords(m: Store<Value>)
    requires Valid(m) && Pairs(Entries(m)) == [PositionOf0, HealthOf1, SpeedOf0] && m.blockNumber == 3
    requires Lookup(m, PositionOf0) == Some(Position(3, 2))
    requires Lookup(m, HealthOf1) == Some(Health(1))
    requires Lookup(m, SpeedOf0) == Some(Speed(10))
    ensures Entries(m)
         == [Cached("0x0", "Position", Position(3, 2), 3), Cached("0x1", "Health", Health(1), 3),
             Cached("0x0", "Speed", Speed(10), 3)]
  {
    EntriesSound(m);
    var es := Entries(m);
    assert Pairs(es)[0] == PositionOf0 && Pairs(es)[1] == HealthOf1 && Pairs(es)[2] == SpeedOf0;
    assert es[0] == Cached("0x0", "Position", Position(3, 2), 3);
    assert es[1] == Cached("0x1", "Health", Health(1), 3);
    assert es[2] == Cached("0x0", "Speed", Speed(10), 3);
  }
}
