/**
 * `mergeCacheStores` as a value: replay the records of every input store, in
 * input order, into a fresh store, and give the result the furthest-advanced
 * watermark of the inputs.
 */
module MergeModel {
  import opened Outcomes
  import opened CacheModel
  import opened TupleCodec
  import Interning

  /** Applies storeEvent to each update in turn; the first RangeError aborts the replay. */
  function Replay<V>(s: Store<V>, us: seq<Update<V>>): (r: Result<Store<V>>)
    requires Valid(s)
    ensures r.Success? ==> Valid(r.value)
    ensures r.Failure? ==> r.error == RangeError
    decreases |us|
  {
    if us == [] then Success(s)
    else
      var step := StoreEventSpec(s, us[0]);
      if step.outcome.Fail? then Failure(step.outcome.error)
      else Replay(step.store, us[1..])
  }

  /** Every update of `us` has indices in the codec's range, reading its names in tables `cs` and `es`. */
  ghost predicate FitsCodec<V>(us: seq<Update<V>>, cs: Interning.Table, es: Interning.Table) {
    forall u :: u in us ==>
      u.component in cs.index && u.entity in es.index && InRange(cs.index[u.component], es.index[u.entity])
  }

  lemma FitsCodecTail<V>(us: seq<Update<V>>, cs: Interning.Table, es: Interning.Table)
    requires us != []
    ensures FitsCodec(us, cs, es) <==> FitsCodec([us[0]], cs, es) && FitsCodec(us[1..], cs, es)
  {
    assert us == [us[0]] + us[1..];
  }

  lemma FitsCodecOne<V>(u: Update<V>, cs: Interning.Table, es: Interning.Table)
    ensures FitsCodec([u], cs, es) <==>
              u.component in cs.index && u.entity in es.index && InRange(cs.index[u.component], es.index[u.entity])
  {
    assert u in [u];
  }

  /**
   * A replay raises exactly when some update's indices fall outside the
   * codec's range, where an update's indices are those its names get in the
   * tables that interning every name of the replay produces.
   */
  lemma {:induction false} ReplaySuccess<V>(s: Store<V>, us: seq<Update<V>>)
    requires Valid(s)
    ensures Replay(s, us).Success? <==>
              FitsCodec(us, Interning.InternAll(s.components, ComponentNames(us)), Interning.InternAll(s.entities, EntityNames(us)))
    decreases |us|
  {
    if us != [] {
      var step := StoreEventSpec(s, us[0]);
      var t := step.store;
      var cs := Interning.InternAll(s.components, ComponentNames(us));
      var es := Interning.InternAll(s.entities, EntityNames(us));
      InternTail(s, us);
      Interning.IndexStable(t.components, cs, us[0].component);
      Interning.IndexStable(t.entities, es, us[0].entity);
      FitsCodecTail(us, cs, es);
      FitsCodecOne(us[0], cs, es);
      assert step.outcome.Pass? <==> InRange(cs.index[us[0].component], es.index[us[0].entity]);
      if step.outcome.Pass? {
        ReplaySuccess(t, us[1..]);
      }
    }
  }

  /** Interning every name of `us` is interning the first update's names, then the rest's. */
  lemma InternTail<V>(s: Store<V>, us: seq<Update<V>>)
    requires Valid(s) && us != []
    ensures var t := StoreEventSpec(s, us[0]).store;
      && Interning.InternAll(s.components, ComponentNames(us)) == Interning.InternAll(t.components, ComponentNames(us[1..]))
      && Interning.InternAll(s.entities, EntityNames(us)) == Interning.InternAll(t.entities, EntityNames(us[1..]))
  {
    assert ComponentNames(us)[1..] == ComponentNames(us[1..]);
    assert EntityNames(us)[1..] == EntityNames(us[1..]);
  }

  /**
   * A replay raises no RangeError when the component names it adds to the
   * store's table, counted once each, keep that table within 2^8 entries,
   * and its entity names keep the entity table within 2^24 entries.
   */
  lemma ReplaySucceeds<V>(s: Store<V>, us: seq<Update<V>>)
    requires Valid(s)
    requires |s.components.names| + |set n | n in ComponentNames(us) && n !in s.components.index| <= ComponentLimit
    requires |s.entities.names| + |set n | n in EntityNames(us) && n !in s.entities.index| <= EntityLimit
    ensures Replay(s, us).Success?
  {
    Interning.InternAllSize(s.components, ComponentNames(us));
    Interning.InternAllSize(s.entities, EntityNames(us));
    ReplaySuccess(s, us);
    var cs := Interning.InternAll(s.components, ComponentNames(us));
    var es := Interning.InternAll(s.entities, EntityNames(us));
    forall u | u in us
      ensures u.component in cs.index && u.entity in es.index && InRange(cs.index[u.component], es.index[u.entity])
    {
      var i :| 0 <= i < |us| && us[i] == u;
      assert ComponentNames(us)[i] == u.component && EntityNames(us)[i] == u.entity;
    }
  }

  ghost predicate AllValid<V>(stores: seq<Store<V>>) {
    forall i :: 0 <= i < |stores| ==> Valid(stores[i])
  }

  /** The largest watermark among the first `k` stores. */
  function MaxWatermark<V>(stores: seq<Store<V>>, k: nat): (w: int)
    requires 0 < k <= |stores|
    decreases k
  {
    if k == 1 then stores[0].blockNumber
    else
      var w0 := MaxWatermark(stores, k - 1);
      if w0 < stores[k - 1].blockNumber then stores[k - 1].blockNumber else w0
  }

  /** MaxWatermark is the maximum: no store is ahead of it and one of them reaches it. */
  lemma {:induction false} MaxWatermarkBounds<V>(stores: seq<Store<V>>, k: nat)
    requires 0 < k <= |stores|
    ensures forall i :: 0 <= i < k ==> stores[i].blockNumber <= MaxWatermark(stores, k)
    ensures exists i :: 0 <= i < k && stores[i].blockNumber == MaxWatermark(stores, k)
    decreases k
  {
    if k == 1 {
      assert stores[0].blockNumber == MaxWatermark(stores, k);
    } else {
      MaxWatermarkBounds(stores, k - 1);
      if MaxWatermark(stores, k - 1) < stores[k - 1].blockNumber {
        assert stores[k - 1].blockNumber == MaxWatermark(stores, k);
      } else {
        var j :| 0 <= j < k - 1 && stores[j].blockNumber == MaxWatermark(stores, k - 1);
        assert stores[j].blockNumber == MaxWatermark(stores, k);
      }
    }
  }

  /** Replaying `xs + ys` is replaying `xs` and then, unless that raised, replaying `ys`. */
  lemma {:induction false} ReplayAppend<V>(s: Store<V>, xs: seq<Update<V>>, ys: seq<Update<V>>)
    requires Valid(s)
    ensures Replay(s, xs).Failure? ==> Replay(s, xs + ys).Failure?
    ensures Replay(s, xs).Success? ==> Replay(s, xs + ys) == Replay(Replay(s, xs).value, ys)
    decreases |xs|
  {
    if xs == [] {
      assert xs + ys == ys;
    } else {
      assert (xs + ys)[0] == xs[0];
      assert (xs + ys)[1..] == xs[1..] + ys;
      var step := StoreEventSpec(s, xs[0]);
      if step.outcome.Pass? {
        ReplayAppend(step.store, xs[1..], ys);
      }
    }
  }

  /** The records of the first `k` stores, each store's read back in order, concatenated in input order. */
  function AllEntries<V>(stores: seq<Store<V>>, k: nat): seq<Update<V>>
    requires AllValid(stores) && k <= |stores|
    decreases k
  {
    if k == 0 then [] else AllEntries(stores, k - 1) + Entries(stores[k - 1])
  }

  /**
   * `mergeCacheStores` on the stores' values: every input's records are
   * replayed with storeEvent into a fresh store, in input order; the merged
   * watermark is then the largest input watermark. Merging no stores gives a
   * freshly created store. storeEvent never reads the watermark, so setting
   * it once at the end is the same as setting it after every input.
   */
  function Merge<V>(stores: seq<Store<V>>): (r: Result<Store<V>>)
    requires AllValid(stores)
    ensures r.Success? ==> Valid(r.value)
    ensures r.Failure? ==> r.error == RangeError
    ensures |stores| == 0 ==> r == Success(Empty())
  {
    match Replay(Empty(), AllEntries(stores, |stores|))
    case Failure(err) => Failure(err)
    case Success(replayed) =>
      if |stores| == 0 then Success(replayed)
      else Success(replayed.(blockNumber := MaxWatermark(stores, |stores|)))
  }

  /** A merge whose replay succeeds holds the replayed store, with the largest input watermark. */
  lemma MergeOfReplay<V>(stores: seq<Store<V>>, t: Store<V>)
    requires AllValid(stores)
    requires Replay(Empty(), AllEntries(stores, |stores|)) == Success(t)
    ensures |stores| == 0 ==> Merge(stores) == Success(t)
    ensures |stores| > 0 ==> Merge(stores) == Success(t.(blockNumber := MaxWatermark(stores, |stores|)))
  {
  }

  /**
   * A merge raises no RangeError when its inputs' records name at most 2^8
   * distinct components and at most 2^24 distinct entities in all.
   */
  lemma MergeSucceeds<V>(stores: seq<Store<V>>)
    requires AllValid(stores)
    requires |set n | n in ComponentNames(AllEntries(stores, |stores|))| <= ComponentLimit
    requires |set n | n in EntityNames(AllEntries(stores, |stores|))| <= EntityLimit
    ensures Merge(stores).Success?
  {
    var all := AllEntries(stores, |stores|);
    assert (set n | n in ComponentNames(all) && n !in Empty<V>().components.index) == set n | n in ComponentNames(all);
    assert (set n | n in EntityNames(all) && n !in Empty<V>().entities.index) == set n | n in EntityNames(all);
    ReplaySucceeds(Empty(), all);
  }

  /** Once the records of the first `k` stores raise, the whole merge raises. */
  lemma {:induction false} MergeFailurePropagates<V>(stores: seq<Store<V>>, k: nat)
    requires AllValid(stores) && k <= |stores|
    requires Replay(Empty(), AllEntries(stores, k)).Failure?
    ensures Merge(stores).Failure?
    decreases |stores| - k
  {
    if k != |stores| {
      ReplayAppend(Empty(), AllEntries(stores, k), Entries(stores[k]));
      assert AllEntries(stores, k + 1) == AllEntries(stores, k) + Entries(stores[k]);
      MergeFailurePropagates(stores, k + 1);
    }
  }

  /** The running maximum the merge loop keeps is MaxWatermark. */
  lemma MaxWatermarkStep<V>(stores: seq<Store<V>>, k: nat, w: int)
    requires k < |stores|
    requires k > 0 ==> w == MaxWatermark(stores, k)
    ensures (if k == 0 || w < stores[k].blockNumber then stores[k].blockNumber else w) == MaxWatermark(stores, k + 1)
  {
  }

  // ---------------------------------------------------------------------
  // Which value wins

  /** The value of the last update in `us` for pair `p`, or `prior` if there is none. */
  function LastWrite<V>(us: seq<Update<V>>, p: Pair, prior: Option<V>): Option<V>
    decreases |us|
  {
    if us == [] then prior
    else LastWrite(us[1..], p, if PairOf(us[0]) == p then Some(us[0].value) else prior)
  }

  /** After a replay, each pair holds the value of the last update for it, or its old value. */
  lemma {:induction false} ReplayLookup<V>(s: Store<V>, us: seq<Update<V>>, p: Pair)
    requires Valid(s) && Replay(s, us).Success?
    ensures Lookup(Replay(s, us).value, p) == LastWrite(us, p, Lookup(s, p))
    decreases |us|
  {
    if us != [] {
      var step := StoreEventSpec(s, us[0]);
      StoreEventLookup(s, us[0], p);
      ReplayLookup(step.store, us[1..], p);
    }
  }

  lemma {:induction false} LastWriteAbsent<V>(us: seq<Update<V>>, p: Pair, prior: Option<V>)
    requires p !in Pairs(us)
    ensures LastWrite(us, p, prior) == prior
    decreases |us|
  {
    if us != [] {
      assert Pairs(us)[0] == PairOf(us[0]);
      assert Pairs(us[1..]) == Pairs(us)[1..];
      LastWriteAbsent(us[1..], p, prior);
    }
  }

  lemma {:induction false} LastWriteAt<V>(us: seq<Update<V>>, p: Pair, prior: Option<V>, i: nat)
    requires DistinctPairs(Pairs(us))
    requires i < |us| && PairOf(us[i]) == p
    ensures LastWrite(us, p, prior) == Some(us[i].value)
    decreases |us|
  {
    assert Pairs(us[1..]) == Pairs(us)[1..];
    if i == 0 {
      LastWriteAbsent(us[1..], p, Some(us[0].value));
    } else {
      assert us[1..][i - 1] == us[i];
      assert Pairs(us)[0] != Pairs(us)[i];
      LastWriteAt(us[1..], p, prior, i - 1);
    }
  }

  /** Replaying a store's records writes exactly what the store holds. */
  lemma LastWriteOfEntries<V>(s: Store<V>, p: Pair, prior: Option<V>)
    requires Valid(s)
    ensures LastWrite(Entries(s), p, prior) == if Lookup(s, p).Some? then Lookup(s, p) else prior
  {
    EntriesSound(s);
    InEntries(s, p);
    if Lookup(s, p).Some? {
      EntriesComplete(s, p);
      var i :| 0 <= i < |Entries(s)| && PairOf(Entries(s)[i]) == p && Entries(s)[i].value == Lookup(s, p).value;
      LastWriteAt(Entries(s), p, prior, i);
    } else {
      LastWriteAbsent(Entries(s), p, prior);
    }
  }

  /** The value for `p` in the last of the first `k` stores that holds one. */
  function Latest<V>(stores: seq<Store<V>>, k: nat, p: Pair): Option<V>
    requires k <= |stores|
    decreases k
  {
    if k == 0 then None
    else
      var last := Lookup(stores[k - 1], p);
      if last.Some? then last else Latest(stores, k - 1, p)
  }

  /** Latest finds a value exactly when one of the first `k` stores holds the pair. */
  lemma {:induction false} LatestSome<V>(stores: seq<Store<V>>, k: nat, p: Pair)
    requires k <= |stores|
    ensures Latest(stores, k, p).Some? <==> exists i :: 0 <= i < k && Lookup(stores[i], p).Some?
    decreases k
  {
    if k > 0 {
      LatestSome(stores, k - 1, p);
      if Lookup(stores[k - 1], p).None? {
        forall i | 0 <= i < k && Lookup(stores[i], p).Some?
          ensures i < k - 1
        {
        }
      }
    }
  }

  /** The value Latest finds is that of the last of the first `k` stores holding the pair. */
  lemma {:induction false} LatestLast<V>(stores: seq<Store<V>>, k: nat, p: Pair, j: nat)
    requires j < k <= |stores| && Lookup(stores[j], p).Some?
    requires forall i :: j < i < k ==> Lookup(stores[i], p).None?
    ensures Latest(stores, k, p) == Lookup(stores[j], p)
    decreases k
  {
    if j < k - 1 {
      LatestLast(stores, k - 1, p, j);
    }
  }

  lemma {:induction false} LastWriteAppend<V>(xs: seq<Update<V>>, ys: seq<Update<V>>, p: Pair, prior: Option<V>)
    ensures LastWrite(xs + ys, p, prior) == LastWrite(ys, p, LastWrite(xs, p, prior))
    decreases |xs|
  {
    if xs == [] {
      assert xs + ys == ys;
    } else {
      assert (xs + ys)[0] == xs[0];
      assert (xs + ys)[1..] == xs[1..] + ys;
      LastWriteAppend(xs[1..], ys, p, if PairOf(xs[0]) == p then Some(xs[0].value) else prior);
    }
  }

  /** Across the stores' records, the last write for a pair is the value of the last store holding it. */
  lemma {:induction false} LastWriteOfAllEntries<V>(stores: seq<Store<V>>, k: nat, p: Pair)
    requires AllValid(stores) && k <= |stores|
    ensures LastWrite(AllEntries(stores, k), p, None) == Latest(stores, k, p)
    decreases k
  {
    if k > 0 {
      var before := AllEntries(stores, k - 1);
      assert AllEntries(stores, k) == before + Entries(stores[k - 1]);
      LastWriteOfAllEntries(stores, k - 1, p);
      LastWriteAppend(before, Entries(stores[k - 1]), p, None);
      LastWriteOfEntries(stores[k - 1], p, LastWrite(before, p, None));
    }
  }

  /**
   * Later input wins: the merge holds every pair that one of the stores
   * holds, with the value of the last store holding it, and nothing else.
   */
  lemma MergeLookup<V>(stores: seq<Store<V>>, p: Pair)
    requires AllValid(stores) && Merge(stores).Success?
    ensures Lookup(Merge(stores).value, p) == Latest(stores, |stores|, p)
  {
    EmptyIsEmpty<V>();
    ReplayLookup(Empty(), AllEntries(stores, |stores|), p);
    LastWriteOfAllEntries(stores, |stores|, p);
  }

  /**
   * The merge holds exactly the pairs some input holds, each with the value
   * of the last input holding it.
   */
  lemma MergeLaterWins<V>(stores: seq<Store<V>>, p: Pair)
    requires AllValid(stores) && Merge(stores).Success?
    ensures Lookup(Merge(stores).value, p).Some? <==> exists i :: 0 <= i < |stores| && Lookup(stores[i], p).Some?
    ensures forall j ::
              (0 <= j < |stores| && Lookup(stores[j], p).Some? &&
               forall i :: j < i < |stores| ==> Lookup(stores[i], p).None?)
              ==> Lookup(Merge(stores).value, p) == Lookup(stores[j], p)
  {
    MergeLookup(stores, p);
    LatestSome(stores, |stores|, p);
    forall j | 0 <= j < |stores| && Lookup(stores[j], p).Some? && (forall i :: j < i < |stores| ==> Lookup(stores[i], p).None?)
      ensures Lookup(Merge(stores).value, p) == Lookup(stores[j], p)
    {
      LatestLast(stores, |stores|, p, j);
    }
  }

  // ---------------------------------------------------------------------
  // Entry order

  /** `xs` followed by the elements of `ys` it lacks, each once, in order of first occurrence. */
  function AddNew(xs: seq<Pair>, ys: seq<Pair>): (r: seq<Pair>)
    decreases |ys|
  {
    if ys == [] then xs
    else AddNew(if ys[0] in xs then xs else xs + [ys[0]], ys[1..])
  }

  /** Adding elements that are all new and distinct just appends them. */
  lemma {:induction false} AddNewFresh(xs: seq<Pair>, ys: seq<Pair>)
    requires DistinctPairs(ys)
    requires forall y :: y in ys ==> y !in xs
    ensures AddNew(xs, ys) == xs + ys
    decreases |ys|
  {
    if ys != [] {
      assert ys[0] !in xs;
      forall y | y in ys[1..]
        ensures y !in xs + [ys[0]]
      {
        var j :| 0 <= j < |ys| - 1 && ys[1..][j] == y;
        assert ys[j + 1] == y;
      }
      AddNewFresh(xs + [ys[0]], ys[1..]);
      assert xs + [ys[0]] + ys[1..] == xs + ys;
    }
  }

  /**
   * Order after a replay: the pairs already reported keep their positions and
   * the new pairs follow in order of first occurrence in the updates.
   */
  lemma {:induction false} ReplayOrder<V>(s: Store<V>, us: seq<Update<V>>)
    requires Valid(s) && Replay(s, us).Success?
    ensures Pairs(Entries(Replay(s, us).value)) == AddNew(Pairs(Entries(s)), Pairs(us))
    decreases |us|
  {
    if us != [] {
      var step := StoreEventSpec(s, us[0]);
      StoreEventPairs(s, us[0]);
      ReplayOrder(step.store, us[1..]);
      PairsTail(us);
    } else {
      assert Pairs(us) == [];
    }
  }

  /** Changing only the watermark does not change which pairs are reported, or in what order. */
  lemma PairsIgnoreWatermark<V>(s: Store<V>, w: int)
    requires Valid(s)
    ensures Pairs(Entries(s.(blockNumber := w))) == Pairs(Entries(s))
  {
  }

  /**
   * Insertion order across the merge: the merged store reports the pairs of
   * all the replayed records, each once, in order of first occurrence.
   */
  lemma MergeOrder<V>(stores: seq<Store<V>>)
    requires AllValid(stores) && Merge(stores).Success?
    ensures Pairs(Entries(Merge(stores).value)) == AddNew([], Pairs(AllEntries(stores, |stores|)))
  {
    EmptyIsEmpty<V>();
    var all := AllEntries(stores, |stores|);
    ReplayOrder(Empty(), all);
    if |stores| > 0 {
      PairsIgnoreWatermark(Replay(Empty(), all).value, MaxWatermark(stores, |stores|));
    }
  }

  // ---------------------------------------------------------------------
  // Watermark

  /** Every merged record reports the furthest-advanced input watermark. */
  lemma MergeWatermark<V>(stores: seq<Store<V>>)
    requires AllValid(stores) && |stores| > 0 && Merge(stores).Success?
    ensures Merge(stores).value.blockNumber == MaxWatermark(stores, |stores|)
    ensures forall i :: 0 <= i < |Entries(Merge(stores).value)| ==>
              Entries(Merge(stores).value)[i].blockNumber == MaxWatermark(stores, |stores|)
    ensures forall j :: 0 <= j < |stores| ==> stores[j].blockNumber <= Merge(stores).value.blockNumber
  {
    MaxWatermarkBounds(stores, |stores|);
  }

  // ---------------------------------------------------------------------
  // Fixed point

  /**
   * Re-materializing a store through a merge of that store alone reproduces
   * its records exactly: same pairs, same order, same values, same watermark.
   */
  lemma MergeSingleton<V>(s: Store<V>)
    requires Valid(s)
    ensures Merge([s]).Success? && Entries(Merge([s]).value) == Entries(s)
  {
    MergeOneSucceeds(s);
    var m := Merge([s]).value;
    MergeSingletonPairs(s);
    MergeWatermark([s]);
    forall p
      ensures Lookup(m, p) == Lookup(s, p)
    {
      MergeLookup([s], p);
    }
    EntriesAgree(m, s);
  }

  /** The merge of one store reports the same pairs as that store, in the same order. */
  lemma MergeSingletonPairs<V>(s: Store<V>)
    requires Valid(s)
    ensures Merge([s]).Success? && Pairs(Entries(Merge([s]).value)) == Pairs(Entries(s))
  {
    MergeOneSucceeds(s);
    MergeOne(s);
    ReplayFromEmptyPairs(s);
    PairsIgnoreWatermark(Replay(Empty(), Entries(s)).value, s.blockNumber);
  }

  /** Replaying a valid store's records into a fresh store raises no RangeError. */
  lemma EntriesReplaySucceeds<V>(s: Store<V>)
    requires Valid(s)
    ensures Replay(Empty(), Entries(s)).Success?
  {
    EntriesNamesFit(s);
    assert AllEntries([s], 1) == Entries(s);
    MergeSucceeds([s]);
  }

  /** Merging a single valid store raises no RangeError. */
  lemma MergeOneSucceeds<V>(s: Store<V>)
    requires Valid(s)
    ensures Merge([s]).Success?
  {
    EntriesReplaySucceeds(s);
    MergeOne(s);
  }

  /** The merge of one store is the replay of its records into an empty store, at its watermark. */
  lemma MergeOne<V>(s: Store<V>)
    requires Valid(s)
    ensures Replay(Empty(), Entries(s)).Failure? ==> Merge([s]).Failure?
    ensures Replay(Empty(), Entries(s)).Success? ==>
              Merge([s]) == Success(Replay(Empty(), Entries(s)).value.(blockNumber := s.blockNumber))
  {
    assert AllEntries([s], 1) == Entries(s);
  }

  /** Replaying a store's own records into an empty store reports its pairs in its order. */
  lemma ReplayFromEmptyPairs<V>(s: Store<V>)
    requires Valid(s)
    ensures Replay(Empty(), Entries(s)).Success?
    ensures Pairs(Entries(Replay(Empty(), Entries(s)).value)) == Pairs(Entries(s))
  {
    EntriesReplaySucceeds(s);
    EmptyIsEmpty<V>();
    ReplayOrder(Empty(), Entries(s));
    EntriesDistinct(s);
    AddNewFresh([], Pairs(Entries(s)));
  }
}
