/**
 * Per-core table of scheduling-group specific data: one slot per scheduling
 * group, each holding an "initialized" flag and one value per registered key;
 * the typed accessors that read it, and the two aggregators that fold one
 * key's values over the initialized groups.
 *
 * The table is an explicit argument rather than thread-local state, the
 * type-erased `void*` handles become a generic value type V, and the type
 * recorded for a key at registration becomes an abstract TypeIndex.
 */
module SchedulingSpecific {
  import opened Wrappers
  import opened Fold

  /** A scheduling group, as seen through its table index. */
  datatype SchedulingGroup = SchedulingGroup(index: nat)

  /** A key handed out at registration; ids are dense and start at 0. */
  datatype SchedulingGroupKey = SchedulingGroupKey(id: nat)

  /** The run-time descriptor of the type a key's values have. */
  datatype TypeIndex = TypeIndex(name: string)

  /** What registration records about a key (constructor and destructor left out). */
  datatype SchedulingGroupKeyConfig = SchedulingGroupKeyConfig(typeIndex: TypeIndex)

  /** One slot of the table: the initialized flag and the values indexed by key id. */
  datatype PerSchedulingGroup<V> = PerSchedulingGroup(queueIsInitialized: bool, specificVals: seq<V>)

  /** The per-core table and the key registrations it mirrors. */
  datatype ThreadLocalData<V> = ThreadLocalData(
    perSchedulingGroupData: seq<PerSchedulingGroup<V>>,
    schedulingGroupKeyConfigs: seq<SchedulingGroupKeyConfig>)

  /** The fatal condition raised by no_such_scheduling_group. */
  datatype Fatal = NoSuchSchedulingGroup(sg: SchedulingGroup)

  /** The group has a slot in the table and that slot is initialized. */
  ghost predicate IsInitialized<V>(data: ThreadLocalData<V>, sg: SchedulingGroup)
  {
    sg.index < |data.perSchedulingGroupData| && data.perSchedulingGroupData[sg.index].queueIsInitialized
  }

  /** No slot of the table is initialized. */
  ghost predicate NoneInitialized<V>(data: ThreadLocalData<V>)
  {
    forall i :: 0 <= i < |data.perSchedulingGroupData| ==> !data.perSchedulingGroupData[i].queueIsInitialized
  }

  /** The key is registered and its recorded type is `t` (the debug-build assertion). */
  ghost predicate KeyHasType<V>(data: ThreadLocalData<V>, key: SchedulingGroupKey, t: TypeIndex)
  {
    key.id < |data.schedulingGroupKeyConfigs| && data.schedulingGroupKeyConfigs[key.id].typeIndex == t
  }

  /** If the group's slot is initialized, it holds a value for the key. */
  ghost predicate KeyReadableIn<V>(data: ThreadLocalData<V>, sg: SchedulingGroup, key: SchedulingGroupKey)
  {
    IsInitialized(data, sg) ==> key.id < |data.perSchedulingGroupData[sg.index].specificVals|
  }

  /** Every initialized slot holds a value for the key. */
  ghost predicate KeyReadable<V>(data: ThreadLocalData<V>, key: SchedulingGroupKey)
  {
    forall i :: 0 <= i < |data.perSchedulingGroupData| && data.perSchedulingGroupData[i].queueIsInitialized ==>
      key.id < |data.perSchedulingGroupData[i].specificVals|
  }

  // ---------------------------------------------------------------------------
  // Typed accessors

  /** scheduling_group_get_specific_ptr<T>: the stored value, or None (null). */
  function SchedulingGroupGetSpecificPtr<V>(data: ThreadLocalData<V>, sg: SchedulingGroup,
                                            key: SchedulingGroupKey, t: TypeIndex): (r: Option<V>)
    requires KeyHasType(data, key, t)
    requires KeyReadableIn(data, sg, key)
    ensures sg.index >= |data.perSchedulingGroupData| ==> r == None
    ensures sg.index < |data.perSchedulingGroupData| && !data.perSchedulingGroupData[sg.index].queueIsInitialized ==> r == None
    ensures r.Some? <==> IsInitialized(data, sg)
    ensures r.Some? ==> r.value == data.perSchedulingGroupData[sg.index].specificVals[key.id]
  {
    if sg.index < |data.perSchedulingGroupData| && data.perSchedulingGroupData[sg.index].queueIsInitialized
    then Some(data.perSchedulingGroupData[sg.index].specificVals[key.id])
    else None
  }

  /** scheduling_group_get_specific<T>(sg, key): the value, or the fatal no_such_scheduling_group. */
  function SchedulingGroupGetSpecific<V>(data: ThreadLocalData<V>, sg: SchedulingGroup,
                                         key: SchedulingGroupKey, t: TypeIndex): (r: Result<V, Fatal>)
    requires KeyHasType(data, key, t)
    requires KeyReadableIn(data, sg, key)
    ensures r.Failure? <==> SchedulingGroupGetSpecificPtr(data, sg, key, t).None?
    ensures r.Failure? ==> r.error == NoSuchSchedulingGroup(sg)
    ensures r.Success? ==> SchedulingGroupGetSpecificPtr(data, sg, key, t) == Some(r.value)
  {
    match SchedulingGroupGetSpecificPtr(data, sg, key, t)
    case None => Failure(NoSuchSchedulingGroup(sg))
    case Some(p) => Success(p)
  }

  /**
   * scheduling_group_get_specific<T>(key) for the group of the running task:
   * the pointer is dereferenced unchecked, so that group must be initialized.
   */
  function SchedulingGroupGetSpecificCurrent<V>(data: ThreadLocalData<V>, current: SchedulingGroup,
                                                key: SchedulingGroupKey, t: TypeIndex): (r: V)
    requires KeyHasType(data, key, t)
    requires IsInitialized(data, current)
    requires KeyReadableIn(data, current, key)
    ensures SchedulingGroupGetSpecificPtr(data, current, key, t) == Some(r)
    ensures SchedulingGroupGetSpecific(data, current, key, t) == Success(r)
  {
    SchedulingGroupGetSpecificPtr(data, current, key, t).value
  }

  // ---------------------------------------------------------------------------
  // Aggregators

  /** The slots filtered by their initialized flag, in table order. */
  function InitializedGroups<V>(groups: seq<PerSchedulingGroup<V>>): (r: seq<PerSchedulingGroup<V>>)
    ensures forall g :: g in r ==> g in groups && g.queueIsInitialized
    ensures forall g :: g in groups && g.queueIsInitialized ==> g in r
    ensures |r| <= |groups|
    decreases |groups|
  {
    if groups == [] then []
    else (if groups[0].queueIsInitialized then [groups[0]] else []) + InitializedGroups(groups[1..])
  }

  /** The mapper map_reduce_scheduling_group_specific hands to map_reduce. */
  function WrappedMapper<V, U>(mapper: V -> U, id: nat): PerSchedulingGroup<V> --> U
  {
    (psg: PerSchedulingGroup<V>) requires id < |psg.specificVals| => mapper(psg.specificVals[id])
  }

  /** The mapper reduce_scheduling_group_specific hands to map_reduce. */
  function ReduceMapper<V>(id: nat): PerSchedulingGroup<V> --> V
  {
    (psg: PerSchedulingGroup<V>) requires id < |psg.specificVals| => psg.specificVals[id]
  }

  /** map_reduce_scheduling_group_specific: fold mapper(value) over the initialized groups. */
  function MapReduceSchedulingGroupSpecific<V, U, A>(data: ThreadLocalData<V>, mapper: V -> U,
                                                     reducer: (A, U) -> A, initialVal: A,
                                                     key: SchedulingGroupKey): (r: A)
    requires KeyReadable(data, key)
    ensures NoneInitialized(data) ==> r == initialVal
  {
    var selected := InitializedGroups(data.perSchedulingGroupData);
    assert NoneInitialized(data) ==> selected == [] by {
      if selected != [] {
        assert selected[0] in data.perSchedulingGroupData;
      }
    }
    MapReduce(selected, WrappedMapper(mapper, key.id), initialVal, reducer)
  }

  /** reduce_scheduling_group_specific: fold the raw values over the initialized groups. */
  function ReduceSchedulingGroupSpecific<V, A>(data: ThreadLocalData<V>, reducer: (A, V) -> A,
                                               initialVal: A, key: SchedulingGroupKey): (r: A)
    requires KeyReadable(data, key)
    ensures NoneInitialized(data) ==> r == initialVal
  {
    var selected := InitializedGroups(data.perSchedulingGroupData);
    assert NoneInitialized(data) ==> selected == [] by {
      if selected != [] {
        assert selected[0] in data.perSchedulingGroupData;
      }
    }
    MapReduce(selected, ReduceMapper(key.id), initialVal, reducer)
  }

  // ---------------------------------------------------------------------------
  // What the aggregators compute, stated through the accessor

  /**
   * Visit the groups from index `from` upwards, one at a time, and fold in
   * mapper(value) for every group the pointer accessor finds. The type `t`
   * only serves the accessor's precondition: for a registered key,
   * `t := data.schedulingGroupKeyConfigs[key.id].typeIndex` always meets it.
   */
  ghost function WalkGroups<V, U, A>(data: ThreadLocalData<V>, from: nat, mapper: V -> U,
                                     reducer: (A, U) -> A, acc: A,
                                     key: SchedulingGroupKey, t: TypeIndex): A
    requires KeyHasType(data, key, t)
    requires KeyReadable(data, key)
    decreases |data.perSchedulingGroupData| - from
  {
    if from >= |data.perSchedulingGroupData| then acc
    else
      var sg := SchedulingGroup(from);
      assert KeyReadableIn(data, sg, key) by {
        assert data.perSchedulingGroupData[from] in data.perSchedulingGroupData;
      }
      var next := match SchedulingGroupGetSpecificPtr(data, sg, key, t)
        case None => acc
        case Some(v) => reducer(acc, mapper(v));
      WalkGroups(data, from + 1, mapper, reducer, next, key, t)
  }

  /** Folding the initialized slots from `from` on is the walk from `from`. */
  lemma {:induction false} MapReduceSuffixIsWalk<V, U, A>(data: ThreadLocalData<V>, from: nat, mapper: V -> U,
                                                          reducer: (A, U) -> A, acc: A,
                                                          key: SchedulingGroupKey, t: TypeIndex)
    requires KeyHasType(data, key, t)
    requires KeyReadable(data, key)
    requires from <= |data.perSchedulingGroupData|
    ensures forall x :: x in InitializedGroups(data.perSchedulingGroupData[from..]) ==>
      WrappedMapper(mapper, key.id).requires(x)
    ensures MapReduce(InitializedGroups(data.perSchedulingGroupData[from..]), WrappedMapper(mapper, key.id), acc, reducer)
         == WalkGroups(data, from, mapper, reducer, acc, key, t)
    decreases |data.perSchedulingGroupData| - from
  {
    var groups := data.perSchedulingGroupData;
    if from < |groups| {
      var g := groups[from];
      var rest := groups[from + 1..];
      assert groups[from..][0] == g;
      assert groups[from..][1..] == rest;
      var f := WrappedMapper(mapper, key.id);
      var next := if g.queueIsInitialized then reducer(acc, mapper(g.specificVals[key.id])) else acc;
      MapReduceSuffixIsWalk(data, from + 1, mapper, reducer, next, key, t);
      if g.queueIsInitialized {
        var sel := [g] + InitializedGroups(rest);
        assert sel[1..] == InitializedGroups(rest);
      } else {
        assert [] + InitializedGroups(rest) == InitializedGroups(rest);
      }
    }
  }

  /**
   * map_reduce_scheduling_group_specific visits the groups in ascending index
   * order, skipping exactly those the pointer accessor reports absent. The
   * aggregator itself checks no type; `t` is there for the accessor, and the
   * type recorded for the key always serves.
   */
  lemma MapReduceWalksGroupsInOrder<V, U, A>(data: ThreadLocalData<V>, mapper: V -> U,
                                             reducer: (A, U) -> A, initialVal: A,
                                             key: SchedulingGroupKey, t: TypeIndex)
    requires KeyHasType(data, key, t)
    requires KeyReadable(data, key)
    ensures MapReduceSchedulingGroupSpecific(data, mapper, reducer, initialVal, key)
         == WalkGroups(data, 0, mapper, reducer, initialVal, key, t)
  {
    assert data.perSchedulingGroupData[0..] == data.perSchedulingGroupData;
    MapReduceSuffixIsWalk(data, 0, mapper, reducer, initialVal, key, t);
  }

  /** reduce_scheduling_group_specific is map_reduce_scheduling_group_specific with the identity mapper. */
  lemma ReduceIsMapReduceWithIdentity<V, A>(data: ThreadLocalData<V>, reducer: (A, V) -> A, initialVal: A,
                                            key: SchedulingGroupKey)
    requires KeyReadable(data, key)
    ensures ReduceSchedulingGroupSpecific(data, reducer, initialVal, key)
         == MapReduceSchedulingGroupSpecific(data, (v: V) => v, reducer, initialVal, key)
  {
    MapReduceCongruent(InitializedGroups(data.perSchedulingGroupData), ReduceMapper(key.id),
                       WrappedMapper((v: V) => v, key.id), initialVal, reducer);
  }

  /** Folding the initialized slots of two slot sequences that agree on the flags and on the key's values. */
  lemma {:induction false} MapReduceAgreeingGroups<V, U, A>(g1: seq<PerSchedulingGroup<V>>, g2: seq<PerSchedulingGroup<V>>,
                                                            mapper: V -> U, reducer: (A, U) -> A, acc: A, id: nat)
    requires |g1| == |g2|
    requires forall i :: 0 <= i < |g1| ==> g1[i].queueIsInitialized == g2[i].queueIsInitialized
    requires forall i :: 0 <= i < |g1| && g1[i].queueIsInitialized ==>
      id < |g1[i].specificVals| && id < |g2[i].specificVals| && g1[i].specificVals[id] == g2[i].specificVals[id]
    ensures forall x :: x in InitializedGroups(g1) ==> WrappedMapper(mapper, id).requires(x)
    ensures forall x :: x in InitializedGroups(g2) ==> WrappedMapper(mapper, id).requires(x)
    ensures MapReduce(InitializedGroups(g1), WrappedMapper(mapper, id), acc, reducer)
         == MapReduce(InitializedGroups(g2), WrappedMapper(mapper, id), acc, reducer)
    decreases |g1|
  {
    if g1 != [] {
      var next := if g1[0].queueIsInitialized then reducer(acc, mapper(g1[0].specificVals[id])) else acc;
      MapReduceAgreeingGroups(g1[1..], g2[1..], mapper, reducer, next, id);
      if g1[0].queueIsInitialized {
        assert ([g1[0]] + InitializedGroups(g1[1..]))[1..] == InitializedGroups(g1[1..]);
        assert ([g2[0]] + InitializedGroups(g2[1..]))[1..] == InitializedGroups(g2[1..]);
      } else {
        assert [] + InitializedGroups(g1[1..]) == InitializedGroups(g1[1..]);
        assert [] + InitializedGroups(g2[1..]) == InitializedGroups(g2[1..]);
      }
    }
  }

  /**
   * The aggregate reads nothing but the initialized flags and the key's values
   * in initialized slots: values left in uninitialized slots, other keys'
   * values and the key registrations do not affect it.
   */
  lemma MapReduceIgnoresUninitializedGroups<V, U, A>(d1: ThreadLocalData<V>, d2: ThreadLocalData<V>,
                                                     mapper: V -> U, reducer: (A, U) -> A, initialVal: A,
                                                     key: SchedulingGroupKey)
    requires KeyReadable(d1, key) && KeyReadable(d2, key)
    requires |d1.perSchedulingGroupData| == |d2.perSchedulingGroupData|
    requires forall i :: 0 <= i < |d1.perSchedulingGroupData| ==>
      d1.perSchedulingGroupData[i].queueIsInitialized == d2.perSchedulingGroupData[i].queueIsInitialized
    requires forall i :: 0 <= i < |d1.perSchedulingGroupData| && d1.perSchedulingGroupData[i].queueIsInitialized ==>
      d1.perSchedulingGroupData[i].specificVals[key.id] == d2.perSchedulingGroupData[i].specificVals[key.id]
    ensures MapReduceSchedulingGroupSpecific(d1, mapper, reducer, initialVal, key)
         == MapReduceSchedulingGroupSpecific(d2, mapper, reducer, initialVal, key)
  {
    var g1, g2 := d1.perSchedulingGroupData, d2.perSchedulingGroupData;
    MapReduceAgreeingGroups(g1, g2, mapper, reducer, initialVal, key.id);
  }

  /** Filtering a slot sequence with one more slot at the end. */
  lemma {:induction false} InitializedGroupsAppend<V>(groups: seq<PerSchedulingGroup<V>>, g: PerSchedulingGroup<V>)
    ensures InitializedGroups(groups + [g])
         == InitializedGroups(groups) + (if g.queueIsInitialized then [g] else [])
    decreases |groups|
  {
    if groups == [] {
      assert groups + [g] == [g];
      assert [g][1..] == [];
    } else {
      assert (groups + [g])[0] == groups[0];
      assert (groups + [g])[1..] == groups[1..] + [g];
      InitializedGroupsAppend(groups[1..], g);
    }
  }

  /**
   * The group with the highest index is folded last: with one more slot at the
   * end of the table, the aggregate is the reducer applied to the previous
   * aggregate and that slot's mapped value, or the previous aggregate when the
   * slot is not initialized.
   */
  lemma MapReduceAddGroup<V, U, A>(data: ThreadLocalData<V>, g: PerSchedulingGroup<V>, mapper: V -> U,
                                   reducer: (A, U) -> A, initialVal: A, key: SchedulingGroupKey)
    requires KeyReadable(data, key)
    requires g.queueIsInitialized ==> key.id < |g.specificVals|
    ensures KeyReadable(data.(perSchedulingGroupData := data.perSchedulingGroupData + [g]), key)
    ensures MapReduceSchedulingGroupSpecific(data.(perSchedulingGroupData := data.perSchedulingGroupData + [g]),
                                             mapper, reducer, initialVal, key)
         == if g.queueIsInitialized
            then reducer(MapReduceSchedulingGroupSpecific(data, mapper, reducer, initialVal, key),
                         mapper(g.specificVals[key.id]))
            else MapReduceSchedulingGroupSpecific(data, mapper, reducer, initialVal, key)
  {
    var groups := data.perSchedulingGroupData;
    InitializedGroupsAppend(groups, g);
    if g.queueIsInitialized {
      MapReduceAppend(InitializedGroups(groups), g, WrappedMapper(mapper, key.id), initialVal, reducer);
    } else {
      assert InitializedGroups(groups) + [] == InitializedGroups(groups);
    }
  }

  /**
   * Three initialized groups holding 5, 7 and 3 and a fourth, uninitialized
   * one holding 9: the sum is 15, and an order-sensitive reducer sees the
   * values in group order.
   */
  lemma ReduceExample()
    ensures var data := ThreadLocalData(
              [PerSchedulingGroup(true, [5]), PerSchedulingGroup(true, [7]),
               PerSchedulingGroup(true, [3]), PerSchedulingGroup(false, [9])],
              [SchedulingGroupKeyConfig(TypeIndex("int"))]);
            && ReduceSchedulingGroupSpecific(data, (acc: int, v: int) => acc + v, 0, SchedulingGroupKey(0)) == 15
            && ReduceSchedulingGroupSpecific(data, (acc: seq<int>, v: int) => acc + [v], [], SchedulingGroupKey(0)) == [5, 7, 3]
  {
    var data := ThreadLocalData(
      [PerSchedulingGroup(true, [5]), PerSchedulingGroup(true, [7]),
       PerSchedulingGroup(true, [3]), PerSchedulingGroup(false, [9])],
      [SchedulingGroupKeyConfig(TypeIndex("int"))]);
    var groups := data.perSchedulingGroupData;
    assert InitializedGroups(groups[3..]) == [];
    assert InitializedGroups(groups[2..]) == [groups[2]];
    assert InitializedGroups(groups[1..]) == [groups[1], groups[2]];
    assert InitializedGroups(groups) == [groups[0], groups[1], groups[2]];
  }
}
