# Scheduling-group specific data, modelled in Dafny

This project models seastar's per-core table of scheduling-group specific
data (`include/seastar/core/scheduling_specific.hh`): the table with one slot
per scheduling group, the typed accessors that read a key's value for a
group, and the two aggregators that fold one key's values across the groups
initialized on the core.

- `wrappers.dfy`: `Option` (a null pointer is `None`) and `Result` (the fatal
  `no_such_scheduling_group` is `Failure(NoSuchSchedulingGroup(sg))`).
- `fold.dfy`, module `Fold`: the runtime's generic `map_reduce` over a range
  when every mapper future is already resolved, which is a left fold of the
  mapped elements in range order, with its append and congruence
  lemmas.
- `scheduling_specific.dfy`, module `SchedulingSpecific`: the table
  (`ThreadLocalData`, `PerSchedulingGroup`), the accessors
  `scheduling_group_get_specific_ptr` and both `scheduling_group_get_specific`
  overloads, the filter on `queue_is_initialized`, both aggregators, and the
  lemmas about them.

The model is a set of pure functions over an immutable table value, as the
header is: nothing in it writes to the table. The table is passed explicitly
instead of being reached through the thread-local pointer, and the running
task's group (`current_scheduling_group()`) is a parameter. The `void*`
handles become a generic value type `V`. The type recorded for a key at
registration becomes an abstract `TypeIndex`.

The main results:
- the pointer accessor is absent exactly when the group index is not below
  the table size or the slot is not initialized; otherwise it is that slot's
  value for the key;
- the checked accessor fails with `NoSuchSchedulingGroup(sg)` exactly when
  the pointer accessor is absent, and otherwise yields the same value;
- `map_reduce_scheduling_group_specific` equals a walk over the groups in
  ascending index order that folds in `mapper(v)` for every group whose
  pointer lookup yields `v` (`MapReduceWalksGroupsInOrder`). Appending a slot
  to the table folds that slot last (`MapReduceAddGroup`). With no
  initialized slot the result is the initial value;
- `reduce_scheduling_group_specific` is `map_reduce` with the identity mapper;
- the aggregate depends only on the flags and on the key's values in
  initialized slots (`MapReduceIgnoresUninitializedGroups`).

The pointer accessor returns null both for a group index at or beyond the
table size and for an uninitialized slot (lines 74-78). The aggregators wrap
the mapper's return value in an already-resolved future (lines 138-139 and
172), so the fold order is the slot order.

## Model

| member | source | states |
|---|---|---|
| `Fold.MapReduce` | include/seastar/core/scheduling_specific.hh:142-145 | folding an empty range yields the initial value; a one-element range yields `reduce(initial, mapper(x))` |
| `Fold.MapReduceAppend` | include/seastar/core/scheduling_specific.hh:142-145 | the last element of the range is mapped and reduced last, into the fold of the elements before it |
| `Fold.MapReduceCongruent` | include/seastar/core/scheduling_specific.hh:175-178 | two mappers that agree on every element of the range give the same fold |
| `SchedulingSpecific.SchedulingGroupGetSpecificPtr` | include/seastar/core/scheduling_specific.hh:67-79 | needs the key's recorded type to be the requested one (the debug assertion); absent when the group index is not below the table size; absent when the slot is not initialized; present exactly when the index is in range and the slot initialized, and then it is that slot's `specific_vals[key.id]` |
| `SchedulingSpecific.SchedulingGroupGetSpecific` | include/seastar/core/scheduling_specific.hh:91-98 | fails with `NoSuchSchedulingGroup(sg)` exactly when the pointer accessor is absent; otherwise returns the value the pointer accessor yields |
| `SchedulingSpecific.SchedulingGroupGetSpecificCurrent` | include/seastar/core/scheduling_specific.hh:107-110 | needs the current group's slot to be initialized (the dereference is unchecked); returns the pointer accessor's value for the current group, which is also what the checked accessor returns |
| `SchedulingSpecific.InitializedGroups` | include/seastar/core/scheduling_specific.hh:143-144 | keeps exactly the initialized slots of the table, no more slots than the table has |
| `SchedulingSpecific.InitializedGroupsAppend` | include/seastar/core/scheduling_specific.hh:143-144 | the filter keeps table order: a slot appended to the table comes after every kept slot, and only if it is initialized |
| `SchedulingSpecific.MapReduceSchedulingGroupSpecific` | include/seastar/core/scheduling_specific.hh:127-146 | needs the key readable in every initialized slot; the per-slot mapper is `WrappedMapper`, defined only on slots whose `specificVals` is longer than `key.id`; with no initialized slot the result is the initial value |
| `SchedulingSpecific.ReduceSchedulingGroupSpecific` | include/seastar/core/scheduling_specific.hh:161-179 | needs the key readable in every initialized slot; the per-slot mapper is `ReduceMapper`, defined only on slots whose `specificVals` is longer than `key.id`; with no initialized slot the result is the initial value |
| `SchedulingSpecific.MapReduceSuffixIsWalk` | include/seastar/core/scheduling_specific.hh:136-145 | folding the initialized slots from index `from` on equals visiting groups `from`, `from + 1`, ... and folding in `mapper(v)` for each group whose pointer lookup yields `v` |
| `SchedulingSpecific.MapReduceWalksGroupsInOrder` | include/seastar/core/scheduling_specific.hh:136-145 | the map-reduce result equals the ascending walk over all groups from index 0 that skips exactly the groups the pointer accessor reports absent |
| `SchedulingSpecific.ReduceIsMapReduceWithIdentity` | include/seastar/core/scheduling_specific.hh:170-178 | reduce equals map-reduce with the identity mapper, for every table, reducer, initial value and key |
| `SchedulingSpecific.MapReduceAgreeingGroups` | include/seastar/core/scheduling_specific.hh:136-145 | two slot sequences with equal flags and equal key values in initialized slots fold to the same result |
| `SchedulingSpecific.MapReduceIgnoresUninitializedGroups` | include/seastar/core/scheduling_specific.hh:142-145 | the aggregate does not depend on uninitialized slots' contents, other keys' values or the key registrations |
| `SchedulingSpecific.MapReduceAddGroup` | include/seastar/core/scheduling_specific.hh:142-145 | a slot appended to the table is folded last if initialized, and leaves the result unchanged if not |
| `SchedulingSpecific.ReduceExample` | include/seastar/core/scheduling_specific.hh:175-178 | groups holding 5, 7, 3 and an uninitialized one holding 9: summing gives 15, appending gives `[5, 7, 3]` |

## Left out

- The thread-local pointer to the table (lines 47-55): the table is an explicit argument.
- `current_scheduling_group()` is defined in `scheduling.hh`, which is not part of this model; the current group is a parameter.
- `max_scheduling_groups()`, the fixed table length, is defined in `scheduling.hh`, which is not part of this model; the table length is arbitrary and every property holds for any length.
- Futures: the runtime's `map_reduce` and `make_ready_future` live in a file that is not part of this model. Ready futures leave a plain left fold. An exception thrown by a mapper or reducer, and its propagation as a failed future, are not modelled.
- Type erasure (`void*`, `reinterpret_cast`, `std::type_index`): replaced by a generic value type and an abstract `TypeIndex`.
- The accessors return a pointer or a reference through which callers may write. The model returns the value, so writes through the returned reference are not modelled.
- `no_such_scheduling_group` is only declared in this header; its call is modelled as the `Failure` result.
- Key registration, slot initialization and teardown are not in this header; the accessors and aggregators instead require the key to be readable in the slots they read (`KeyReadableIn`, `KeyReadable`).
- `__builtin_expect` and the `SEASTAR_CONCEPT` constraints are compiler hints and compile-time typing only.
- SchedulingSpecific.SchedulingGroupGetSpecificPtr: requires the key to be registered with the requested type in every build, while the source checks this only in debug builds (a release build with a wrong type is undefined behaviour).
- SchedulingSpecific.SchedulingGroupGetSpecific: same type requirement in every build as the pointer accessor.
- SchedulingSpecific.SchedulingGroupGetSpecificCurrent: same type requirement in every build as the pointer accessor.
- SchedulingSpecific.MapReduceSchedulingGroupSpecific: the mapper may take the stored value by reference (line 114) and write it during the aggregation (line 139); the model's mapper is a pure function of the value, so such writes to the table are not modelled.
