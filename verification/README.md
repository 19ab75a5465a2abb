# Verified model of the flecs storage actions, sparse sets and table sort

This project models, in Dafny, the parts of the flecs entity component system that keep several
structures consistent while they change in place, and proves what they promise.

- **The action engine** (`src/component_actions.c`) runs after entities gain, lose or set
  components. It moves entities in and out of sparse sets, marks entity records with the
  DontFragment bit, runs hooks and emits observer events in a fixed order. `World.dfy` has it as a
  class with the engine's own loops over ids, rows and the linked list of non-fragmenting records.
  `ActionModel.dfy` says what each action does to an abstract state that carries a trace of
  insertions, drops, hook calls, events and calls to helper indices; every method of the class is
  proved to do exactly that. `ActionEffects.dfy`, `Items.dfy`, `Traces.dfy`, `Clearing.dfy`, `Runs.dfy`,
  `Order.dfy`, `Hearing.dfy`, `Events.dfy`, `Words.dfy`, `Laws.dfy`, `OnSet.dfy` and `Skip.dfy` prove what follows: over one action, between actions, and
  over every whole run from an empty world in which components are registered and entities are
  created, moved and deleted in between. `Engine.dfy` carries the results on runs over to the objects,
  and `SortedRuns.dfy` lets tables be sorted between actions.
- **The sparse set** (`src/datastructures/sparse.c`) that stores those components: a dense array, pages
  that map an index to its dense position, and payloads. `SparseSet.dfy` proves it a map from
  indices to payloads with the iteration order that swapping gives, and settles when `shrink` and
  `clear` keep it sound. The world's sparse sets are objects of this class.
- **The table sort** (`ECS_SORT_TABLE_WITH_COMPARE`): a Hoare partition without bounds tests whose
  pivot is a pointer into the rows being exchanged. `TableSort.dfy`.
- **Encodings** (`Bits.dfy`, `Encoding.dfy`): the packed row word, entity generations and pair ids, as
  bitwise operators on natural numbers cut to their widths.
- **Hooks under the defer counter** (`Hooks.dfy`).

## Where the code does not do what one would expect

- `flecs_sparse_shrink` cuts the dense array to the alive ids but leaves the slots of dead ids on pages
  that stay. `SparseSets.SparseSet.Shrink` proves that the set is sound afterwards if and only if no
  dead index that was once paired shares a page with an alive one; `SparseSets.ShrinkResurrects`
  inserts 1 and 2, removes 2, shrinks, inserts 3, and finds 2 a member again.
- `flecs_sparse_clear` keeps payloads, against the comment in the page allocation that a slot's data is
  always zero when its element is new: `SparseSets.SparseSet.Clear` proves that this survives if and only
  if every alive payload was zero.
- `flecs_sparse_remove` answers whether the index was ever paired, not whether it was alive.
- `flecs_component_sparse_emplace` runs the on_add hook for an entity that is a member already,
  `flecs_component_sparse_insert` does not. So an add that is run again is a no-op if and only if no id in it
  is emplaced with an on_add hook (`Laws.AddedTwice`, `Laws.AgainNothing`).
- The batched OnSet event tells of pairs that the single calls do not tell of, exactly in the cases that
  `OnSetBatches.BatchTellsAtLeast` lists.
- `ECS_ID_FLAGS_MASK` is written with eight bits and documented as eight, but only four fit a 64-bit word, so
  component ids have 28 bits (`Encoding.IdFlagsMaskWord`); past that limit pairs collide.
- `flecs_table_can_skip_column_walk` does not test the DontFragment flag. Diffs of ids in the table's type are
  quiet on accepted tables. But a DontFragment id is not in any table's type: its edge has a diff with the flags
  DontFragment and Sparse (`src/storage/table_graph.c:815-822`), while the table gets at most the first of them
  (`src/storage/table_graph.c:1083`). The predicate accepts such a table, and adds and removals of the id store,
  drop and emit all the same: `ColumnWalk.SkipMissesAdd` and `ColumnWalk.SkipMissesRemove` show it in a reachable
  world. A commit to the same table also puts the DontFragment flag alone on a diff (`src/entity.c:257-261`), and
  then a removal emits (`ColumnWalk.SkipNeedsSparse`). `ColumnWalk.QuietExactly` gives the exact condition for every
  table and diff; `ColumnWalk.SkipAdd` and `ColumnWalk.SkipRemove` give it for accepted tables.
- A removal whose flags say Sparse, but neither DontFragment nor OnRemove, drops stored DontFragment instances
  without any event. `Hearing.RemovedHeard` proves that these are exactly the silent removals.

## Reading the model

Entities are their 32-bit indices: sparse sets and records are keyed by the index, and a live entity
has one handle per index. Flag words are sets of flags, except for the row word, which is modelled bit by
bit. Observers and hooks are entries in the trace: they are taken to leave the storage alone while they
run, as deferred operations do.

## Model

| member | source | states |
|---|---|---|
| TableSort.TableRows.Sort | bench/flecs_no_addons_baseline.h:12348-12364 | for every range and every comparator that is a total preorder: the rows of the range are in order, they are the same whole rows as before, rows outside did not move, every record holds its entity's row and keeps its flags, records of entities outside the table are untouched, and the comparator is called at most `Budget` times |
| TableSort.TableRows.Partition | bench/flecs_no_addons_baseline.h:12308-12347 | returns `lo <= j < hi`; rows up to `j` are not after, rows past `j` not before, the row that was first in the middle; whole rows are only rearranged; n+1 or n+2 comparator calls; needs no more of the comparator than that equal rows compare equal |
| TableSort.TableRows.ScanUp | bench/flecs_no_addons_baseline.h:12326-12329 | without a bounds test the scan stops at the first row not before the pivot row, in range because such a row exists |
| TableSort.TableRows.ScanDown | bench/flecs_no_addons_baseline.h:12330-12333 | the same downwards |
| TableSort.TableRows.Exchange | bench/flecs_no_addons_baseline.h:12337-12344 | after the exchange the re-aimed pivot pointer and the pivot entity again denote the row first chosen at `p`, though `p` is not updated |
| TableSort.Exchanged | bench/flecs_no_addons_baseline.h:12334-12345 | later exchanges lie strictly on one side of `p`, so a pivot pointer that moved once is never stale |
| TableSort.ScansMeet | bench/flecs_no_addons_baseline.h:12334-12336 | scans that meet end at the same row or at neighbours and split the range into two parts, neither empty |
| TableSort.TableRows.SwapRows | src/storage/table.c:2199-2290 | entities, values and both records' rows change places; record flags stay with their entity and no other record changes |
| TableSort.BudgetSplit | bench/flecs_no_addons_baseline.h:12361-12363 | a partition and the sorts of both parts, however it splits, stay within the budget of the whole |
| TableSort.BudgetValue | bench/flecs_no_addons_baseline.h:12358-12363 | the budget is (n-1)(n+6)/2 |
| Encoding.RowWordRoundTrip | bench/flecs_no_addons_baseline.h:990-994 | a record word rebuilt from a row and the flag bits of a word decodes to exactly that row and those flags |
| Encoding.DontFragmentWrites | src/component_actions.c:185-185 | setting and clearing the DontFragment bit does so and changes neither the row nor any other bit |
| Encoding.WritesKeepRowAndFlags | bench/flecs_no_addons_baseline.h:377-380 | over any sequence of sets and clears the row and the other three entity flags never change, and the bit is the last write |
| Encoding.RecycledGeneration | bench/flecs_no_addons_baseline.h:998-1000 | k recycles of an index count its generation up k times modulo 65536 |
| Encoding.RecycledKeepsBit | bench/flecs_no_addons_baseline.h:1000-1000 | and move no other bit of the handle |
| Encoding.HandleReturns | bench/flecs_no_addons_baseline.h:998-1000 | a handle equals its k-fold recycle if and only if k is a multiple of 65536 |
| Encoding.PairRoundTrip | bench/flecs_no_addons_baseline.h:1001-1027 | the target of a pair always comes back without its generation; the relationship does if and only if its index is at most the largest component id |
| Encoding.PairInjective | bench/flecs_no_addons_baseline.h:1023-1027 | under one tag, pairs of possible component ids are equal if and only if both parts have equal indices |
| Encoding.PairCollides | bench/flecs_no_addons_baseline.h:1027-1027 | past the limit two different relationships give the same pair |
| Encoding.IdFlagsMaskWord | bench/flecs_no_addons_baseline.h:996-996 | the id flags mask keeps four of its eight bits |
| SparseSets.SparseSet.Ensure | src/datastructures/sparse.c:336-399 | the index becomes a member with a zero payload, last in iteration order, or, if it is one, nothing changes; the answer tells which; soundness is kept |
| SparseSets.SparseSet.Revive | src/datastructures/sparse.c:358-372 | a dead paired index comes back at the first position past the alive ids, with its new generation; no other index's liveness or payload changes |
| SparseSets.SparseSet.PairNew | src/datastructures/sparse.c:373-396 | exactly which slots and dense positions change when an index is paired for the first time |
| SparseSets.SparseSet.Remove | src/datastructures/sparse.c:432-473 | the index is no member any more, the last id fills its place in iteration order, other payloads stay; the answer says whether the index was ever paired |
| SparseSets.SparseSet.SwapDense | src/datastructures/sparse.c:221-235 | exchanging two dense positions keeps slots and positions linked, and needs no new page |
| SparseSets.SparseSet.Has | src/datastructures/sparse.c:598-614 | membership of the index, whatever the generation |
| SparseSets.SparseSet.Count | src/datastructures/sparse.c:616-624 | the count is the number of members and of listed ids |
| SparseSets.SparseSet.Write | src/datastructures/sparse.c:571-596 | a write through the pointer got for an id changes that payload only, and only for members |
| SparseSets.SparseSet.Clear | src/datastructures/sparse.c:260-278 | the set is empty and linked; payloads are clean afterwards if and only if all alive ones were zero |
| SparseSets.SparseSet.Shrink | src/datastructures/sparse.c:637-676 | members, payloads and order are kept; the set is linked afterwards, and sound if it was, if and only if no dead paired index shares a page with an alive one |
| SparseSets.ShrinkLinks | src/datastructures/sparse.c:637-676 | the same equivalence on the arrays, for every linked set |
| SparseSets.ShrinkResurrects | src/datastructures/sparse.c:637-676 | an id that was removed and never inserted again is a member after a shrink and one insertion |
| SparseSets.DensePrefix | src/datastructures/sparse.c:616-624 | the alive prefix of the dense array lists every member exactly once |
| Worlds.CountShowsNew | src/component_actions.c:166-181 | the size of a sparse set changes on insertion if and only if the entity is new to it |
| Worlds.World.SparseInsert | src/storage/sparse_storage.c:455-544 | insert and emplace store a new member, then run the on_add hook for a new or an emplaced one, as `StorageItems.AddIdsItems` and `StorageItems.AddRunsHooks` state exactly |
| Worlds.World.SparseRemove | src/storage/sparse_storage.c:120-161 | the on_remove hook runs while the instance is stored, then it is dropped; absent entities are left alone |
| Worlds.World.SparseOnAddCr | src/component_actions.c:154-191 | storage and record word become those of the model, and the count test answers exactly whether the entity was new to a DontFragment id |
| Worlds.World.SparseOnAdd | src/component_actions.c:193-217 | true if and only if some row lacked some added DontFragment id before; what it stores, which ids it emplaces and which hooks it runs `StorageItems.AddIdsItems` states item by item |
| Worlds.World.SparseOnRemove | src/component_actions.c:219-237 | the rows leave the sparse sets of the removed ids, as in the model |
| Worlds.World.DontFragmentOnRemove | src/component_actions.c:239-263 | true if and only if some row has some removed DontFragment id |
| Worlds.World.RemoveNonFragmenting | src/component_actions.c:265-304 | the walk over the linked list does what the model's clearing does; the list is finite and met once; row, table and the other entity flags stay (`Clearing.ClearRecords`) |
| Worlds.World.OnAddIntern | src/component_actions.c:306-349 | storage, records and trace become those of the model's add, all of which `Events.StockedExactly` states for every diff, whether it stores or not |
| Worlds.World.OnRemoveIntern | src/component_actions.c:351-388 | storage and trace become those of the model's removal, all of which `Events.RemovedExactly` states for all flags; records do not change |
| Worlds.World.OnRemoveInternWithParent | src/component_actions.c:390-422 | storage and trace become those of the model's removal with parents; which parent indices that tells, when and in which order `HelperOrder.HelpersFirst` states, what it drops `Hearing.RemovedHeard` and `ActionEffects.RemoveIdsEffect` |
| Worlds.World.ActionsNew | src/component_actions.c:424-436 | new rows get what an add without another table gives them |
| Worlds.World.ActionsDeleteTree | src/component_actions.c:438-458 | storage and trace become those of the model's action, for which `HelperOrder.HelpersFirst` states that of all helpers only the caches are told, first, and when |
| Worlds.World.ActionsMoveAdd | src/component_actions.c:460-490 | storage, records and trace become those of the model's action, for which `HelperOrder.HelpersFirst` states who is told, first, and in which order, and `Hearing.StockedHeard` that nothing appears silently |
| Worlds.World.ActionsMoveRemove | src/component_actions.c:492-524 | storage and trace become those of the model's action, for which `HelperOrder.HelpersFirst` states who is told, first, in which order, and whether parents are updated, and `Hearing.RemovedHeard` when nothing disappears silently |
| Worlds.World.NotifyOnSetIds | src/component_actions.c:526-592 | appends the hook calls that `OnSetBatches.BatchGroups` lists one by one and the event that `Events.EventsExactly` states; `OnSetBatches.BatchDeliversAlike` and `OnSetBatches.BatchTellsAtLeast` compare both with single calls |
| Worlds.World.NotifyOnSet | src/component_actions.c:594-651 | appends one id's hook call, if asked and if it has a hook, and its event for one row (`OnSetBatches.SingleGroups`) |
| Worlds.World.Register | src/storage/component_index.c:144-201 | a new record gets a sparse set of its own if sparse and becomes the head of the list if DontFragment; the list stays a finite chain |
| ActionEffects.AddIdsEffect | src/component_actions.c:193-217 | whatever the order of ids and rows: each sparse set of an added id is the old set plus the rows, other sets are as before, and exactly the records of rows new to some DontFragment id got the bit |
| ActionEffects.RemoveIdsEffect | src/component_actions.c:219-237 | each sparse set of a removed id is the old set minus the rows, other sets and all records are as before |
| StorageItems.AddIdsItems | src/component_actions.c:193-217 | for any ids and rows, with duplicates: adding appends, id by id and row by row, an insertion where the pair is new and met for the first time, and the on_add hook where it is new, or the id is the emplaced one, or the wildcard emplaces all |
| StorageItems.AddHooks | src/storage/sparse_storage.c:455-544 | every insertion of an id with an on_add hook is directly followed by that hook; every hook names one entity, whose instance is stored by then |
| StorageItems.AddRunsHooks | src/component_actions.c:193-217 | the on_add hook of an id runs for an entity once per time id and row are met if emplaced, and otherwise once if the instance is new |
| StorageItems.RemoveIdsItems | src/component_actions.c:219-237 | removing appends, id by id and row by row, the on_remove hook and then the drop where the pair is stored and met for the first time |
| StorageItems.RemoveHooks | src/storage/sparse_storage.c:120-161 | every on_remove hook names one entity, whose instance is still stored |
| Traces.SoundAddIds | src/component_actions.c:193-217 | replaying the trace gives the storage; adding only inserts absent pairs of the ids and rows, and drops nothing |
| Traces.SoundRemoveIds | src/component_actions.c:219-237 | replaying the trace gives the storage; removing only drops stored pairs of the ids and rows, and inserts nothing |
| Traces.AddsHeard | src/component_actions.c:329-348 | insertions followed by the one OnAdd event are each heard of after they happened, while still stored |
| Traces.DropsHeard | src/component_actions.c:365-387 | drops that follow the one OnRemove event of the same action are each heard of before they happen, while still stored |
| Runs.RunsKeepInvariant | src/component_actions.c:154-524 | in every state that any sequence of actions, registrations and entity moves reaches from the empty world, whatever the diffs say: records and tables agree, the list holds exactly the DontFragment records, the DontFragment bit is set wherever such a component is stored, and the trace accounts for the storage |
| Hearing.WholeRunHeard | src/component_actions.c:306-524 | in every run: no action lets a DontFragment instance appear without an OnAdd event of its own after the insertion; and it lets none disappear without an OnRemove event of its own before the drop, while stored, if and only if it is audible; events of earlier actions do not count |
| Hearing.ActionHeard | src/component_actions.c:306-524 | the same for every single action in a state with the run invariant |
| Hearing.RemovedHeard | src/component_actions.c:351-388 | every DontFragment drop of a removal is heard of within that removal if and only if the flags lack Sparse, have OnRemove, have DontFragment, or no row has a removed DontFragment id |
| Hearing.StockedHeard | src/component_actions.c:329-348 | every DontFragment insertion of an add is heard of within that add, for every diff |
| Hearing.ClearHeard | src/component_actions.c:265-304 | every drop of clearing an entity is heard of within the call |
| Events.StockedExactly | src/component_actions.c:329-348 | for every diff, storing or not: an OnAdd event of the type and rows is appended, once and last, if and only if the flags have OnAdd or Traversable, or it stores and some row lacks some added DontFragment id; the exact items before it, members and record words; all else as before |
| Events.RemovedExactly | src/component_actions.c:365-387 | for all flags: an OnRemove event of the ids and rows is appended, once and first, if and only if the flags have OnRemove, or DontFragment and some row has some removed DontFragment id; the exact items after it and members; all else as before |
| Events.ActionTrace | src/component_actions.c:265-651 | the exact trace of every action: its helper calls, then its storage items, hooks and events |
| Events.EventsExactly | src/component_actions.c:265-651 | the exact events of every action, in order, and no others |
| Events.EventsNameRows | src/component_actions.c:278-651 | the entities of every event are those of its table from its row on, also for events of clearing, which take table and row from the record word |
| RecordWords.ActionStorage | src/component_actions.c:265-524 | the exact members of every sparse set after every action; component records, tables and the list stay |
| RecordWords.ActionKeepsWords | src/component_actions.c:154-303 | every action keeps every entity's table, row and other three flags, and leaves the DontFragment bit set exactly where it was set or a new instance is stored, unless it clears the entity |
| RecordWords.RunKeepsWords | src/component_actions.c:154-303 | so does every stretch of a run in which no entity is placed elsewhere |
| RecordWords.ListInReverse | src/storage/component_index.c:180-201 | in every run the list holds the DontFragment ids in reverse order of registration, and the component records are exactly those registered |
| RecordWords.ClearedInReverse | src/component_actions.c:278-301 | clearing an entity tells of its components in reverse order of their registration |
| RecordWords.RegisteredFirst | src/storage/component_index.c:180-201 | a new record is as given, others stay, and a DontFragment one comes before all older ones |
| HelperOrder.HelpersFirst | src/component_actions.c:306-524 | every action appends all its helper calls before any hook, event or storage change and none after; they come in one fixed order, each at most once; and each helper is called if and only if the condition stated for that helper holds |
| HelperOrder.ActionSplits | src/component_actions.c:306-524 | every action is its helper calls followed by its storing and emitting part, on the state that those calls leave |
| HelperOrder.PreludeNames | src/component_actions.c:392-524 | exactly the helpers that are to be called are called, helper by helper: caches for traversable tables, children for tables with parents, parent indices on reparenting and unparenting |
| Engine.Perform | src/component_actions.c:424-651 | performing any action on the objects of a world that a run has reached gives the next state of that run, with the invariant, the hearing condition, the exact trace, the exact members and all rows and other flags kept; so what is proved of runs holds of the sparse sets, the linked list and the record words themselves |
| Engine.NextReached | src/component_actions.c:424-651 | an allowed action extends a run, and the step keeps all of that |
| SortedRuns.SortingKeepsInvariant | src/storage/table.c:2199-2290 | sorting any range of a table between two actions is a step a run may take: records and tables agree afterwards, every DontFragment bit is where it was, and the run invariant holds |
| SortedRuns.SortBetweenActions | bench/flecs_no_addons_baseline.h:12348-12364 | sorting a table of a world that a run has reached in place, and giving the world the sorted rows and words, extends the run by one allowed step |
| Runs.BitWhereStored | src/component_actions.c:180-187 | in every run, an entity stored for a DontFragment id that is not a wildcard has the bit |
| Hearing.StoredWasHeard | src/component_actions.c:335-348 | in every run, each stored DontFragment instance was inserted by some action, told of by an OnAdd event of that same action, and stored ever since |
| Runs.InvAdded | src/component_actions.c:306-349 | an add keeps the run invariant, with no condition on the diff |
| Runs.InvRemoved | src/component_actions.c:351-388 | a removal keeps the run invariant, with no condition on its flags |
| Runs.InvClear | src/component_actions.c:265-304 | clearing an entity keeps the run invariant, though it clears the bit |
| Laws.UncoveredIsSilent | src/component_actions.c:365-387 | where a removal does not tell, no event at all is emitted and a stored DontFragment instance goes unheard |
| Clearing.ClearStorage | src/component_actions.c:278-301 | the entity leaves every listed set that is not a wildcard's, nobody else's membership changes, and there is exactly one OnRemove event per component it had, in list order, each before its drop |
| Clearing.ClearRecords | src/component_actions.c:303-303 | the bit is clear afterwards; row, table and every other bit of the word are kept, and so are all other records |
| Clearing.ClearListEffect | src/component_actions.c:278-301 | the exact items that the walk appends and the exact sets it leaves |
| Clearing.EarlyExit | src/component_actions.c:274-276 | where the bit is clear the full walk would change neither storage nor trace |
| Clearing.ClearTwice | src/component_actions.c:265-304 | a second call changes nothing, and neither would a second walk |
| Laws.AddedTwice | src/component_actions.c:306-349 | the same add again, without OnAdd, Traversable and Reparent flags, emits nothing and changes no member and no record; only on_add hooks of emplaced ids run again |
| Laws.AgainNothing | src/storage/sparse_storage.c:510-544 | the second add is a no-op if and only if there is no row, or the type has no sparse id with an on_add hook, or the emplace id is neither the wildcard nor one of those |
| Laws.AddedMembers | src/component_actions.c:329-336 | an add leaves each sparse set of its type with the rows in it as well and touches no other |
| Laws.AddThenRemove | src/component_actions.c:306-388 | an add and the removal of the same type leave each of its sparse sets without the rows, others as they were |
| Laws.AddThenRemoveRestores | src/component_actions.c:306-388 | the removal after the add restores every sparse set if and only if the rows had none of the type |
| Laws.OnAddSeesAll | src/component_actions.c:335-348 | the OnAdd event comes last, with every instance of the type stored for every row |
| Laws.OnRemoveSeesAll | src/component_actions.c:365-387 | the OnRemove event comes first, with everything still stored |
| OnSetBatches.BatchDeliversAlike | src/component_actions.c:526-651 | the batch gives on_set hooks each (id, entity) as often as single calls on every pair do, all before its event, of which there is at most one |
| OnSetBatches.BatchTellsAtLeast | src/component_actions.c:580-591 | the batch's event tells of all pairs that the single calls tell of, and of no others if and only if the table has OnSet, or all ids or none are DontFragment, or there is no row |
| OnSetBatches.BatchGroups | src/component_actions.c:541-578 | the batch's hook calls one by one: in list order, one call per row that names this row alone for a sparse id, one call that names all rows for a column, none without a hook |
| OnSetBatches.SingleGroups | src/component_actions.c:611-650 | a single call makes one hook call that names its row if asked and if there is a hook, and none otherwise |
| HookDefer.Stage.InvokeHook | src/component_actions.c:16-117 | the counter on return is the counter on entry, whatever the hook and hooks nested in it do; every nested start is as the model says |
| HookDefer.NeverSuspended | src/component_actions.c:29-32 | in every finite tree of nested hooks each body starts at the absolute value of its caller's counter if and only if that counter is not -2^31 |
| HookDefer.BoundedNeverSuspended | src/component_actions.c:82-85 | where neither the caller nor any body puts the counter at -2^31, no hook starts suspended |
| ColumnWalk.SkipAdd | bench/syntax_check_v17_p0_2.c:23-38 | on an accepted table, an add of ids in the table's type stores and emits nothing; an add of a DontFragment id does nothing if and only if it is not to store, or every row has the id and no emplaced hook runs again |
| ColumnWalk.SkipRemove | bench/syntax_check_v17_p0_2.c:23-38 | on an accepted table, a removal of ids in the table's type does nothing if and only if the diff lacks DontFragment or no row has a removed DontFragment id; one of a DontFragment id if and only if no row has it |
| ColumnWalk.SkipNeedsSparse | src/entity.c:252-271 | with DontFragment as the only flag, which a commit to the same table can leave on a diff, a removal from an accepted table emits |
| ColumnWalk.QuietExactly | src/component_actions.c:306-524 | for every table and every diff, an action stores, hooks and emits nothing if and only if its flags ask for no event and it finds no row to store, to hook or to drop |
| ColumnWalk.SkipByFlag | bench/syntax_check_v17_p0_2.c:23-38 | exactly eleven flags refuse a table, each on its own; a union of flags is accepted if and only if both parts are |
| ColumnWalk.SkipSet | bench/syntax_check_v17_p0_2.c:23-38 | setting on an accepted table emits if and only if some id is DontFragment |
| ColumnWalk.SkipMissesAdd | src/storage/table_graph.c:810-829 | a reachable world with an accepted table on which adding a DontFragment id by its edge's diff is not a no-op |
| ColumnWalk.SkipMissesRemove | src/storage/table_graph.c:810-829 | nor is removing it again |

## Left out

- Exclusive DontFragment relationships and wildcard component records (the parent sets of pairs): pairs are stored as any other id.
- Worlds.World.SparseInsert: does not model the parent sets that pairs also update, because wildcard records are left out.
- Worlds.World.SparseOnRemove: requires that no removed id is a wildcard (`NoWildcards`), because what a wildcard record stores is left out.
- Worlds.World.DontFragmentOnRemove: likewise; for a wildcard the source looks through all pairs of the relationship.
- Worlds.World.OnRemoveIntern: likewise, and so do the actions that call it.
- Worlds.World.OnRemoveInternWithParent: likewise.
- Worlds.World.ActionsDeleteTree: likewise.
- Worlds.World.ActionsMoveRemove: likewise.
- Worlds.World.Register: does not model wildcard records, which get a parent set instead, nor the back links of the list.
- Observers and hooks that change the world while an event is emitted: their effects are taken to be deferred.
- Component values, constructors, destructors and overriding from a base: sparse payloads in the world are opaque, and whether a component is constructed only decides about the hook.
- The event flags passed on to the OnAdd event, and the iterator fields that hooks are given other than the event, the id and the entities; the per-row OnSet hook calls pass the first row as offset for every row, about which nothing is claimed.
- The defer counter within the world: it is modelled on its own in `Hooks.dfy`.
- Name index, ordered children and non-fragmenting ChildOf helpers: that they are called, with what and in which order, is in the trace; what they do is not.
- Unregistering component records.
- Ids that a sparse set issues itself (`flecs_sparse_new_id`, `flecs_sparse_remove_w_gen`) and `flecs_sparse_ensure_fast`.
- Tables with several columns: the sort carries one value per row; bitset columns and move hooks are not modelled.
- TableSort.TableRows.SwapRows: swaps one value column, since the others move the same way.
- Query, iterator, entity index and command queue code, benchmarks and documentation programs.
