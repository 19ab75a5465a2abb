/** The state that the post-add/remove actions keep consistent, and what each action does to it.
    Every action is a function from states to states; the trace records, in order, what the
    storage did and what hooks, observers and helper indices were told. */
module ActionModel {
  import Encoding

  /** An id of a component or pair. */
  type Id = nat

  /** An entity's 32-bit index, which sparse sets and records are keyed by. */
  type Entity = nat

  type TableId = nat

  datatype Option<T> = None | Some(value: T)

  /** The table flags that the engine tests. */
  datatype TableFlag =
    | HasBuiltins | HasIsA | HasChildOf | HasParent | HasCtors | HasDtors | HasToggle
    | HasOnAdd | HasOnRemove | HasOnSet | HasOnTableCreate | HasOnTableDelete
    | HasSparse | HasDontFragment | HasOrderedChildren | HasTraversable | EdgeReparent

  /** A component record: its flags, whether it has type info, and the hooks in it. */
  datatype Comp = Comp(sparse: bool, dontFragment: bool, wildcard: bool,
                       typed: bool, onAdd: bool, onRemove: bool, onSet: bool)

  datatype Table = Table(entities: seq<Entity>, flags: set<TableFlag>)

  datatype Record = Record(table: TableId, word: nat)

  datatype Diff = Diff(added: seq<Id>, removed: seq<Id>, addedFlags: set<TableFlag>, removedFlags: set<TableFlag>)

  datatype Event = OnAdd | OnRemove | OnSet

  datatype Helper =
    | ReparentNames | ReparentOrdered | ReparentChildOf
    | UnparentNames | UnparentChildOf | UnparentOrdered
    | ChildMoveAdd | ChildMoveRemove(updateParents: bool) | PropagateInvalidate

  datatype Item =
    | Inserted(id: Id, entity: Entity)
    | Dropped(id: Id, entity: Entity)
    | Hook(event: Event, id: Id, entities: seq<Entity>)
    | Emit(event: Event, ids: seq<Id>, entities: seq<Entity>, table: TableId, other: Option<TableId>, row: nat)
    | Told(helper: Helper, table: TableId, other: Option<TableId>, row: nat, count: nat)

  datatype State = State(
    comps: map<Id, Comp>,
    list: seq<Id>,                   // the non-fragmenting records, from the head
    members: map<Id, set<Entity>>,   // the sparse set of every record that has one
    tables: map<TableId, Table>,
    records: map<Entity, Record>,
    trace: seq<Item>)

  /** The emplace id that stands for every id. */
  const WILDCARD: Id := 270

  // ----- reading the state

  predicate IsSparse(s: State, id: Id) { id in s.comps && s.comps[id].sparse }

  predicate IsDontFragment(s: State, id: Id) { id in s.comps && s.comps[id].dontFragment }

  function Members(s: State, id: Id): (m: set<Entity>) { if id in s.members then s.members[id] else {} }

  predicate HasRows(s: State, t: TableId, row: nat, count: nat) {
    t in s.tables && row + count <= |s.tables[t].entities|
  }

  function Rows(s: State, t: TableId, row: nat, count: nat): (es: seq<Entity>)
    requires HasRows(s, t, row, count)
  {
    s.tables[t].entities[row..row + count]
  }

  predicate Marked(s: State, e: Entity) {
    e in s.records && Encoding.HasDontFragment(s.records[e].word)
  }

  function Log(s: State, items: seq<Item>): (r: State) { s.(trace := s.trace + items) }

  function Tell(s: State, helper: Helper, t: TableId, other: Option<TableId>, row: nat, count: nat): (r: State) {
    Log(s, [Told(helper, t, other, row, count)])
  }

  // ----- sparse storage

  function WithMembers(s: State, id: Id, m: set<Entity>): (r: State) { s.(members := s.members[id := m]) }

  /** Makes `e` a member of a sparse set. Inserting runs the on_add hook for a new member only,
      emplacing runs it for an old one as well. */
  function Insert(s: State, id: Id, e: Entity, construct: bool): (r: State)
    requires id in s.comps
  {
    var c, isNew := s.comps[id], e !in Members(s, id);
    var stored := if isNew
                  then Log(WithMembers(s, id, Members(s, id) + {e}), [Inserted(id, e)])
                  else s;
    if c.typed && c.onAdd && (isNew || !construct) then Log(stored, [Hook(OnAdd, id, [e])]) else stored
  }

  /** Sets the DontFragment bit of an entity's record. */
  function Mark(s: State, e: Entity): (r: State) {
    if e in s.records
    then s.(records := s.records[e := s.records[e].(word := Encoding.SetDontFragment(s.records[e].word))])
    else s
  }

  function Unmark(s: State, e: Entity): (r: State) {
    if e in s.records
    then s.(records := s.records[e := s.records[e].(word := Encoding.ClearDontFragment(s.records[e].word))])
    else s
  }

  predicate NewFor(s: State, id: Id, e: Entity) {
    IsSparse(s, id) && IsDontFragment(s, id) && e !in Members(s, id)
  }

  function AddOne(s: State, id: Id, e: Entity, construct: bool): (r: State) {
    if !IsSparse(s, id) then s
    else
      var stored := Insert(s, id, e, construct);
      if NewFor(s, id, e) then Mark(stored, e) else stored
  }

  function AddRows(s: State, id: Id, es: seq<Entity>, construct: bool): (r: State) {
    if es == [] then s
    else AddOne(AddRows(s, id, es[..|es| - 1], construct), id, es[|es| - 1], construct)
  }

  /** Whether adding `id` constructs its value or leaves that to the caller. */
  predicate Constructs(id: Id, emplace: Id) { emplace != WILDCARD && id != emplace }

  function AddIds(s: State, ids: seq<Id>, es: seq<Entity>, emplace: Id): (r: State) {
    if ids == [] then s
    else
      var id := ids[|ids| - 1];
      AddRows(AddIds(s, ids[..|ids| - 1], es, emplace), id, es, Constructs(id, emplace))
  }

  /** Some of the entities lack some of the DontFragment ids. */
  ghost predicate AnyNew(s: State, ids: seq<Id>, es: seq<Entity>) {
    exists id, e :: id in ids && e in es && NewFor(s, id, e)
  }

  /** Takes `e` out of a sparse set, after its on_remove hook. */
  function RemoveOne(s: State, id: Id, e: Entity): (r: State) {
    if id !in s.comps || e !in Members(s, id) then s
    else
      var c := s.comps[id];
      var hooked := if c.typed && c.onRemove then Log(s, [Hook(OnRemove, id, [e])]) else s;
      Log(WithMembers(hooked, id, Members(s, id) - {e}), [Dropped(id, e)])
  }

  function RemoveRows(s: State, id: Id, es: seq<Entity>): (r: State) {
    if es == [] then s else RemoveOne(RemoveRows(s, id, es[..|es| - 1]), id, es[|es| - 1])
  }

  function RemoveIds(s: State, ids: seq<Id>, es: seq<Entity>): (r: State) {
    if ids == [] then s
    else
      var id, rest := ids[|ids| - 1], RemoveIds(s, ids[..|ids| - 1], es);
      if IsSparse(s, id) then RemoveRows(rest, id, es) else rest
  }

  /** Some of the entities have some of the DontFragment ids. */
  ghost predicate AnyStored(s: State, ids: seq<Id>, es: seq<Entity>) {
    exists id, e :: id in ids && e in es && IsDontFragment(s, id) && e in Members(s, id)
  }

  // ----- registering components

  /** The record is known, and a DontFragment one is the head of the list. */
  function WithRecord(s: State, id: Id, c: Comp): (r: State) {
    s.(comps := s.comps[id := c], list := if c.dontFragment then [id] + s.list else s.list)
  }

  /** A new component record: linked, and with an empty sparse set if it is sparse. */
  function Registered(s: State, id: Id, c: Comp): (r: State) {
    if c.sparse then WithMembers(WithRecord(s, id, c), id, {}) else WithRecord(s, id, c)
  }

  // ----- the actions

  function Reparented(s: State, t: TableId, other: Option<TableId>, row: nat, count: nat): (r: State) {
    Tell(Tell(Tell(s, ReparentNames, t, other, row, count),
              ReparentOrdered, t, other, row, count),
         ReparentChildOf, t, other, row, count)
  }

  /** The part of an add that stores and then emits. */
  ghost function Stocked(s: State, t: TableId, other: Option<TableId>, row: nat, count: nat, diff: Diff,
                         sparse: bool, emplace: Id): (r: State)
    requires HasRows(s, t, row, count)
  {
    var es := Rows(s, t, row, count);
    var stores := sparse && HasSparse in diff.addedFlags;
    var stored := if stores then AddIds(s, diff.added, es, emplace) else s;
    if HasOnAdd in diff.addedFlags || HasTraversable in diff.addedFlags || (stores && AnyNew(s, diff.added, es))
    then Log(stored, [Emit(OnAdd, diff.added, es, t, other, row)])
    else stored
  }

  ghost function Added(s: State, t: TableId, other: Option<TableId>, row: nat, count: nat, diff: Diff,
                       sparse: bool, emplace: Id): (r: State)
    requires HasRows(s, t, row, count)
  {
    if diff.addedFlags == {} then s
    else if EdgeReparent in diff.addedFlags
    then Stocked(Reparented(s, t, other, row, count), t, other, row, count, diff, sparse, emplace)
    else Stocked(s, t, other, row, count, diff, sparse, emplace)
  }

  ghost function Removed(s: State, t: TableId, other: Option<TableId>, row: nat, count: nat, removed: seq<Id>,
                         flags: set<TableFlag>): (r: State)
    requires HasRows(s, t, row, count)
  {
    var es := Rows(s, t, row, count);
    var s1 := if HasOnRemove in flags || (HasDontFragment in flags && AnyStored(s, removed, es))
              then Log(s, [Emit(OnRemove, removed, es, t, other, row)])
              else s;
    if HasSparse in flags then RemoveIds(s1, removed, es) else s1
  }

  function Unparented(s: State, t: TableId, other: Option<TableId>, row: nat, count: nat, flags: set<TableFlag>): (r: State) {
    var s1 := if EdgeReparent in flags && other.Some? then Tell(s, UnparentNames, t, other, row, count) else s;
    var s2 := if EdgeReparent in flags then Tell(s1, UnparentChildOf, t, other, row, count) else s1;
    if HasOrderedChildren in flags then Tell(s2, UnparentOrdered, t, other, row, count) else s2
  }

  predicate HasTableFlag(s: State, t: Option<TableId>, flag: TableFlag) {
    t.Some? && t.value in s.tables && flag in s.tables[t.value].flags
  }

  ghost function RemovedWithParent(s: State, t: TableId, other: Option<TableId>, row: nat, count: nat, diff: Diff,
                                   fini: bool): (r: State)
    requires HasRows(s, t, row, count)
  {
    if !fini && HasBuiltins in s.tables[t].flags then s
    else if diff.removedFlags == {} then s
    else
      var s1 := if (EdgeReparent in diff.removedFlags || HasOrderedChildren in diff.removedFlags)
                   && !HasTableFlag(s, other, HasChildOf)
                then Unparented(s, t, other, row, count, diff.removedFlags)
                else s;
      Removed(s1, t, other, row, count, diff.removed, diff.removedFlags)
  }

  function Invalidated(s: State, t: TableId, row: nat, count: nat): (r: State)
    requires t in s.tables
  {
    if HasTraversable in s.tables[t].flags then Tell(s, PropagateInvalidate, t, None, row, count) else s
  }

  ghost function New(s: State, t: TableId, row: nat, count: nat, diff: Diff, sparse: bool, emplace: Id): (r: State)
    requires HasRows(s, t, row, count)
  {
    Added(s, t, None, row, count, diff, sparse, emplace)
  }

  ghost function DeleteTree(s: State, t: TableId, row: nat, count: nat, diff: Diff): (r: State)
    requires HasRows(s, t, row, count)
  {
    if diff.removed == [] || diff.removedFlags == {} then s
    else Removed(Invalidated(s, t, row, count), t, None, row, count, diff.removed, diff.removedFlags)
  }

  ghost function MoveAdd(s: State, t: TableId, other: Option<TableId>, row: nat, count: nat, diff: Diff,
                         sparse: bool, emplace: Id, updateParents: bool): (r: State)
    requires HasRows(s, t, row, count)
  {
    if diff.added == [] then s
    else
      var s1 := Invalidated(s, t, row, count);
      var s2 := if updateParents && HasParent in s.tables[t].flags
                then Tell(s1, ChildMoveAdd, t, other, row, count) else s1;
      Added(s2, t, other, row, count, diff, sparse, emplace)
  }

  ghost function MoveRemove(s: State, t: TableId, other: Option<TableId>, row: nat, count: nat, diff: Diff,
                            fini: bool): (r: State)
    requires HasRows(s, t, row, count)
  {
    if diff.removed == [] then s
    else
      var s1 := Invalidated(s, t, row, count);
      var s2 := if HasParent in s.tables[t].flags
                then Tell(s1, ChildMoveRemove(!(diff.added != [] && HasTableFlag(s, other, HasParent))),
                          t, other, row, count)
                else s1;
      RemovedWithParent(s2, t, other, row, count, diff, fini)
  }

  // ----- clearing an entity of its non-fragmenting components

  /** What the walk over the list does at record `id`. */
  function ClearOne(s: State, id: Id, e: Entity): (r: State)
    requires e in s.records
  {
    if id !in s.comps || s.comps[id].wildcard || e !in Members(s, id) then s
    else
      var rec := s.records[e];
      var row := Encoding.RecordToRow(rec.word);
      RemoveOne(Log(s, [Emit(OnRemove, [id], [e], rec.table, Some(rec.table), row)]), id, e)
  }

  /** The walk over the first records of the list. */
  function ClearList(s: State, ids: seq<Id>, e: Entity): (r: State)
    requires e in s.records
    ensures r.records == s.records
  {
    if ids == [] then s else ClearOne(ClearList(s, ids[..|ids| - 1], e), ids[|ids| - 1], e)
  }

  /** The walk over the whole list, and the bit cleared, whatever the bit says. */
  function ClearWalk(s: State, e: Entity): (r: State)
    requires e in s.records
  {
    Unmark(ClearList(s, s.list, e), e)
  }

  /** `flecs_entity_remove_non_fragmenting`: the bit decides whether to walk. */
  function Clear(s: State, e: Entity): (r: State) {
    if Marked(s, e) then ClearWalk(s, e) else s
  }

  // ----- OnSet

  /** One hook call for all rows of a column, or one per row of a sparse component. */
  function SetHooks(s: State, id: Id, es: seq<Entity>): (items: seq<Item>)
    requires id in s.comps
  {
    if !s.comps[id].onSet then []
    else if s.comps[id].sparse then seq(|es|, k requires 0 <= k < |es| => Hook(OnSet, id, [es[k]]))
    else [Hook(OnSet, id, es)]
  }

  function SetHooksOf(s: State, ids: seq<Id>, es: seq<Entity>): (items: seq<Item>)
    requires forall id :: id in ids ==> id in s.comps
  {
    if ids == [] then [] else SetHooksOf(s, ids[..|ids| - 1], es) + SetHooks(s, ids[|ids| - 1], es)
  }

  predicate AnyDontFragment(s: State, ids: seq<Id>) {
    exists id :: id in ids && IsDontFragment(s, id)
  }

  function SetEvent(s: State, t: TableId, row: nat, es: seq<Entity>, ids: seq<Id>): (items: seq<Item>)
    requires t in s.tables
  {
    if ids != [] && (HasOnSet in s.tables[t].flags || AnyDontFragment(s, ids))
    then [Emit(OnSet, ids, es, t, None, row)]
    else []
  }

  /** `flecs_notify_on_set_ids` */
  function NotifyIds(s: State, t: TableId, row: nat, count: nat, ids: seq<Id>): (r: State)
    requires HasRows(s, t, row, count) && forall id :: id in ids ==> id in s.comps
  {
    var es := Rows(s, t, row, count);
    Log(s, SetHooksOf(s, ids, es) + SetEvent(s, t, row, es, ids))
  }

  /** `flecs_notify_on_set` */
  function NotifyOne(s: State, t: TableId, row: nat, id: Id, invokeHook: bool): (r: State)
    requires HasRows(s, t, row, 1) && id in s.comps
  {
    var es := Rows(s, t, row, 1);
    Log(s, (if invokeHook then SetHooks(s, id, es) else []) + SetEvent(s, t, row, es, [id]))
  }
}
