/** The whole effect of an action: its exact trace, the events in it, and what it leaves as it was. */
module Events {
  import opened ActionModel
  import opened ActionEffects
  import opened Clearing
  import opened Runs
  import opened HelperOrder
  import opened StorageItems
  import Encoding

  // ----- adds

  /** Whether an add emits: the flags ask for it, or some row gets some DontFragment id. */
  ghost predicate AddEmits(s: State, es: seq<Entity>, diff: Diff, sparse: bool) {
    || HasOnAdd in diff.addedFlags || HasTraversable in diff.addedFlags
    || (sparse && HasSparse in diff.addedFlags && SomeRowLacks(s, diff.added, es))
  }

  /** Some row lacks some sparse DontFragment id. */
  ghost predicate SomeRowLacks(s: State, ids: seq<Id>, es: seq<Entity>) {
    exists id, e :: id in ids && e in es && IsSparse(s, id) && IsDontFragment(s, id) && e !in Members(s, id)
  }

  /** First the items of the storage, if it is to be touched, then the event. */
  ghost function AddTrace(s: State, es: seq<Entity>, t: TableId, other: Option<TableId>, row: nat, diff: Diff, sparse: bool,
                          emplace: Id): (items: seq<Item>)
  {
    (if sparse && HasSparse in diff.addedFlags then AddedItems(s, diff.added, es, emplace, |diff.added|) else [])
    + (if AddEmits(s, es, diff, sparse) then [Emit(OnAdd, diff.added, es, t, other, row)] else [])
  }

  lemma AnyNewEmits(s: State, ids: seq<Id>, es: seq<Entity>)
    ensures AnyNew(s, ids, es) <==> SomeRowLacks(s, ids, es)
  {
    if AnyNew(s, ids, es) {
      var id, e :| id in ids && e in es && NewFor(s, id, e);
      assert IsSparse(s, id) && IsDontFragment(s, id) && e !in Members(s, id);
    }
    if SomeRowLacks(s, ids, es) {
      var id, e :| id in ids && e in es && IsSparse(s, id) && IsDontFragment(s, id) && e !in Members(s, id);
      assert NewFor(s, id, e);
    }
  }

  /** For every diff, whether storage is to be touched or not: the exact trace, members and record words
      that an add leaves, and that it leaves all else alone. */
  lemma StockedExactly(s: State, t: TableId, other: Option<TableId>, row: nat, count: nat, diff: Diff, sparse: bool, emplace: Id)
    requires HasRows(s, t, row, count)
    ensures var es, r := Rows(s, t, row, count), Stocked(s, t, other, row, count, diff, sparse, emplace);
            && r.comps == s.comps && r.list == s.list && r.tables == s.tables
            && r.trace == s.trace + AddTrace(s, es, t, other, row, diff, sparse, emplace)
            && (if sparse && HasSparse in diff.addedFlags
                then MembersPlus(s, r, diff.added, es) && Extends(s, r) && MarkedNew(s, r, diff.added, es)
                else r.members == s.members && r.records == s.records)
  {
    var es := Rows(s, t, row, count);
    var stores := sparse && HasSparse in diff.addedFlags;
    var stored := if stores then AddIds(s, diff.added, es, emplace) else s;
    var items := if stores then AddedItems(s, diff.added, es, emplace, |diff.added|) else [];
    AnyNewEmits(s, diff.added, es);
    assert stored.trace == s.trace + items by { AddIdsItems(s, diff.added, es, emplace); }
    Appends(s.trace, items, [Emit(OnAdd, diff.added, es, t, other, row)]);
    if stores {
      AddIdsEffect(s, diff.added, es, emplace);
      StockedKeeps(s, stored, Stocked(s, t, other, row, count, diff, sparse, emplace), diff.added, es);
    }
  }

  /** Only the end of the trace is added to. */
  lemma StockedKeeps(s: State, a: State, r: State, ids: seq<Id>, es: seq<Entity>)
    requires Extends(s, a) && MembersPlus(s, a, ids, es) && MarkedNew(s, a, ids, es)
    requires r == a.(trace := r.trace) && a.trace <= r.trace
    ensures Extends(s, r) && MembersPlus(s, r, ids, es) && MarkedNew(s, r, ids, es)
  {
    forall id ensures Members(r, id) == Members(a, id) {}
    forall e | e in s.records && e in r.records ensures MarkedAt(s, r, ids, es, e) {
      assert MarkedAt(s, a, ids, es, e);
    }
  }

  // ----- removals

  /** Whether a removal emits: the flags ask for it, or for the test that finds DontFragment instances. */
  ghost predicate RemoveEmits(s: State, es: seq<Entity>, removed: seq<Id>, flags: set<TableFlag>) {
    || HasOnRemove in flags
    || (HasDontFragment in flags && SomeRowHas(s, removed, es))
  }

  /** Some row has some DontFragment id. */
  ghost predicate SomeRowHas(s: State, ids: seq<Id>, es: seq<Entity>) {
    exists id, e :: id in ids && e in es && IsDontFragment(s, id) && e in Members(s, id)
  }

  /** First the event, then the items of the storage, if it is to be touched. */
  ghost function RemoveTrace(s: State, es: seq<Entity>, t: TableId, other: Option<TableId>, row: nat, removed: seq<Id>,
                             flags: set<TableFlag>): (items: seq<Item>)
  {
    (if RemoveEmits(s, es, removed, flags) then [Emit(OnRemove, removed, es, t, other, row)] else [])
    + (if HasSparse in flags then RemovedItems(s, removed, es, |removed|) else [])
  }

  /** For all flags: the exact trace and members that a removal leaves, and that it leaves all else alone. */
  lemma RemovedExactly(s: State, t: TableId, other: Option<TableId>, row: nat, count: nat, removed: seq<Id>,
                       flags: set<TableFlag>)
    requires HasRows(s, t, row, count)
    ensures var es, r := Rows(s, t, row, count), Removed(s, t, other, row, count, removed, flags);
            && r.comps == s.comps && r.list == s.list && r.tables == s.tables && r.records == s.records
            && r.trace == s.trace + RemoveTrace(s, es, t, other, row, removed, flags)
            && (if HasSparse in flags then MembersMinus(s, r, removed, es) else r.members == s.members)
  {
    var es := Rows(s, t, row, count);
    var event := if RemoveEmits(s, es, removed, flags) then [Emit(OnRemove, removed, es, t, other, row)] else [];
    var s1 := Log(s, event);
    assert s1 == if RemoveEmits(s, es, removed, flags) then Log(s, [Emit(OnRemove, removed, es, t, other, row)]) else s;
    var r := Removed(s, t, other, row, count, removed, flags);
    assert AnyStored(s, removed, es) <==> SomeRowHas(s, removed, es);
    assert r == if HasSparse in flags then RemoveIds(s1, removed, es) else s1;
    if HasSparse in flags {
      assert r.trace == s1.trace + RemovedItems(s, removed, es, |removed|) by {
        RemoveIdsItems(s1, removed, es);
        SameRemovedItems(s, s1, removed, es, |removed|);
      }
      Appends(s.trace, event, RemovedItems(s, removed, es, |removed|));
      RemoveIdsEffect(s1, removed, es);
      MinusKept(s, s1, r, removed, es);
    }
  }

  lemma MinusKept(s: State, s1: State, r: State, ids: seq<Id>, es: seq<Entity>)
    requires MembersMinus(s1, r, ids, es) && s1.members == s.members && s1.comps == s.comps
    ensures MembersMinus(s, r, ids, es)
  {
    forall id ensures Members(r, id) == if id in ids && IsSparse(s, id) then Members(s, id) - ToSet(es) else Members(s, id) {
      assert IsSparse(s1, id) == IsSparse(s, id) && Members(s1, id) == Members(s, id);
    }
  }

  // ----- every action

  /** What an action appends after its helper calls. */
  ghost function ActionItems(s: State, a: Action): (items: seq<Item>)
    requires Allowed(s, a)
  {
    if Adds(a) then AddTrace(s, Rows(s, a.t, a.row, a.count), a.t, OtherTable(a), a.row, a.diff, a.sparse, a.emplace)
    else if Removes(s, a)
    then RemoveTrace(s, Rows(s, a.t, a.row, a.count), a.t, OtherTable(a), a.row, a.diff.removed, a.diff.removedFlags)
    else
      match a
      case DoClear(e) => if e in s.records then AllCleared(s, s.list, e) else []
      case DoNotifyIds(t, row, count, ids) =>
        SetHooksOf(s, ids, Rows(s, t, row, count)) + OnSetEvents(s, t, row, count, ids)
      case DoNotify(t, row, id, invokeHook) =>
        (if invokeHook then SetHooks(s, id, Rows(s, t, row, 1)) else []) + OnSetEvents(s, t, row, 1, [id])
      case _ => []
  }

  /** The OnSet event of some rows: none without ids, and none unless the table has OnSet observers or some id
      is DontFragment. */
  ghost function OnSetEvents(s: State, t: TableId, row: nat, count: nat, ids: seq<Id>): (items: seq<Item>)
    requires HasRows(s, t, row, count)
  {
    if ids != [] && (HasOnSet in s.tables[t].flags || exists id :: id in ids && IsDontFragment(s, id))
    then [Emit(OnSet, ids, Rows(s, t, row, count), t, None, row)]
    else []
  }

  lemma CoreTrace(s: State, a: Action)
    requires Inv(s) && Allowed(s, a)
    ensures Core(s, a).trace == s.trace + ActionItems(s, a)
  {
    if Adds(a) {
      StockedExactly(s, a.t, OtherTable(a), a.row, a.count, a.diff, a.sparse, a.emplace);
    } else if Removes(s, a) {
      RemovedExactly(s, a.t, OtherTable(a), a.row, a.count, a.diff.removed, a.diff.removedFlags);
    } else if a.DoClear? {
      if a.e in s.records {
        ClearStorage(s, a.e);
      }
    }
  }

  lemma {:induction false} SameAllCleared(s: State, r: State, ids: seq<Id>, e: Entity)
    requires r.comps == s.comps && r.members == s.members && r.records == s.records && e in s.records
    ensures AllCleared(r, ids, e) == AllCleared(s, ids, e)
  {
    if ids != [] {
      SameAllCleared(s, r, ids[..|ids| - 1], e);
    }
  }

  lemma SameRows(s: State, r: State, ids: seq<Id>, es: seq<Entity>)
    requires r.comps == s.comps && r.members == s.members
    ensures SomeRowLacks(r, ids, es) <==> SomeRowLacks(s, ids, es)
    ensures SomeRowHas(r, ids, es) <==> SomeRowHas(s, ids, es)
  {
    SameView(s, r);
  }

  lemma SameAddTrace(s: State, r: State, es: seq<Entity>, t: TableId, other: Option<TableId>, row: nat, diff: Diff,
                     sparse: bool, emplace: Id)
    requires r.comps == s.comps && r.members == s.members
    ensures AddTrace(r, es, t, other, row, diff, sparse, emplace) == AddTrace(s, es, t, other, row, diff, sparse, emplace)
  {
    SameAddedItems(s, r, diff.added, es, emplace, |diff.added|);
    assert AddEmits(r, es, diff, sparse) <==> AddEmits(s, es, diff, sparse) by { SameRows(s, r, diff.added, es); }
  }

  lemma SameRemoveTrace(s: State, r: State, es: seq<Entity>, t: TableId, other: Option<TableId>, row: nat, removed: seq<Id>,
                        flags: set<TableFlag>)
    requires r.comps == s.comps && r.members == s.members
    ensures RemoveTrace(r, es, t, other, row, removed, flags) == RemoveTrace(s, es, t, other, row, removed, flags)
  {
    SameRemovedItems(s, r, removed, es, |removed|);
    assert RemoveEmits(r, es, removed, flags) <==> RemoveEmits(s, es, removed, flags) by { SameRows(s, r, removed, es); }
  }

  /** What an action appends does not depend on the trace. */
  lemma SameActionItems(s: State, items: seq<Item>, a: Action)
    requires Busy(a) && Allowed(s, a) && Allowed(Log(s, items), a)
    ensures ActionItems(Log(s, items), a) == ActionItems(s, a)
  {
    var r, es := Log(s, items), Rows(s, a.t, a.row, a.count);
    if Adds(a) {
      SameAddTrace(s, r, es, a.t, OtherTable(a), a.row, a.diff, a.sparse, a.emplace);
    } else if Removes(s, a) {
      SameRemoveTrace(s, r, es, a.t, OtherTable(a), a.row, a.diff.removed, a.diff.removedFlags);
    }
  }

  /** The exact trace of every action: its helper calls, and then these items. */
  lemma ActionTrace(s: State, a: Action)
    requires Inv(s) && Allowed(s, a)
    ensures Apply(s, a).trace == s.trace + Prelude(s, a) + ActionItems(s, a)
  {
    var told := Prelude(s, a);
    PreludeRanked(s, a);
    InvLogs(s, told);
    ActionSplits(s, a);
    CoreTrace(Log(s, told), a);
    if Busy(a) {
      SameActionItems(s, told, a);
    } else {
      NoPrelude(s, a);
      LogNothing(s);
    }
  }

  // ----- the events

  /** The events among the items, in order. */
  function EmitsOf(items: seq<Item>): (events: seq<Item>) {
    if items == [] then []
    else EmitsOf(items[..|items| - 1]) + if items[|items| - 1].Emit? then [items[|items| - 1]] else []
  }

  lemma {:induction false} EmitsOfSum(a: seq<Item>, b: seq<Item>)
    ensures EmitsOf(a + b) == EmitsOf(a) + EmitsOf(b)
  {
    if b == [] {
      assert a + b == a;
    } else {
      var init, x := b[..|b| - 1], b[|b| - 1];
      EmitsOfSum(a, init);
      assert EmitsOf(a + b) == EmitsOf(a + init) + (if x.Emit? then [x] else []) by {
        assert (a + b)[..|a + b| - 1] == a + init && (a + b)[|a + b| - 1] == x;
      }
    }
  }

  lemma {:induction false} NoEmits(items: seq<Item>)
    requires forall k :: 0 <= k < |items| ==> !items[k].Emit?
    ensures EmitsOf(items) == []
  {
    if items != [] {
      NoEmits(items[..|items| - 1]);
    }
  }

  lemma OneEmit(item: Item)
    requires item.Emit?
    ensures EmitsOf([item]) == [item]
  {
    assert [item][..0] == [];
  }

  /** The events of clearing an entity: one for each record of the list that it is stored for, in list order,
      at the entity's place. */
  function ClearEvents(s: State, ids: seq<Id>, e: Entity): (events: seq<Item>)
    requires e in s.records
  {
    if ids == [] then []
    else
      var id, rec := ids[|ids| - 1], s.records[e];
      ClearEvents(s, ids[..|ids| - 1], e)
      + if Clears(s, id, e)
        then [Emit(OnRemove, [id], [e], rec.table, Some(rec.table), Encoding.RecordToRow(rec.word))]
        else []
  }

  /** The events of an action. */
  ghost function EventsOf(s: State, a: Action): (events: seq<Item>)
    requires Allowed(s, a)
  {
    if Adds(a) then
      if AddEmits(s, Rows(s, a.t, a.row, a.count), a.diff, a.sparse)
      then [Emit(OnAdd, a.diff.added, Rows(s, a.t, a.row, a.count), a.t, OtherTable(a), a.row)]
      else []
    else if Removes(s, a) then
      if RemoveEmits(s, Rows(s, a.t, a.row, a.count), a.diff.removed, a.diff.removedFlags)
      then [Emit(OnRemove, a.diff.removed, Rows(s, a.t, a.row, a.count), a.t, OtherTable(a), a.row)]
      else []
    else
      match a
      case DoClear(e) => if e in s.records then ClearEvents(s, s.list, e) else []
      case DoNotifyIds(t, row, count, ids) => OnSetEvents(s, t, row, count, ids)
      case DoNotify(t, row, id, _) => OnSetEvents(s, t, row, 1, [id])
      case _ => []
  }

  lemma {:induction false} ClearedEmits(s: State, ids: seq<Id>, e: Entity)
    requires e in s.records
    ensures EmitsOf(AllCleared(s, ids, e)) == ClearEvents(s, ids, e)
  {
    if ids != [] {
      var last := |ids| - 1;
      ClearedEmits(s, ids[..last], e);
      EmitsOfSum(AllCleared(s, ids[..last], e), OneCleared(s, ids[last], e));
      OneClearedEmits(s, ids[last], e);
    }
  }

  lemma OneClearedEmits(s: State, id: Id, e: Entity)
    requires e in s.records
    ensures var rec := s.records[e];
            EmitsOf(OneCleared(s, id, e)) ==
            if Clears(s, id, e)
            then [Emit(OnRemove, [id], [e], rec.table, Some(rec.table), Encoding.RecordToRow(rec.word))]
            else []
  {
    if Clears(s, id, e) {
      var c, rec := s.comps[id], s.records[e];
      var emit := Emit(OnRemove, [id], [e], rec.table, Some(rec.table), Encoding.RecordToRow(rec.word));
      var hook := if c.typed && c.onRemove then [Hook(OnRemove, id, [e])] else [];
      EmitsOfSum([emit] + hook, [Dropped(id, e)]);
      EmitsOfSum([emit], hook);
      OneEmit(emit);
      NoEmits(hook);
      NoEmits([Dropped(id, e)]);
    }
  }

  lemma AddTraceEmits(s: State, es: seq<Entity>, t: TableId, other: Option<TableId>, row: nat, diff: Diff, sparse: bool,
                      emplace: Id)
    ensures EmitsOf(AddTrace(s, es, t, other, row, diff, sparse, emplace)) ==
            if AddEmits(s, es, diff, sparse) then [Emit(OnAdd, diff.added, es, t, other, row)] else []
  {
    var items := if sparse && HasSparse in diff.addedFlags then AddedItems(s, diff.added, es, emplace, |diff.added|) else [];
    var event := if AddEmits(s, es, diff, sparse) then [Emit(OnAdd, diff.added, es, t, other, row)] else [];
    AddedItemsStorage(s, diff.added, es, emplace, |diff.added|);
    NoEmits(items);
    OneEmit(Emit(OnAdd, diff.added, es, t, other, row));
    EmitsOfSum(items, event);
  }

  lemma RemoveTraceEmits(s: State, es: seq<Entity>, t: TableId, other: Option<TableId>, row: nat, removed: seq<Id>,
                         flags: set<TableFlag>)
    ensures EmitsOf(RemoveTrace(s, es, t, other, row, removed, flags)) ==
            if RemoveEmits(s, es, removed, flags) then [Emit(OnRemove, removed, es, t, other, row)] else []
  {
    var items := if HasSparse in flags then RemovedItems(s, removed, es, |removed|) else [];
    var event := if RemoveEmits(s, es, removed, flags) then [Emit(OnRemove, removed, es, t, other, row)] else [];
    RemovedItemsStorage(s, removed, es, |removed|);
    NoEmits(items);
    OneEmit(Emit(OnRemove, removed, es, t, other, row));
    EmitsOfSum(event, items);
  }

  lemma OnSetEmits(s: State, hooks: seq<Item>, t: TableId, row: nat, count: nat, ids: seq<Id>)
    requires HasRows(s, t, row, count) && forall k :: 0 <= k < |hooks| ==> hooks[k].Hook?
    ensures EmitsOf(hooks + OnSetEvents(s, t, row, count, ids)) == OnSetEvents(s, t, row, count, ids)
  {
    NoEmits(hooks);
    OneEmit(Emit(OnSet, ids, Rows(s, t, row, count), t, None, row));
    EmitsOfSum(hooks, OnSetEvents(s, t, row, count, ids));
  }

  lemma ItemsEmits(s: State, a: Action)
    requires Allowed(s, a)
    ensures EmitsOf(ActionItems(s, a)) == EventsOf(s, a)
  {
    if Adds(a) {
      AddTraceEmits(s, Rows(s, a.t, a.row, a.count), a.t, OtherTable(a), a.row, a.diff, a.sparse, a.emplace);
    } else if Removes(s, a) {
      RemoveTraceEmits(s, Rows(s, a.t, a.row, a.count), a.t, OtherTable(a), a.row, a.diff.removed, a.diff.removedFlags);
    } else {
      match a
      case DoClear(e) =>
        if e in s.records {
          ClearedEmits(s, s.list, e);
        }
      case DoNotifyIds(t, row, count, ids) =>
        AllHooks(s, ids, Rows(s, t, row, count));
        OnSetEmits(s, SetHooksOf(s, ids, Rows(s, t, row, count)), t, row, count, ids);
      case DoNotify(t, row, id, invokeHook) =>
        OnSetEmits(s, if invokeHook then SetHooks(s, id, Rows(s, t, row, 1)) else [], t, row, 1, [id]);
      case _ =>
    }
  }

  /** Every action emits exactly these events, in this order, and no other. */
  lemma EventsExactly(s: State, a: Action)
    requires Inv(s) && Allowed(s, a)
    ensures EmitsOf(Apply(s, a).trace) == EmitsOf(s.trace) + EventsOf(s, a)
  {
    var told, items := Prelude(s, a), ActionItems(s, a);
    assert Apply(s, a).trace == s.trace + told + items by { ActionTrace(s, a); }
    assert EmitsOf(told) == [] by { PreludeSilent(s, a); }
    assert EmitsOf(items) == EventsOf(s, a) by { ItemsEmits(s, a); }
    EmitsOfParts(s.trace, told, items);
  }

  lemma PreludeSilent(s: State, a: Action)
    ensures EmitsOf(Prelude(s, a)) == []
  {
    PreludeRanked(s, a);
    NoEmits(Prelude(s, a));
  }

  lemma EmitsOfParts(a: seq<Item>, b: seq<Item>, c: seq<Item>)
    requires EmitsOf(b) == []
    ensures EmitsOf(a + b + c) == EmitsOf(a) + EmitsOf(c)
  {
    EmitsOfSum(a, b);
    EmitsOfSum(a + b, c);
  }

  /** The entities of an event are those of its table, from its row on. */
  ghost predicate NamesRows(s: State, item: Item) {
    && item.Emit? && item.table in s.tables
    && (var all, n := s.tables[item.table].entities, |item.entities|;
        item.row + n <= |all| && item.entities == all[item.row..item.row + n])
  }

  /** Every event of every action, whatever it is about, names its rows rightly. */
  lemma EventsNameRows(s: State, a: Action)
    requires Inv(s) && Allowed(s, a)
    ensures forall k :: 0 <= k < |EventsOf(s, a)| ==> NamesRows(s, EventsOf(s, a)[k])
  {
    if a.DoClear? {
      if a.e in s.records {
        ClearEventsNameRows(s, s.list, a.e);
      }
    } else {
      assert |EventsOf(s, a)| <= 1;
    }
  }

  lemma {:induction false} ClearEventsNameRows(s: State, ids: seq<Id>, e: Entity)
    requires Inv(s) && e in s.records
    ensures forall k :: 0 <= k < |ClearEvents(s, ids, e)| ==> NamesRows(s, ClearEvents(s, ids, e)[k])
  {
    if ids != [] {
      ClearEventsNameRows(s, ids[..|ids| - 1], e);
      var rec := s.records[e];
      var row := Encoding.RecordToRow(rec.word);
      assert RecordAgrees(s.tables, s.records, e);
      assert Rows(s, rec.table, row, 1) == [e];
    }
  }
}
