/** Whole runs: sequences of engine actions, with components being registered and entities being
    created, moved and deleted in between, from an empty world. */
module Runs {
  import opened ActionModel
  import opened ActionEffects
  import opened Clearing
  import opened Traces
  import Encoding

  // ----- the invariant

  /** Records and tables agree on who is where. */
  ghost predicate Agree(tables: map<TableId, Table>, records: map<Entity, Record>) {
    && (forall e :: e in records ==> RecordAgrees(tables, records, e))
    && (forall t, k :: t in tables && 0 <= k < |tables[t].entities| ==>
          var e := tables[t].entities[k];
          e in records && records[e].table == t && Encoding.RecordToRow(records[e].word) == k)
  }

  ghost predicate RecordAgrees(tables: map<TableId, Table>, records: map<Entity, Record>, e: Entity)
    requires e in records
  {
    var t, row := records[e].table, Encoding.RecordToRow(records[e].word);
    t in tables && row < |tables[t].entities| && tables[t].entities[row] == e
  }

  /** Every DontFragment record is sparse and in the list. */
  ghost predicate Listed(comps: map<Id, Comp>, list: seq<Id>) {
    forall id :: id in comps && comps[id].dontFragment ==> comps[id].sparse && id in list
  }

  ghost predicate WellFormed(s: State) {
    && ListSound(s)
    && Listed(s.comps, s.list)
    && Agree(s.tables, s.records)
    && (forall id, e :: e in Members(s, id) ==> Known(s, id, e))
  }

  ghost predicate Known(s: State, id: Id, e: Entity) { IsSparse(s, id) && e in s.records }

  ghost predicate Inv(s: State) {
    WellFormed(s) && MarkedWhereStored(s) && Sound(s)
  }

  /** States with the same parts look the same. */
  lemma SameView(s: State, r: State)
    ensures r.comps == s.comps ==>
              forall id {:trigger IsDontFragment(r, id)} {:trigger IsSparse(r, id)} ::
                IsDontFragment(r, id) == IsDontFragment(s, id) && IsSparse(r, id) == IsSparse(s, id)
    ensures r.members == s.members ==> forall id {:trigger Members(r, id)} :: Members(r, id) == Members(s, id)
    ensures r.records == s.records ==> forall e {:trigger Marked(r, e)} :: Marked(r, e) == Marked(s, e)
  {}

  lemma SameStored(s: State, r: State, ids: seq<Id>, es: seq<Entity>)
    requires r.comps == s.comps && r.members == s.members
    ensures AnyStored(r, ids, es) <==> AnyStored(s, ids, es)
  {
    SameView(s, r);
  }

  // ----- steps that only log

  lemma WellFormedLog(s: State, item: Item)
    requires WellFormed(s) && MarkedWhereStored(s)
    ensures WellFormed(Log(s, [item])) && MarkedWhereStored(Log(s, [item]))
  {
    var r := Log(s, [item]);
    SameView(s, r);
    forall id, e | e in Members(r, id) ensures Known(r, id, e) {
      assert Known(s, id, e);
    }
  }

  lemma InvLog(s: State, item: Item)
    requires Inv(s) && Neutral(item)
    ensures Inv(Log(s, [item]))
  {
    WellFormedLog(s, item);
    SoundLog(s, item);
  }

  lemma {:induction false} InvLogs(s: State, items: seq<Item>)
    requires Inv(s) && forall k :: 0 <= k < |items| ==> Neutral(items[k])
    ensures Inv(Log(s, items))
  {
    if items == [] {
      assert s.trace + [] == s.trace;
    } else {
      var last := |items| - 1;
      InvLogs(s, items[..last]);
      InvLog(Log(s, items[..last]), items[last]);
      assert s.trace + items == s.trace + items[..last] + [items[last]];
    }
  }

  // ----- adding

  lemma RowsRecorded(s: State, t: TableId, row: nat, count: nat)
    requires Agree(s.tables, s.records) && HasRows(s, t, row, count)
    ensures forall e :: e in Rows(s, t, row, count) ==> e in s.records
  {}

  lemma AgreeAfterAdd(s: State, r: State, ids: seq<Id>, es: seq<Entity>)
    requires Agree(s.tables, s.records) && Extends(s, r) && MarkedNew(s, r, ids, es)
    ensures Agree(r.tables, r.records)
  {
    forall e | e in s.records ensures Encoding.RecordToRow(r.records[e].word) == Encoding.RecordToRow(s.records[e].word) {
      Encoding.DontFragmentWrites(s.records[e].word);
    }
    forall e | e in r.records ensures RecordAgrees(r.tables, r.records, e) {
      assert RecordAgrees(s.tables, s.records, e);
    }
  }

  lemma WellFormedAfterAdd(s: State, r: State, ids: seq<Id>, es: seq<Entity>)
    requires WellFormed(s) && Extends(s, r) && MembersPlus(s, r, ids, es) && MarkedNew(s, r, ids, es)
    requires forall e :: e in es ==> e in s.records
    ensures WellFormed(r)
  {
    AgreeAfterAdd(s, r, ids, es);
    forall id, e | e in Members(r, id) ensures Known(r, id, e) {
      if e in Members(s, id) {
        assert Known(s, id, e);
      }
    }
  }

  lemma MarkedAfterAdd(s: State, r: State, ids: seq<Id>, es: seq<Entity>)
    requires WellFormed(s) && MarkedWhereStored(s)
    requires Extends(s, r) && MembersPlus(s, r, ids, es) && MarkedNew(s, r, ids, es)
    requires forall e :: e in es ==> e in s.records
    ensures MarkedWhereStored(r)
  {
    SameView(s, r);
    forall id, e | IsDontFragment(r, id) && !r.comps[id].wildcard && e in Members(r, id) ensures Marked(r, e) {
      if e in Members(s, id) {
        assert Known(s, id, e) && Marked(s, e);
      } else {
        assert id in ids && e in es && NewFor(s, id, e);
      }
      Encoding.DontFragmentWrites(s.records[e].word);
    }
  }

  lemma InvAdded(s: State, t: TableId, other: Option<TableId>, row: nat, count: nat, diff: Diff, sparse: bool, emplace: Id)
    requires Inv(s) && HasRows(s, t, row, count)
    ensures Inv(Added(s, t, other, row, count, diff, sparse, emplace))
  {
    if diff.addedFlags != {} {
      var es := Rows(s, t, row, count);
      var s1 := s;
      if EdgeReparent in diff.addedFlags {
        InvLog(s, Told(ReparentNames, t, other, row, count));
        s1 := Tell(s, ReparentNames, t, other, row, count);
        InvLog(s1, Told(ReparentOrdered, t, other, row, count));
        s1 := Tell(s1, ReparentOrdered, t, other, row, count);
        InvLog(s1, Told(ReparentChildOf, t, other, row, count));
        s1 := Tell(s1, ReparentChildOf, t, other, row, count);
      }
      RowsRecorded(s, t, row, count);
      var item := Emit(OnAdd, diff.added, es, t, other, row);
      if sparse && HasSparse in diff.addedFlags {
        InvAddIds(s1, diff.added, es, emplace);
        InvLog(AddIds(s1, diff.added, es, emplace), item);
      } else {
        InvLog(s1, item);
      }
    }
  }

  lemma InvAddIds(s: State, ids: seq<Id>, es: seq<Entity>, emplace: Id)
    requires Inv(s) && forall e :: e in es ==> e in s.records
    ensures Inv(AddIds(s, ids, es, emplace))
  {
    var r := AddIds(s, ids, es, emplace);
    AddIdsEffect(s, ids, es, emplace);
    SoundAddIds(s, ids, es, emplace);
    WellFormedAfterAdd(s, r, ids, es);
    MarkedAfterAdd(s, r, ids, es);
  }

  // ----- removing

  lemma InvRemoved(s: State, t: TableId, other: Option<TableId>, row: nat, count: nat, removed: seq<Id>, flags: set<TableFlag>)
    requires Inv(s) && HasRows(s, t, row, count)
    ensures Inv(Removed(s, t, other, row, count, removed, flags))
  {
    var es := Rows(s, t, row, count);
    var item := Emit(OnRemove, removed, es, t, other, row);
    InvLog(s, item);
    InvRemoveIds(s, removed, es);
    InvRemoveIds(Log(s, [item]), removed, es);
  }

  lemma InvRemoveIds(s: State, ids: seq<Id>, es: seq<Entity>)
    requires Inv(s)
    ensures Inv(RemoveIds(s, ids, es))
  {
    RemoveIdsEffect(s, ids, es);
    SoundRemoveIds(s, ids, es);
    var r := RemoveIds(s, ids, es);
    SameView(s, r);
    forall id, e | e in Members(r, id) ensures Known(r, id, e) {
      assert e in Members(s, id) && Known(s, id, e);
    }
    forall e | e in r.records ensures RecordAgrees(r.tables, r.records, e) {
      assert RecordAgrees(s.tables, s.records, e);
    }
  }

  // ----- clearing

  lemma InvRemoveOne(s: State, id: Id, e: Entity)
    requires Inv(s)
    ensures Inv(RemoveOne(s, id, e))
  {
    var r := RemoveOne(s, id, e);
    SoundRemoveOne(s, id, e);
    SameView(s, r);
    assert e in Members(s, id) ==> Known(s, id, e);
    if IsSparse(s, id) {
      RemoveOneEffect(s, id, e);
    }
    forall x, y | y in Members(r, x) ensures Known(r, x, y) {
      assert y in Members(s, x) && Known(s, x, y);
    }
    forall x | x in r.records ensures RecordAgrees(r.tables, r.records, x) {
      assert RecordAgrees(s.tables, s.records, x);
    }
  }

  lemma {:induction false} InvClearList(s: State, ids: seq<Id>, e: Entity)
    requires Inv(s) && e in s.records
    ensures Inv(ClearList(s, ids, e))
  {
    if ids != [] {
      var last := |ids| - 1;
      var id, r0 := ids[last], ClearList(s, ids[..last], e);
      InvClearList(s, ids[..last], e);
      if Clears(r0, id, e) {
        var rec := r0.records[e];
        var item := Emit(OnRemove, [id], [e], rec.table, Some(rec.table), Encoding.RecordToRow(rec.word));
        InvLog(r0, item);
        InvRemoveOne(Log(r0, [item]), id, e);
      }
    }
  }

  /** Clearing the bit of an entity without DontFragment instances. */
  lemma InvUnmark(s: State, e: Entity)
    requires Inv(s) && e in s.records
    requires forall id :: IsDontFragment(s, id) && !s.comps[id].wildcard ==> e !in Members(s, id)
    ensures Inv(Unmark(s, e))
  {
    var r := Unmark(s, e);
    Encoding.DontFragmentWrites(s.records[e].word);
    SameView(s, r);
    forall x, y | y in Members(r, x) ensures Known(r, x, y) {
      assert y in Members(s, x) && Known(s, x, y);
    }
    forall x | x in r.records ensures RecordAgrees(r.tables, r.records, x) {
      assert RecordAgrees(s.tables, s.records, x);
    }
    forall id, x | IsDontFragment(r, id) && !r.comps[id].wildcard && x in Members(r, id) ensures Marked(r, x) {
      assert IsDontFragment(s, id) && x in Members(s, id) && Marked(s, x);
    }
    assert Sound(r);
  }

  lemma InvClear(s: State, e: Entity)
    requires Inv(s)
    ensures Inv(Clear(s, e))
  {
    if Marked(s, e) {
      var r := ClearList(s, s.list, e);
      InvClearList(s, s.list, e);
      ClearListEffect(s, s.list, e);
      SameView(s, r);
      InvUnmark(r, e);
    }
  }

  // ----- whole runs

  datatype Action =
    | DoNew(t: TableId, row: nat, count: nat, diff: Diff, sparse: bool, emplace: Id)
    | DoMoveAdd(t: TableId, other: Option<TableId>, row: nat, count: nat, diff: Diff, sparse: bool, emplace: Id, updateParents: bool)
    | DoMoveRemove(t: TableId, other: Option<TableId>, row: nat, count: nat, diff: Diff, fini: bool)
    | DoDeleteTree(t: TableId, row: nat, count: nat, diff: Diff)
    | DoClear(e: Entity)
    | DoNotifyIds(t: TableId, row: nat, count: nat, ids: seq<Id>)
    | DoNotify(t: TableId, row: nat, id: Id, invokeHook: bool)
    | DoRegister(id: Id, c: Comp)
    | DoPlace(tables: map<TableId, Table>, records: map<Entity, Record>)

  /** Entities may be created, moved between tables and rows, and deleted, by code that keeps
      records and tables in agreement, keeps the DontFragment bit of entities that stay, and
      deletes an entity only once it is out of every sparse set. */
  ghost predicate Placeable(s: State, tables: map<TableId, Table>, records: map<Entity, Record>) {
    && Agree(tables, records)
    && (forall e :: e in s.records && e in records ==>
          (Encoding.HasDontFragment(records[e].word) <==> Encoding.HasDontFragment(s.records[e].word)))
    && (forall id, e :: e in Members(s, id) ==> e in records)
  }

  ghost predicate Allowed(s: State, a: Action) {
    match a
    case DoNew(t, row, count, _, _, _) => HasRows(s, t, row, count)
    case DoMoveAdd(t, _, row, count, _, _, _, _) => HasRows(s, t, row, count)
    case DoMoveRemove(t, _, row, count, diff, _) => HasRows(s, t, row, count)
    case DoDeleteTree(t, row, count, diff) => HasRows(s, t, row, count)
    case DoClear(_) => true
    case DoNotifyIds(t, row, count, ids) => HasRows(s, t, row, count) && forall id :: id in ids ==> id in s.comps
    case DoNotify(t, row, id, _) => HasRows(s, t, row, 1) && id in s.comps
    case DoRegister(id, c) => id !in s.comps && id !in s.members && (c.dontFragment ==> c.sparse)
    case DoPlace(tables, records) => Placeable(s, tables, records)
  }

  ghost function Apply(s: State, a: Action): (r: State)
    requires Allowed(s, a)
  {
    match a
    case DoNew(t, row, count, diff, sparse, emplace) => New(s, t, row, count, diff, sparse, emplace)
    case DoMoveAdd(t, other, row, count, diff, sparse, emplace, updateParents) =>
      MoveAdd(s, t, other, row, count, diff, sparse, emplace, updateParents)
    case DoMoveRemove(t, other, row, count, diff, fini) => MoveRemove(s, t, other, row, count, diff, fini)
    case DoDeleteTree(t, row, count, diff) => DeleteTree(s, t, row, count, diff)
    case DoClear(e) => Clear(s, e)
    case DoNotifyIds(t, row, count, ids) => NotifyIds(s, t, row, count, ids)
    case DoNotify(t, row, id, invokeHook) => NotifyOne(s, t, row, id, invokeHook)
    case DoRegister(id, c) => Registered(s, id, c)
    case DoPlace(tables, records) => s.(tables := tables, records := records)
  }

  const EMPTY: State := State(map[], [], map[], map[], map[], [])

  /** `r` is reached from the empty world by the given actions, each allowed when it ran. */
  ghost predicate Reaches(actions: seq<Action>, r: State) {
    if actions == [] then r == EMPTY
    else
      var last := |actions| - 1;
      exists s :: Reaches(actions[..last], s) && Allowed(s, actions[last]) && r == Apply(s, actions[last])
  }

  lemma RunGoesOn(actions: seq<Action>, s: State, a: Action)
    requires Reaches(actions, s) && Allowed(s, a)
    ensures Reaches(actions + [a], Apply(s, a))
  {
    assert (actions + [a])[..|actions|] == actions;
  }

  lemma InvInvalidated(s: State, t: TableId, row: nat, count: nat)
    requires Inv(s) && t in s.tables
    ensures Inv(Invalidated(s, t, row, count))
  {
    InvLog(s, Told(PropagateInvalidate, t, None, row, count));
  }

  lemma InvUnparented(s: State, t: TableId, other: Option<TableId>, row: nat, count: nat, flags: set<TableFlag>)
    requires Inv(s)
    ensures Inv(Unparented(s, t, other, row, count, flags))
  {
    InvLog(s, Told(UnparentNames, t, other, row, count));
    var s1 := if EdgeReparent in flags && other.Some? then Tell(s, UnparentNames, t, other, row, count) else s;
    InvLog(s1, Told(UnparentChildOf, t, other, row, count));
    var s2 := if EdgeReparent in flags then Tell(s1, UnparentChildOf, t, other, row, count) else s1;
    InvLog(s2, Told(UnparentOrdered, t, other, row, count));
  }

  lemma InvRemovedWithParent(s: State, t: TableId, other: Option<TableId>, row: nat, count: nat, diff: Diff, fini: bool)
    requires Inv(s) && HasRows(s, t, row, count)
    ensures Inv(RemovedWithParent(s, t, other, row, count, diff, fini))
  {
    InvUnparented(s, t, other, row, count, diff.removedFlags);
    var s1 := Unparented(s, t, other, row, count, diff.removedFlags);
    SameView(s, s1);
    InvRemoved(s, t, other, row, count, diff.removed, diff.removedFlags);
    InvRemoved(s1, t, other, row, count, diff.removed, diff.removedFlags);
  }

  lemma InvMoveRemove(s: State, t: TableId, other: Option<TableId>, row: nat, count: nat, diff: Diff, fini: bool)
    requires Inv(s) && HasRows(s, t, row, count)
    ensures Inv(MoveRemove(s, t, other, row, count, diff, fini))
  {
    if diff.removed != [] {
      InvInvalidated(s, t, row, count);
      var s1 := Invalidated(s, t, row, count);
      var helper := ChildMoveRemove(!(diff.added != [] && HasTableFlag(s, other, HasParent)));
      InvLog(s1, Told(helper, t, other, row, count));
      var s2 := if HasParent in s.tables[t].flags then Tell(s1, helper, t, other, row, count) else s1;
      SameView(s, s2);
      InvRemovedWithParent(s2, t, other, row, count, diff, fini);
    }
  }

  lemma InvMoveAdd(s: State, t: TableId, other: Option<TableId>, row: nat, count: nat, diff: Diff,
                   sparse: bool, emplace: Id, updateParents: bool)
    requires Inv(s) && HasRows(s, t, row, count)
    ensures Inv(MoveAdd(s, t, other, row, count, diff, sparse, emplace, updateParents))
  {
    if diff.added != [] {
      InvInvalidated(s, t, row, count);
      var s1 := Invalidated(s, t, row, count);
      InvLog(s1, Told(ChildMoveAdd, t, other, row, count));
      var s2 := if updateParents && HasParent in s.tables[t].flags
                then Tell(s1, ChildMoveAdd, t, other, row, count) else s1;
      InvAdded(s2, t, other, row, count, diff, sparse, emplace);
    }
  }

  lemma InvDeleteTree(s: State, t: TableId, row: nat, count: nat, diff: Diff)
    requires Inv(s) && HasRows(s, t, row, count)
    ensures Inv(DeleteTree(s, t, row, count, diff))
  {
    InvInvalidated(s, t, row, count);
    var s1 := Invalidated(s, t, row, count);
    SameView(s, s1);
    InvRemoved(s1, t, None, row, count, diff.removed, diff.removedFlags);
  }

  lemma InvRegistered(s: State, id: Id, c: Comp)
    requires Inv(s) && id !in s.comps && id !in s.members && (c.dontFragment ==> c.sparse)
    ensures Inv(Registered(s, id, c))
  {
    var r := Registered(s, id, c);
    assert forall x :: Members(r, x) == Members(s, x);
    forall x, y | y in Members(r, x) ensures Known(r, x, y) {
      assert Known(s, x, y);
    }
    forall x, y | IsDontFragment(r, x) && !r.comps[x].wildcard && y in Members(r, x) ensures Marked(r, y) {
      assert Known(s, x, y) && Marked(s, y);
    }
    assert id !in s.list;
  }

  lemma InvPlaced(s: State, tables: map<TableId, Table>, records: map<Entity, Record>)
    requires Inv(s) && Placeable(s, tables, records)
    ensures Inv(s.(tables := tables, records := records))
  {
    var r := s.(tables := tables, records := records);
    SameView(s, r);
    forall x, y | y in Members(r, x) ensures Known(r, x, y) {
      assert y in Members(s, x) && Known(s, x, y);
    }
    forall x, y | IsDontFragment(r, x) && !r.comps[x].wildcard && y in Members(r, x) ensures Marked(r, y) {
      assert y in Members(s, x) && Known(s, x, y) && Marked(s, y);
    }
    assert Sound(r);
  }

  lemma InvApply(s: State, a: Action)
    requires Inv(s) && Allowed(s, a)
    ensures Inv(Apply(s, a))
  {
    match a
    case DoNew(t, row, count, diff, sparse, emplace) => InvAdded(s, t, None, row, count, diff, sparse, emplace);
    case DoMoveAdd(t, other, row, count, diff, sparse, emplace, updateParents) =>
      InvMoveAdd(s, t, other, row, count, diff, sparse, emplace, updateParents);
    case DoMoveRemove(t, other, row, count, diff, fini) => InvMoveRemove(s, t, other, row, count, diff, fini);
    case DoDeleteTree(t, row, count, diff) => InvDeleteTree(s, t, row, count, diff);
    case DoClear(e) => InvClear(s, e);
    case DoNotifyIds(t, row, count, ids) =>
      var es := Rows(s, t, row, count);
      AllHooks(s, ids, es);
      InvLogs(s, SetHooksOf(s, ids, es) + SetEvent(s, t, row, es, ids));
    case DoNotify(t, row, id, invokeHook) =>
      var es := Rows(s, t, row, 1);
      InvLogs(s, (if invokeHook then SetHooks(s, id, es) else []) + SetEvent(s, t, row, es, [id]));
    case DoRegister(id, c) => InvRegistered(s, id, c);
    case DoPlace(tables, records) => InvPlaced(s, tables, records);
  }

  /** Every reachable state keeps the invariant. */
  lemma {:induction false} RunsKeepInvariant(actions: seq<Action>, r: State)
    requires Reaches(actions, r)
    ensures Inv(r)
  {
    if actions == [] {
      assert Agree(EMPTY.tables, EMPTY.records);
    } else {
      var last := |actions| - 1;
      var s :| Reaches(actions[..last], s) && Allowed(s, actions[last]) && r == Apply(s, actions[last]);
      RunsKeepInvariant(actions[..last], s);
      InvApply(s, actions[last]);
    }
  }

  /** In every whole run, wherever a DontFragment component that is not a wildcard is stored for an
      entity, the entity's record has the bit, though no removal ever clears it. */
  lemma BitWhereStored(actions: seq<Action>, r: State, id: Id, e: Entity)
    requires Reaches(actions, r) && IsDontFragment(r, id) && !r.comps[id].wildcard && e in Members(r, id)
    ensures Marked(r, e)
  {
    RunsKeepInvariant(actions, r);
  }
}
