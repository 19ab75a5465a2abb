/** The fast path that leaves out the walk over a table's columns, against the actions on the table:
    exactly when there was nothing to do. */
module ColumnWalk {
  import opened ActionModel
  import opened ActionEffects
  import opened Traces
  import opened Runs
  import opened HelperOrder
  import opened Laws
  import opened Events
  import Encoding

  /** `flecs_table_can_skip_column_walk` */
  predicate CanSkip(flags: set<TableFlag>) {
    if flags * {HasCtors, HasDtors, HasToggle, HasSparse} != {} then false
    else if flags * {HasOnAdd, HasOnRemove, HasOnSet, HasOnTableCreate, HasOnTableDelete} != {} then false
    else if HasIsA in flags then false
    else if HasTraversable in flags then false
    else true
  }

  /** The flags that refuse a table, one by one. */
  const REFUSED: set<TableFlag> :=
    {HasCtors, HasDtors, HasToggle, HasSparse, HasOnAdd, HasOnRemove, HasOnSet, HasOnTableCreate, HasOnTableDelete,
     HasIsA, HasTraversable}

  /** A table is accepted if and only if none of its flags refuses it; so a single flag refuses it or does not
      whatever the others are, and a union of flags is accepted if and only if both parts are. */
  lemma SkipByFlag(flags: set<TableFlag>, more: set<TableFlag>)
    ensures CanSkip(flags) <==> forall f :: f in flags ==> f !in REFUSED
    ensures forall f :: CanSkip({f}) <==> f !in REFUSED
    ensures CanSkip(flags + more) <==> CanSkip(flags) && CanSkip(more)
  {
    RefusedFlags(flags);
    RefusedFlags(more);
    RefusedFlags(flags + more);
    forall f ensures CanSkip({f}) <==> f !in REFUSED {
      RefusedFlags({f});
    }
  }

  lemma RefusedFlags(flags: set<TableFlag>)
    ensures CanSkip(flags) <==> forall f :: f in flags ==> f !in REFUSED
  {
    var complex, events := {HasCtors, HasDtors, HasToggle, HasSparse},
                           {HasOnAdd, HasOnRemove, HasOnSet, HasOnTableCreate, HasOnTableDelete};
    assert REFUSED == complex + events + {HasIsA, HasTraversable};
    assert flags * complex == {} <==> forall f :: f in complex ==> f !in flags;
    assert flags * events == {} <==> forall f :: f in events ==> f !in flags;
  }

  /** Setting on an accepted table emits if and only if some id is DontFragment. */
  lemma SkipSet(s: State, t: TableId, row: nat, count: nat, ids: seq<Id>)
    requires Inv(s) && HasRows(s, t, row, count) && (forall id :: id in ids ==> id in s.comps) && CanSkip(s.tables[t].flags)
    ensures EmitsOf(NotifyIds(s, t, row, count, ids).trace) == EmitsOf(s.trace) +
            if exists id :: id in ids && IsDontFragment(s, id)
            then [Emit(OnSet, ids, Rows(s, t, row, count), t, None, row)]
            else []
  {
    RefusedFlags(s.tables[t].flags);
    EventsExactly(s, DoNotifyIds(t, row, count, ids));
  }

  /** No storage changed and nothing but helper indices was told. */
  ghost predicate Quiet(s: State, r: State) {
    && r.members == s.members && r.records == s.records && s.trace <= r.trace
    && forall k :: |s.trace| <= k < |r.trace| ==> r.trace[k].Told?
  }

  /** Nothing happened at all. */
  ghost predicate Idle(s: State, r: State) {
    r.members == s.members && r.records == s.records && r.trace == s.trace
  }

  // ----- adds

  /** Some row lacks some sparse id, or its on_add hook runs although the row has it. */
  ghost predicate AnyWork(s: State, ids: seq<Id>, es: seq<Entity>, emplace: Id) {
    exists id, e :: id in ids && e in es && IsSparse(s, id) && (e !in Members(s, id) || HooksAgain(s, id, emplace))
  }

  lemma AddIdsIdle(s: State, ids: seq<Id>, es: seq<Entity>, emplace: Id)
    ensures Idle(s, AddIds(s, ids, es, emplace)) <==> !AnyWork(s, ids, es, emplace)
  {
    var r := AddIds(s, ids, es, emplace);
    if id, e :| id in ids && e in es && IsSparse(s, id) && e !in Members(s, id) {
      AddIdsEffect(s, ids, es, emplace);
      assert e in ToSet(es) && e in Members(r, id);
    } else {
      AddIdsAgain(s, ids, es, emplace);
      NoneHooksAgain(s, ids, es, emplace);
      assert es != [] ==> es[0] in es;
      assert Idle(s, r) <==> AgainIds(s, ids, es, emplace) == [];
    }
  }

  /** Whether an add has nothing to store, to hook or to emit. */
  ghost predicate NothingToAdd(s: State, es: seq<Entity>, diff: Diff, sparse: bool, emplace: Id) {
    && HasOnAdd !in diff.addedFlags && HasTraversable !in diff.addedFlags
    && !(sparse && HasSparse in diff.addedFlags && AnyWork(s, diff.added, es, emplace))
  }

  lemma StockedIdle(s: State, t: TableId, other: Option<TableId>, row: nat, count: nat, diff: Diff, sparse: bool, emplace: Id)
    requires Sound(s) && HasRows(s, t, row, count)
    ensures Idle(s, Stocked(s, t, other, row, count, diff, sparse, emplace)) <==>
            NothingToAdd(s, Rows(s, t, row, count), diff, sparse, emplace)
  {
    var es := Rows(s, t, row, count);
    AddIdsIdle(s, diff.added, es, emplace);
    SoundAddIds(s, diff.added, es, emplace);
    NewIsWork(s, diff.added, es, emplace);
  }

  lemma NewIsWork(s: State, ids: seq<Id>, es: seq<Entity>, emplace: Id)
    ensures AnyNew(s, ids, es) ==> AnyWork(s, ids, es, emplace)
  {
    if AnyNew(s, ids, es) {
      var id, e :| id in ids && e in es && NewFor(s, id, e);
      assert IsSparse(s, id) && e !in Members(s, id);
    }
  }

  // ----- removals

  /** Some row has some sparse id. */
  ghost predicate AnySparse(s: State, ids: seq<Id>, es: seq<Entity>) {
    exists id, e :: id in ids && e in es && IsSparse(s, id) && e in Members(s, id)
  }

  lemma RemoveIdsIdle(s: State, ids: seq<Id>, es: seq<Entity>)
    requires Sound(s)
    ensures Idle(s, RemoveIds(s, ids, es)) <==> !AnySparse(s, ids, es)
  {
    var r := RemoveIds(s, ids, es);
    RemoveIdsEffect(s, ids, es);
    if AnySparse(s, ids, es) {
      var id, e :| id in ids && e in es && IsSparse(s, id) && e in Members(s, id);
      assert e in ToSet(es) && e !in Members(r, id);
    } else {
      RemoveNothing(s, ids, es);
    }
  }

  lemma {:induction false} RemoveNothing(s: State, ids: seq<Id>, es: seq<Entity>)
    requires !AnySparse(s, ids, es)
    ensures RemoveIds(s, ids, es) == s
  {
    if ids != [] {
      var last := |ids| - 1;
      assert forall x :: x in ids[..last] ==> x in ids;
      RemoveNothing(s, ids[..last], es);
      assert ids[last] in ids;
      if IsSparse(s, ids[last]) {
        RemoveNoRow(s, ids[last], es);
      }
    }
  }

  lemma {:induction false} RemoveNoRow(s: State, id: Id, es: seq<Entity>)
    requires forall e :: e in es ==> e !in Members(s, id)
    ensures RemoveRows(s, id, es) == s
  {
    if es != [] {
      RemoveNoRow(s, id, es[..|es| - 1]);
      assert es[|es| - 1] in es;
    }
  }

  /** Whether a removal has nothing to drop and nothing to emit. */
  ghost predicate NothingToRemove(s: State, es: seq<Entity>, removed: seq<Id>, flags: set<TableFlag>) {
    && HasOnRemove !in flags
    && !(HasDontFragment in flags && AnyStored(s, removed, es))
    && !(HasSparse in flags && AnySparse(s, removed, es))
  }

  lemma RemovedIdle(s: State, t: TableId, other: Option<TableId>, row: nat, count: nat, removed: seq<Id>,
                    flags: set<TableFlag>)
    requires Sound(s) && HasRows(s, t, row, count)
    ensures Idle(s, Removed(s, t, other, row, count, removed, flags)) <==>
            NothingToRemove(s, Rows(s, t, row, count), removed, flags)
  {
    var es := Rows(s, t, row, count);
    var item := Emit(OnRemove, removed, es, t, other, row);
    SoundLog(s, item);
    RemoveIdsIdle(s, removed, es);
    SoundRemoveIds(Log(s, [item]), removed, es);
  }

  // ----- the actions

  /** Whether an action that a diff describes has nothing to do but to tell its helpers. */
  ghost predicate Nothing(s: State, a: Action)
    requires Allowed(s, a)
  {
    && (Adds(a) ==> NothingToAdd(s, Rows(s, a.t, a.row, a.count), a.diff, a.sparse, a.emplace))
    && (Removes(s, a) ==> NothingToRemove(s, Rows(s, a.t, a.row, a.count), a.diff.removed, a.diff.removedFlags))
  }

  ghost predicate HasDiff(a: Action) { a.DoNew? || a.DoMoveAdd? || a.DoMoveRemove? || a.DoDeleteTree? }

  lemma CoreIdle(s: State, a: Action)
    requires Sound(s) && Allowed(s, a) && HasDiff(a)
    ensures Idle(s, Core(s, a)) <==> Nothing(s, a)
  {
    if Adds(a) {
      StockedIdle(s, a.t, OtherTable(a), a.row, a.count, a.diff, a.sparse, a.emplace);
    } else if Removes(s, a) {
      RemovedIdle(s, a.t, OtherTable(a), a.row, a.count, a.diff.removed, a.diff.removedFlags);
    }
  }

  lemma QuietIsIdle(s: State, told: seq<Item>, r: State)
    requires (forall k :: 0 <= k < |told| ==> told[k].Told?) && TellsNone(Log(s, told), r)
    ensures Quiet(s, r) <==> Idle(Log(s, told), r)
  {
    var s1 := Log(s, told);
    assert forall k :: |s.trace| <= k < |s1.trace| ==> s1.trace[k] == told[k - |s.trace|];
    var n := |s1.trace|;
    assert n < |r.trace| ==> !r.trace[n].Told?;
  }

  /** For every table and every diff: an action is quiet if and only if it has nothing to do. */
  lemma QuietExactly(s: State, a: Action)
    requires Inv(s) && Allowed(s, a) && HasDiff(a)
    ensures Quiet(s, Apply(s, a)) <==> Nothing(s, a)
  {
    var told := Prelude(s, a);
    var s1 := Log(s, told);
    PreludeRanked(s, a);
    InvLogs(s, told);
    ActionSplits(s, a);
    CoreTellsNone(s1, a);
    QuietIsIdle(s, told, Core(s1, a));
    CoreIdle(s1, a);
    SameNothing(s, told, a);
  }

  /** What there is to do does not depend on the trace. */
  lemma SameNothing(s: State, items: seq<Item>, a: Action)
    requires Allowed(s, a) && Allowed(Log(s, items), a)
    ensures Nothing(Log(s, items), a) <==> Nothing(s, a)
  {
    if Adds(a) {
      SameWork(s, Log(s, items), a.diff.added, Rows(s, a.t, a.row, a.count), a.emplace);
    }
    if Removes(s, a) {
      SameSparse(s, Log(s, items), a.diff.removed, Rows(s, a.t, a.row, a.count));
      SameStored(s, Log(s, items), a.diff.removed, Rows(s, a.t, a.row, a.count));
    }
  }

  lemma SameWork(s: State, r: State, ids: seq<Id>, es: seq<Entity>, emplace: Id)
    requires r.comps == s.comps && r.members == s.members
    ensures AnyWork(r, ids, es, emplace) <==> AnyWork(s, ids, es, emplace)
  {
    SameView(s, r);
    assert forall id :: HooksAgain(r, id, emplace) == HooksAgain(s, id, emplace);
  }

  lemma SameSparse(s: State, r: State, ids: seq<Id>, es: seq<Entity>)
    requires r.comps == s.comps && r.members == s.members
    ensures AnySparse(r, ids, es) <==> AnySparse(s, ids, es)
  {
    SameView(s, r);
  }

  // ----- accepted tables

  /** A diff of ids of the table: apart from reparenting and child order, its flags are the table's. */
  predicate OfTable(flags: set<TableFlag>, table: set<TableFlag>) {
    flags - {EdgeReparent, HasOrderedChildren} <= table
  }

  /** The flags of a diff of one DontFragment id. Such an id is never in the type of a table, so the
      table has at most the first of them. */
  const NON_FRAGMENTING: set<TableFlag> := {HasDontFragment, HasSparse}

  /** The flags that a diff of an accepted table cannot have. */
  lemma SkippedFlags(flags: set<TableFlag>, table: set<TableFlag>)
    requires CanSkip(table) && OfTable(flags, table)
    ensures HasSparse !in flags && HasOnAdd !in flags && HasOnRemove !in flags && HasTraversable !in flags
  {
    forall f | f in flags && f != EdgeReparent && f != HasOrderedChildren ensures f in table {
      assert f in flags - {EdgeReparent, HasOrderedChildren};
    }
    assert HasSparse in table ==> HasSparse in table * {HasCtors, HasDtors, HasToggle, HasSparse};
    var events := {HasOnAdd, HasOnRemove, HasOnSet, HasOnTableCreate, HasOnTableDelete};
    assert HasOnAdd in table ==> HasOnAdd in table * events;
    assert HasOnRemove in table ==> HasOnRemove in table * events;
  }

  /** Adding to an accepted table: a diff of the table's ids is always quiet; one of a DontFragment id
      is quiet if and only if it leaves storage alone or finds every row stored and no hook to run. */
  lemma SkipAdd(s: State, a: Action)
    requires Inv(s) && Allowed(s, a) && (a.DoNew? || a.DoMoveAdd?) && CanSkip(s.tables[a.t].flags)
    ensures OfTable(a.diff.addedFlags, s.tables[a.t].flags) ==> Quiet(s, Apply(s, a))
    ensures a.diff.addedFlags == NON_FRAGMENTING ==>
              (Quiet(s, Apply(s, a)) <==>
               !(Busy(a) && a.sparse && AnyWork(s, a.diff.added, Rows(s, a.t, a.row, a.count), a.emplace)))
  {
    QuietExactly(s, a);
    if OfTable(a.diff.addedFlags, s.tables[a.t].flags) {
      SkippedFlags(a.diff.addedFlags, s.tables[a.t].flags);
    }
  }

  /** Removing from an accepted table: a diff of the table's ids is quiet if and only if it does not
      ask for DontFragment instances or finds none; one of a DontFragment id if and only if no row
      has it. */
  lemma SkipRemove(s: State, a: Action)
    requires Inv(s) && Allowed(s, a) && (a.DoMoveRemove? || a.DoDeleteTree?) && CanSkip(s.tables[a.t].flags)
    ensures var es := Rows(s, a.t, a.row, a.count);
            && (OfTable(a.diff.removedFlags, s.tables[a.t].flags) ==>
                  (Quiet(s, Apply(s, a)) <==>
                   !(Removes(s, a) && HasDontFragment in a.diff.removedFlags && AnyStored(s, a.diff.removed, es))))
            && (a.diff.removedFlags == NON_FRAGMENTING ==>
                  (Quiet(s, Apply(s, a)) <==> !(Removes(s, a) && AnySparse(s, a.diff.removed, es))))
  {
    var es := Rows(s, a.t, a.row, a.count);
    QuietExactly(s, a);
    if OfTable(a.diff.removedFlags, s.tables[a.t].flags) {
      SkippedFlags(a.diff.removedFlags, s.tables[a.t].flags);
    }
    if AnyStored(s, a.diff.removed, es) {
      var id, e :| id in a.diff.removed && e in es && IsDontFragment(s, id) && e in Members(s, id);
      assert Known(s, id, e);
      assert AnySparse(s, a.diff.removed, es);
    }
  }

  /** The predicate does not look at the DontFragment flag. Where a commit to the same table puts that
      flag on a diff, a removal from an accepted table emits although the diff has no other flag. */
  lemma SkipNeedsSparse(s: State, t: TableId, row: nat, count: nat, removed: seq<Id>)
    requires HasRows(s, t, row, count) && s.tables[t].flags == {HasDontFragment} && removed != []
    requires AnyStored(s, removed, Rows(s, t, row, count))
    ensures CanSkip(s.tables[t].flags)
    ensures !Quiet(s, DeleteTree(s, t, row, count, Diff([], removed, {}, {HasDontFragment})))
  {
    var r := DeleteTree(s, t, row, count, Diff([], removed, {}, {HasDontFragment}));
    assert r.trace[|s.trace|].Emit?;
  }

  // ----- an accepted table that is not quiet

  const TAG: Comp := Comp(true, true, false, false, false, false, false)
  const TABLES: map<TableId, Table> := map[7 := Table([1], {HasDontFragment})]
  const RECORDS: map<Entity, Record> := map[1 := Record(7, 0)]

  /** One DontFragment tag, id 5, and one entity in a table that has met it. */
  const MET: State := State(map[5 := TAG], [5], map[5 := {}], TABLES, RECORDS, [])

  lemma MetReached()
    ensures Reaches([DoRegister(5, TAG), DoPlace(TABLES, RECORDS)], MET)
  {
    var first, second := DoRegister(5, TAG), DoPlace(TABLES, RECORDS);
    var s := Apply(EMPTY, first);
    RunGoesOn([], EMPTY, first);
    assert [] + [first] == [first] && [first] + [second] == [first, second];
    MetAgrees();
    assert Allowed(s, second);
    RunGoesOn([first], s, second);
    assert s.list == [5];
    assert Apply(s, second) == MET;
  }

  lemma MetAgrees()
    ensures Agree(TABLES, RECORDS)
  {
    assert Encoding.RecordToRow(0) == 0;
    assert RecordAgrees(TABLES, RECORDS, 1);
  }

  const TAG_ADDED: Action := DoNew(7, 0, 1, Diff([5], [], NON_FRAGMENTING, {}), true, 0)
  const TAG_REMOVED: Action := DoDeleteTree(7, 0, 1, Diff([], [5], {}, NON_FRAGMENTING))

  /** The state is reachable and the fast path accepts the table, yet adding the tag with the diff of
      its id is not quiet. */
  lemma SkipMissesAdd()
    ensures Reaches([DoRegister(5, TAG), DoPlace(TABLES, RECORDS)], MET) && Inv(MET)
    ensures CanSkip(MET.tables[7].flags) && Allowed(MET, TAG_ADDED) && !Quiet(MET, Apply(MET, TAG_ADDED))
  {
    MetReached();
    RunsKeepInvariant([DoRegister(5, TAG), DoPlace(TABLES, RECORDS)], MET);
    TagMissing(MET);
    SkipAdd(MET, TAG_ADDED);
  }

  lemma TagMissing(s: State)
    requires IsSparse(s, 5) && HasRows(s, 7, 0, 1) && Rows(s, 7, 0, 1) == [1] && 1 !in Members(s, 5)
    ensures AnyWork(s, TAG_ADDED.diff.added, Rows(s, 7, 0, 1), 0)
  {
    assert 5 in TAG_ADDED.diff.added && 1 in Rows(s, 7, 0, 1);
  }

  /** And neither is removing it again. */
  lemma SkipMissesRemove()
    ensures Allowed(MET, TAG_ADDED)
    ensures var r := Apply(MET, TAG_ADDED);
            CanSkip(r.tables[7].flags) && Allowed(r, TAG_REMOVED) && !Quiet(r, Apply(r, TAG_REMOVED))
  {
    SkipMissesAdd();
    InvApply(MET, TAG_ADDED);
    var r := Apply(MET, TAG_ADDED);
    AddedMembers(MET, 7, None, 0, 1, TAG_ADDED.diff, 0);
    assert Rows(MET, 7, 0, 1) == Rows(r, 7, 0, 1) == [1] && 1 in ToSet([1]);
    TagStored(r);
    SkipRemove(r, TAG_REMOVED);
  }

  lemma TagStored(r: State)
    requires IsSparse(r, 5) && HasRows(r, 7, 0, 1) && Rows(r, 7, 0, 1) == [1] && 1 in Members(r, 5)
    ensures AnySparse(r, TAG_REMOVED.diff.removed, Rows(r, 7, 0, 1))
  {
    assert 5 in TAG_REMOVED.diff.removed && 1 in Rows(r, 7, 0, 1);
  }
}
