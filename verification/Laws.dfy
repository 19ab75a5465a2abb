/** Laws that relate one action to another: adding twice, adding and removing, what an observer
    sees, and when a diff's flags let an instance go silently. */
module Laws {
  import opened ActionModel
  import opened ActionEffects
  import opened Traces
  import opened Runs
  import opened Hearing
  import opened StorageItems

  // ----- adding twice

  /** Adding `id` again runs its on_add hook again: it emplaces, and emplacing does not ask whether
      the entity is new. */
  predicate HooksAgain(s: State, id: Id, emplace: Id) {
    HasOnAddHook(s, id) && Emplaced(id, emplace)
  }

  function AgainRows(s: State, id: Id, es: seq<Entity>, emplace: Id): (items: seq<Item>) {
    if es == [] || !HooksAgain(s, id, emplace) then []
    else AgainRows(s, id, es[..|es| - 1], emplace) + [Hook(OnAdd, id, [es[|es| - 1]])]
  }

  function AgainIds(s: State, ids: seq<Id>, es: seq<Entity>, emplace: Id): (items: seq<Item>) {
    if ids == [] then []
    else AgainIds(s, ids[..|ids| - 1], es, emplace) + AgainRows(s, ids[|ids| - 1], es, emplace)
  }

  lemma {:induction false} AddRowsAgain(s: State, id: Id, es: seq<Entity>, emplace: Id)
    requires IsSparse(s, id) ==> ToSet(es) <= Members(s, id)
    ensures AddRows(s, id, es, Constructs(id, emplace)) == Log(s, AgainRows(s, id, es, emplace))
  {
    if es == [] {
      assert s.trace + [] == s.trace;
    } else {
      var last := |es| - 1;
      assert ToSet(es[..last]) <= ToSet(es) && es[last] in ToSet(es);
      AddRowsAgain(s, id, es[..last], emplace);
      if HooksAgain(s, id, emplace) {
        LogTwice(s, AgainRows(s, id, es[..last], emplace), [Hook(OnAdd, id, [es[last]])]);
      } else {
        assert s.trace + [] == s.trace;
      }
    }
  }

  lemma {:induction false} AddIdsAgain(s: State, ids: seq<Id>, es: seq<Entity>, emplace: Id)
    requires forall id :: id in ids && IsSparse(s, id) ==> ToSet(es) <= Members(s, id)
    ensures AddIds(s, ids, es, emplace) == Log(s, AgainIds(s, ids, es, emplace))
  {
    if ids == [] {
      assert s.trace + [] == s.trace;
    } else {
      var last := |ids| - 1;
      var id, first := ids[last], AgainIds(s, ids[..last], es, emplace);
      assert id in ids;
      AddIdsAgain(s, ids[..last], es, emplace);
      AddRowsAgain(Log(s, first), id, es, emplace);
      SameAgain(s, first, id, es, emplace);
      LogTwice(s, first, AgainRows(s, id, es, emplace));
    }
  }

  lemma {:induction false} SameAgain(s: State, items: seq<Item>, id: Id, es: seq<Entity>, emplace: Id)
    ensures AgainRows(Log(s, items), id, es, emplace) == AgainRows(s, id, es, emplace)
  {
    if es != [] {
      SameAgain(s, items, id, es[..|es| - 1], emplace);
    }
  }

  /** Running an add again with the same diff, one without OnAdd, Traversable or Reparent flags:
      no event is emitted, no member and no record word changes; at most the on_add hooks of
      emplaced ids run again. */
  lemma AddedTwice(s: State, t: TableId, other: Option<TableId>, row: nat, count: nat, diff: Diff, emplace: Id)
    requires HasRows(s, t, row, count)
    requires HasOnAdd !in diff.addedFlags && HasTraversable !in diff.addedFlags && EdgeReparent !in diff.addedFlags
    ensures var es, once := Rows(s, t, row, count), Added(s, t, other, row, count, diff, true, emplace);
            && HasRows(once, t, row, count)
            && Added(once, t, other, row, count, diff, true, emplace)
               == if HasSparse in diff.addedFlags then Log(once, AgainIds(s, diff.added, es, emplace)) else once
  {
    var ids, es := diff.added, Rows(s, t, row, count);
    var once := Added(s, t, other, row, count, diff, true, emplace);
    if HasSparse in diff.addedFlags {
      var added := AddIds(s, ids, es, emplace);
      AddIdsEffect(s, ids, es, emplace);
      assert forall id :: Members(once, id) == Members(added, id);
      AddIdsAgain(once, ids, es, emplace);
      AgainSame(s, once, ids, es, emplace);
      assert !AnyNew(once, ids, es);
    }
  }

  lemma {:induction false} AgainSame(s: State, r: State, ids: seq<Id>, es: seq<Entity>, emplace: Id)
    requires r.comps == s.comps
    ensures AgainIds(r, ids, es, emplace) == AgainIds(s, ids, es, emplace)
  {
    if ids != [] {
      AgainSame(s, r, ids[..|ids| - 1], es, emplace);
      AgainRowsSame(s, r, ids[|ids| - 1], es, emplace);
    }
  }

  lemma {:induction false} AgainRowsSame(s: State, r: State, id: Id, es: seq<Entity>, emplace: Id)
    requires r.comps == s.comps
    ensures AgainRows(r, id, es, emplace) == AgainRows(s, id, es, emplace)
  {
    if es != [] {
      AgainRowsSame(s, r, id, es[..|es| - 1], emplace);
    }
  }

  /** The second run is a no-op exactly when no row is given, or the type has no sparse id with an on_add hook,
      or emplacing names none of those: neither the wildcard nor one of them. */
  lemma AgainNothing(s: State, ids: seq<Id>, es: seq<Entity>, emplace: Id)
    ensures AgainIds(s, ids, es, emplace) == [] <==>
            || es == []
            || (forall id :: id in ids && IsSparse(s, id) ==> !(s.comps[id].typed && s.comps[id].onAdd))
            || (emplace != WILDCARD
                && forall id :: id in ids && IsSparse(s, id) && s.comps[id].typed && s.comps[id].onAdd ==> id != emplace)
  {
    NoneHooksAgain(s, ids, es, emplace);
    assert forall id :: HasOnAddHook(s, id) <==> IsSparse(s, id) && s.comps[id].typed && s.comps[id].onAdd;
  }

  lemma {:induction false} NoneHooksAgain(s: State, ids: seq<Id>, es: seq<Entity>, emplace: Id)
    ensures AgainIds(s, ids, es, emplace) == [] <==>
            es == [] || forall id :: id in ids ==> !HooksAgain(s, id, emplace)
  {
    if ids != [] {
      var last := |ids| - 1;
      NoneHooksAgain(s, ids[..last], es, emplace);
      assert AgainRows(s, ids[last], es, emplace) == [] <==> es == [] || !HooksAgain(s, ids[last], emplace);
      assert forall id :: id in ids <==> id in ids[..last] || id == ids[last];
    }
  }

  // ----- adding, then removing

  /** The state an add starts its storage steps from. */
  function BeforeStorage(s: State, t: TableId, other: Option<TableId>, row: nat, count: nat, flags: set<TableFlag>): (r: State) {
    if EdgeReparent in flags then Reparented(s, t, other, row, count) else s
  }

  lemma AddedIsStocked(s: State, t: TableId, other: Option<TableId>, row: nat, count: nat, diff: Diff, emplace: Id)
    requires HasRows(s, t, row, count) && HasSparse in diff.addedFlags
    ensures var s1 := BeforeStorage(s, t, other, row, count, diff.addedFlags);
            && s1.members == s.members && s1.comps == s.comps && s1.tables == s.tables && s1.records == s.records
            && Added(s, t, other, row, count, diff, true, emplace) == Stocked(s1, t, other, row, count, diff, true, emplace)
  {}

  lemma StockedMembers(s: State, t: TableId, other: Option<TableId>, row: nat, count: nat, diff: Diff, emplace: Id)
    requires HasRows(s, t, row, count) && HasSparse in diff.addedFlags
    ensures var r := Stocked(s, t, other, row, count, diff, true, emplace);
            && MembersPlus(s, r, diff.added, Rows(s, t, row, count))
            && r.comps == s.comps && r.tables == s.tables
  {
    var es := Rows(s, t, row, count);
    AddIdsEffect(s, diff.added, es, emplace);
    PlusKept(s, AddIds(s, diff.added, es, emplace), s, Stocked(s, t, other, row, count, diff, true, emplace), diff.added, es);
  }

  /** What members gained depends on members and component records alone. */
  lemma PlusKept(s: State, r: State, s1: State, r1: State, ids: seq<Id>, es: seq<Entity>)
    requires MembersPlus(s, r, ids, es)
    requires s1.members == s.members && s1.comps == s.comps && r1.members == r.members
    ensures MembersPlus(s1, r1, ids, es)
  {
    forall id ensures Members(r1, id) ==
      if id in ids && IsSparse(s1, id) then Members(s1, id) + ToSet(es) else Members(s1, id)
    {
      assert Members(r, id) == if id in ids && IsSparse(s, id) then Members(s, id) + ToSet(es) else Members(s, id);
    }
  }

  /** An add leaves each sparse set of its type with the rows in it as well, and touches no other set. */
  lemma AddedMembers(s: State, t: TableId, other: Option<TableId>, row: nat, count: nat, diff: Diff, emplace: Id)
    requires HasRows(s, t, row, count) && HasSparse in diff.addedFlags
    ensures var r := Added(s, t, other, row, count, diff, true, emplace);
            && MembersPlus(s, r, diff.added, Rows(s, t, row, count))
            && r.comps == s.comps && r.tables == s.tables
  {
    var s1 := BeforeStorage(s, t, other, row, count, diff.addedFlags);
    AddedIsStocked(s, t, other, row, count, diff, emplace);
    StockedMembers(s1, t, other, row, count, diff, emplace);
    var r := Stocked(s1, t, other, row, count, diff, true, emplace);
    PlusKept(s1, r, s, r, diff.added, Rows(s, t, row, count));
  }

  /** A removal leaves each sparse set of its type without the rows, and touches no other set. */
  lemma RemovedMembers(s: State, t: TableId, other: Option<TableId>, row: nat, count: nat, removed: seq<Id>,
                       flags: set<TableFlag>)
    requires HasRows(s, t, row, count) && HasSparse in flags
    ensures MembersMinus(s, Removed(s, t, other, row, count, removed, flags), removed, Rows(s, t, row, count))
  {
    var es := Rows(s, t, row, count);
    var emitted := Log(s, [Emit(OnRemove, removed, es, t, other, row)]);
    RemoveIdsEffect(s, removed, es);
    RemoveIdsEffect(emitted, removed, es);
    var r := RemoveIds(emitted, removed, es);
    forall id ensures Members(r, id) ==
      if id in removed && IsSparse(s, id) then Members(s, id) - ToSet(es) else Members(s, id)
    {
      assert Members(emitted, id) == Members(s, id) && IsSparse(emitted, id) == IsSparse(s, id);
    }
  }

  /** Adding a type to rows and removing it again takes the rows out of its sparse sets ... */
  lemma AddThenRemove(s: State, t: TableId, other: Option<TableId>, row: nat, count: nat, diff: Diff, emplace: Id,
                      flags: set<TableFlag>)
    requires HasRows(s, t, row, count) && HasSparse in diff.addedFlags && HasSparse in flags
    ensures var es, added := Rows(s, t, row, count), Added(s, t, other, row, count, diff, true, emplace);
            && HasRows(added, t, row, count)
            && MembersMinus(s, Removed(added, t, other, row, count, diff.added, flags), diff.added, es)
  {
    var ids, es := diff.added, Rows(s, t, row, count);
    var added := Added(s, t, other, row, count, diff, true, emplace);
    AddedMembers(s, t, other, row, count, diff, emplace);
    RemovedMembers(added, t, other, row, count, ids, flags);
    MinusAfterPlus(s, added, Removed(added, t, other, row, count, ids, flags), ids, es);
  }

  lemma MinusAfterPlus(s: State, added: State, r: State, ids: seq<Id>, es: seq<Entity>)
    requires added.comps == s.comps && MembersPlus(s, added, ids, es) && MembersMinus(added, r, ids, es)
    ensures MembersMinus(s, r, ids, es)
  {
    forall id ensures Members(r, id) ==
      if id in ids && IsSparse(s, id) then Members(s, id) - ToSet(es) else Members(s, id)
    {
      assert IsSparse(added, id) == IsSparse(s, id);
      assert Members(s, id) + ToSet(es) - ToSet(es) == Members(s, id) - ToSet(es);
    }
  }

  /** ... which restores every sparse set exactly when the rows had none of the type before. */
  lemma AddThenRemoveRestores(s: State, t: TableId, other: Option<TableId>, row: nat, count: nat, diff: Diff, emplace: Id,
                              flags: set<TableFlag>)
    requires HasRows(s, t, row, count) && HasSparse in diff.addedFlags && HasSparse in flags
    ensures var es, added := Rows(s, t, row, count), Added(s, t, other, row, count, diff, true, emplace);
            && HasRows(added, t, row, count)
            && ((forall id :: Members(Removed(added, t, other, row, count, diff.added, flags), id) == Members(s, id)) <==>
                forall id, e :: id in diff.added && IsSparse(s, id) && e in es ==> e !in Members(s, id))
  {
    var added := Added(s, t, other, row, count, diff, true, emplace);
    AddThenRemove(s, t, other, row, count, diff, emplace, flags);
    MinusRestores(s, Removed(added, t, other, row, count, diff.added, flags), diff.added, Rows(s, t, row, count));
  }

  lemma MinusRestores(s: State, r: State, ids: seq<Id>, es: seq<Entity>)
    requires MembersMinus(s, r, ids, es)
    ensures (forall id :: Members(r, id) == Members(s, id)) <==>
            forall id, e :: id in ids && IsSparse(s, id) && e in es ==> e !in Members(s, id)
  {
    if forall id :: Members(r, id) == Members(s, id) {
      forall id, e | id in ids && IsSparse(s, id) && e in es ensures e !in Members(s, id) {
        assert e in ToSet(es) && Members(r, id) == Members(s, id);
      }
    }
  }

  // ----- what an observer of the event sees

  /** The item, if an event, is the OnAdd event of an add, the last one appended, and every instance of
      the type is stored for every row by then. */
  ghost predicate SeesAll(s: State, r: State, ids: seq<Id>, es: seq<Entity>, item: Item, m: nat)
    requires m < |r.trace|
  {
    r.trace[m].Emit? ==>
      && m == |r.trace| - 1 && r.trace[m] == item
      && forall id, e :: id in ids && IsSparse(s, id) && e in es ==> Stored(r.trace[..m], id, e)
  }

  lemma StockedSeesAll(s: State, t: TableId, other: Option<TableId>, row: nat, count: nat, diff: Diff, emplace: Id, m: nat)
    requires Sound(s) && HasRows(s, t, row, count) && HasSparse in diff.addedFlags
    requires |s.trace| <= m < |Stocked(s, t, other, row, count, diff, true, emplace).trace|
    ensures var es, r := Rows(s, t, row, count), Stocked(s, t, other, row, count, diff, true, emplace);
            && s.trace <= r.trace
            && SeesAll(s, r, diff.added, es, Emit(OnAdd, diff.added, es, t, other, row), m)
  {
    var es, r := Rows(s, t, row, count), Stocked(s, t, other, row, count, diff, true, emplace);
    var stored := AddIds(s, diff.added, es, emplace);
    StoredForAll(s, diff.added, es, emplace);
    assert m < |stored.trace| ==> r.trace[m] == stored.trace[m];
    assert m >= |stored.trace| ==> m == |stored.trace| && r.trace[..m] == stored.trace;
  }

  /** When the OnAdd event of an add is emitted, it comes last, and every instance of the type is
      stored for every row. */
  lemma OnAddSeesAll(s: State, t: TableId, other: Option<TableId>, row: nat, count: nat, diff: Diff, emplace: Id)
    requires Inv(s) && HasRows(s, t, row, count) && HasSparse in diff.addedFlags
    ensures var es, r := Rows(s, t, row, count), Added(s, t, other, row, count, diff, true, emplace);
            forall m :: |s.trace| <= m < |r.trace| ==>
              SeesAll(s, r, diff.added, es, Emit(OnAdd, diff.added, es, t, other, row), m)
  {
    var es, s1 := Rows(s, t, row, count), BeforeStorage(s, t, other, row, count, diff.addedFlags);
    var item := Emit(OnAdd, diff.added, es, t, other, row);
    SoundBeforeStorage(s, t, other, row, count, diff.addedFlags);
    AddedIsStocked(s, t, other, row, count, diff, emplace);
    var r := Stocked(s1, t, other, row, count, diff, true, emplace);
    SoundAddIds(s1, diff.added, es, emplace);
    forall m | |s.trace| <= m < |r.trace| ensures SeesAll(s, r, diff.added, es, item, m) {
      if m < |s1.trace| {
        assert r.trace[m] == s1.trace[m];
      } else {
        StockedSeesAll(s1, t, other, row, count, diff, emplace, m);
        SameSight(s, s1, r, diff.added, es, item, m);
      }
    }
  }

  lemma SameSight(s: State, s1: State, r: State, ids: seq<Id>, es: seq<Entity>, item: Item, m: nat)
    requires s1.comps == s.comps && m < |r.trace| && SeesAll(s1, r, ids, es, item, m)
    ensures SeesAll(s, r, ids, es, item, m)
  {
    forall id, e | r.trace[m].Emit? && id in ids && IsSparse(s, id) && e in es ensures Stored(r.trace[..m], id, e) {
      assert IsSparse(s1, id);
    }
  }

  lemma SoundBeforeStorage(s: State, t: TableId, other: Option<TableId>, row: nat, count: nat, flags: set<TableFlag>)
    requires Sound(s)
    ensures var r := BeforeStorage(s, t, other, row, count, flags);
            && Sound(r) && s.trace <= r.trace && r.comps == s.comps
            && forall m :: |s.trace| <= m < |r.trace| ==> r.trace[m].Told?
  {
    SoundLog(s, Told(ReparentNames, t, other, row, count));
    var s1 := Tell(s, ReparentNames, t, other, row, count);
    SoundLog(s1, Told(ReparentOrdered, t, other, row, count));
    SoundLog(Tell(s1, ReparentOrdered, t, other, row, count), Told(ReparentChildOf, t, other, row, count));
  }

  /** After the storage steps every instance is stored, and none of the steps was an event. */
  lemma StoredForAll(s: State, ids: seq<Id>, es: seq<Entity>, emplace: Id)
    requires Sound(s)
    ensures var r := AddIds(s, ids, es, emplace);
            && s.trace <= r.trace
            && (forall m :: |s.trace| <= m < |r.trace| ==> !r.trace[m].Emit?)
            && forall id, e :: id in ids && IsSparse(s, id) && e in es ==> Stored(r.trace, id, e)
  {
    AddIdsEffect(s, ids, es, emplace);
    SoundAddIds(s, ids, es, emplace);
    var r := AddIds(s, ids, es, emplace);
    forall id, e | id in ids && IsSparse(s, id) && e in es ensures Stored(r.trace, id, e) {
      assert e in ToSet(es) && e in Members(r, id);
    }
  }

  /** When the OnRemove event of a removal is emitted, it comes first, and everything that the
      removal is about to drop is still stored. */
  lemma OnRemoveSeesAll(s: State, t: TableId, other: Option<TableId>, row: nat, count: nat, removed: seq<Id>,
                        flags: set<TableFlag>)
    requires Inv(s) && HasRows(s, t, row, count)
    ensures var es, r := Rows(s, t, row, count), Removed(s, t, other, row, count, removed, flags);
            forall m :: |s.trace| <= m < |r.trace| && r.trace[m].Emit? ==>
              && m == |s.trace| && r.trace[..m] == s.trace
              && r.trace[m] == Emit(OnRemove, removed, es, t, other, row)
              && forall id, e :: e in Members(s, id) ==> Stored(r.trace[..m], id, e)
  {
    var es := Rows(s, t, row, count);
    var item := Emit(OnRemove, removed, es, t, other, row);
    var told := HasOnRemove in flags || (HasDontFragment in flags && AnyStored(s, removed, es));
    var s1 := if told then Log(s, [item]) else s;
    SoundLog(s, item);
    SoundRemoveIds(s1, removed, es);
    var r := Removed(s, t, other, row, count, removed, flags);
    assert r == if HasSparse in flags then RemoveIds(s1, removed, es) else s1;
    assert s1.trace <= r.trace && forall k :: |s1.trace| <= k < |r.trace| ==> !r.trace[k].Emit?;
    forall m | |s.trace| <= m < |r.trace| && r.trace[m].Emit?
      ensures m == |s.trace| && r.trace[..m] == s.trace && r.trace[m] == item
    {
      assert m < |s1.trace| && r.trace[m] == s1.trace[m];
      assert r.trace[..m] == s.trace;
    }
  }

  /** Where a removal does not tell of what it drops, no event is emitted at all, so the drop of a
      stored DontFragment instance is heard of by nobody. */
  lemma UncoveredIsSilent(s: State, t: TableId, other: Option<TableId>, row: nat, count: nat, removed: seq<Id>,
                          flags: set<TableFlag>, id: Id, e: Entity)
    requires Inv(s) && HasRows(s, t, row, count)
    requires HasSparse in flags && HasDontFragment !in flags && HasOnRemove !in flags
    requires id in removed && e in Rows(s, t, row, count) && IsDontFragment(s, id) && e in Members(s, id)
    ensures var r := Removed(s, t, other, row, count, removed, flags);
            && e !in Members(r, id) && (forall m :: |s.trace| <= m < |r.trace| ==> !r.trace[m].Emit?)
            && !NoSilentDrop(s, r)
  {
    var es := Rows(s, t, row, count);
    RemoveIdsEffect(s, removed, es);
    SoundRemoveIds(s, removed, es);
    assert Known(s, id, e) && e in ToSet(es);
    RemovedHeard(s, t, other, row, count, removed, flags);
    assert AnyStored(s, removed, es);
  }
}
