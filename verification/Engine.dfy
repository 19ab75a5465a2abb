/** The objects of the engine under whole runs: performing an action on a world whose abstract state
    is reachable makes it the next reachable state, so what is proved of runs holds of the objects. */
module Engine {
  import opened ActionModel
  import opened Runs
  import opened Worlds
  import opened Traces
  import opened HelperOrder
  import opened Hearing
  import opened Events
  import opened RecordWords

  /** What the methods demand of their caller beyond what the model does. */
  ghost predicate Demands(s: State, a: Action) {
    match a
    case DoMoveRemove(_, _, _, count, diff, _) => NoWildcards(s.comps, diff.removed) && count != 0
    case DoDeleteTree(_, _, _, diff) => NoWildcards(s.comps, diff.removed)
    case DoNotifyIds(_, _, _, ids) => Settable(s.comps, ids)
    case DoNotify(_, _, id, _) => Settable(s.comps, [id])
    case DoPlace(tables, records) => Placed(tables, records)
    case _ => true
  }

  /** What every step of a run keeps: the invariant; no DontFragment instance appears silently, and
      none disappears silently if and only if the action is audible; the trace grows by exactly the helper
      calls, in their order, and then the items of the action; and unless the action places them anew,
      entities keep table, row and other flags. */
  ghost predicate WellDone(s: State, a: Action, r: State)
    requires Allowed(s, a)
  {
    && Inv(r)
    && NoSilentAdd(s, r) && (NoSilentDrop(s, r) <==> Audible(s, a))
    && r.trace == s.trace + Prelude(s, a) + ActionItems(s, a) && TellsNone(Log(s, Prelude(s, a)), r)
    && (!a.DoPlace? ==> RecordsKept(s, r))
    && (!a.DoPlace? && !a.DoRegister? ==> StorageAfter(s, a, r))
  }

  /** One action on the objects is one step of the run. */
  method Perform(w: World, a: Action, ghost actions: seq<Action>)
    requires w.Valid() && Reaches(actions, w.Abs()) && Allowed(w.Abs(), a) && Demands(w.Abs(), a)
    modifies w, w.sets
    ensures w.Valid() && fresh(w.sets - old(w.sets))
    ensures w.Abs() == Apply(old(w.Abs()), a) && Reaches(actions + [a], w.Abs())
    ensures WellDone(old(w.Abs()), a, w.Abs())
  {
    ghost var s := w.Abs();
    RunsKeepInvariant(actions, s);
    NextReached(actions, s, a);
    Dispatch(w, a);
  }

  lemma NextReached(actions: seq<Action>, s: State, a: Action)
    requires Reaches(actions, s) && Allowed(s, a)
    ensures Reaches(actions + [a], Apply(s, a)) && WellDone(s, a, Apply(s, a))
  {
    RunGoesOn(actions, s, a);
    RunsKeepInvariant(actions, s);
    InvApply(s, a);
    ActionHeard(s, a);
    CallsFirst(s, a);
    ActionTrace(s, a);
    if !a.DoPlace? {
      ActionKeepsWords(s, a);
    }
    if !a.DoPlace? && !a.DoRegister? {
      ActionStorage(s, a);
    }
  }

  method Dispatch(w: World, a: Action)
    requires w.Valid() && Agree(w.tables, w.records) && Allowed(w.Abs(), a) && Demands(w.Abs(), a)
    modifies w, w.sets
    ensures w.Valid() && fresh(w.sets - old(w.sets)) && w.Abs() == Apply(old(w.Abs()), a)
  {
    if a.DoNotifyIds? || a.DoNotify? || a.DoRegister? || a.DoPlace? {
      DispatchOther(w, a);
    } else {
      DispatchStoring(w, a);
    }
  }

  method DispatchStoring(w: World, a: Action)
    requires w.Valid() && Agree(w.tables, w.records) && Allowed(w.Abs(), a) && Demands(w.Abs(), a)
    requires a.DoNew? || a.DoMoveAdd? || a.DoMoveRemove? || a.DoDeleteTree? || a.DoClear?
    modifies w`trace, w`records, w`members, w.sets
    ensures w.Valid() && w.Abs() == Apply(old(w.Abs()), a)
  {
    match a
    case DoNew(t, row, count, diff, sparse, emplace) => w.ActionsNew(t, row, count, diff, sparse, emplace);
    case DoMoveAdd(t, other, row, count, diff, sparse, emplace, updateParents) =>
      w.ActionsMoveAdd(t, other, row, count, diff, sparse, emplace, updateParents);
    case DoMoveRemove(t, other, row, count, diff, fini) => w.ActionsMoveRemove(t, other, row, count, diff, fini);
    case DoDeleteTree(t, row, count, diff) => w.ActionsDeleteTree(t, row, count, diff);
    case DoClear(e) =>
      assert e in w.records ==> RecordAgrees(w.tables, w.records, e);
      w.RemoveNonFragmenting(e);
  }

  method DispatchOther(w: World, a: Action)
    requires w.Valid() && Allowed(w.Abs(), a) && Demands(w.Abs(), a)
    requires a.DoNotifyIds? || a.DoNotify? || a.DoRegister? || a.DoPlace?
    modifies w
    ensures w.Valid() && fresh(w.sets - old(w.sets)) && w.Abs() == Apply(old(w.Abs()), a)
  {
    match a
    case DoNotifyIds(t, row, count, ids) => w.NotifyOnSetIds(t, row, count, ids);
    case DoNotify(t, row, id, invokeHook) => w.NotifyOnSet(t, row, id, invokeHook);
    case DoRegister(id, c) => w.Register(id, c);
    case DoPlace(tables, records) => w.tables, w.records := tables, records;
  }
}
