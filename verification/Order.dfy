/** Who is told of an action, and when: every helper call comes before any hook, event or change to
    the storage, in one fixed order. */
module HelperOrder {
  import opened ActionModel
  import opened ActionEffects
  import opened Clearing
  import opened Traces
  import opened Runs

  /** The action is one that a diff describes, and the diff gives it something to do. */
  predicate Busy(a: Action) {
    match a
    case DoNew(_, _, _, _, _, _) => true
    case DoMoveAdd(_, _, _, _, diff, _, _, _) => diff.added != []
    case DoMoveRemove(_, _, _, _, diff, _) => diff.removed != []
    case DoDeleteTree(_, _, _, diff) => diff.removed != [] && diff.removedFlags != {}
    case _ => false
  }

  /** The table, if there is one, has the flag. */
  predicate Flagged(s: State, t: Option<TableId>, flag: TableFlag) {
    match t
    case None => false
    case Some(id) => id in s.tables && flag in s.tables[id].flags
  }

  /** Rows leave a parent: the removal is not of builtin entities, and they get no other parent. */
  predicate Unparents(s: State, a: Action) {
    && a.DoMoveRemove? && Busy(a)
    && (a.fini || !Flagged(s, Some(a.t), HasBuiltins)) && !Flagged(s, a.other, HasChildOf)
  }

  predicate Reparents(a: Action) {
    (a.DoNew? || a.DoMoveAdd?) && Busy(a) && EdgeReparent in a.diff.addedFlags
  }

  /** Exactly when an action tells a helper. */
  predicate Calls(s: State, a: Action, h: Helper) {
    match h
    case PropagateInvalidate => Busy(a) && !a.DoNew? && Flagged(s, Some(a.t), HasTraversable)
    case ChildMoveAdd => Busy(a) && a.DoMoveAdd? && a.updateParents && Flagged(s, Some(a.t), HasParent)
    case ChildMoveRemove(updateParents) =>
      && Busy(a) && a.DoMoveRemove? && Flagged(s, Some(a.t), HasParent)
      && updateParents == !(a.diff.added != [] && Flagged(s, a.other, HasParent))
    case ReparentNames => Reparents(a)
    case ReparentOrdered => Reparents(a)
    case ReparentChildOf => Reparents(a)
    case UnparentNames => Unparents(s, a) && EdgeReparent in a.diff.removedFlags && a.other.Some?
    case UnparentChildOf => Unparents(s, a) && EdgeReparent in a.diff.removedFlags
    case UnparentOrdered => Unparents(s, a) && HasOrderedChildren in a.diff.removedFlags
  }

  /** The call of one helper, if it is made. */
  function Call(s: State, a: Action, h: Helper): (items: seq<Item>)
    ensures |items| <= 1 && (items != [] <==> Calls(s, a, h))
    ensures items != [] ==> items[0].Told? && items[0].helper == h
  {
    if Calls(s, a, h)
    then [Told(h, a.t, if h.PropagateInvalidate? || a.DoNew? then None else a.other, a.row, a.count)]
    else []
  }

  function ChildCalls(s: State, a: Action): (items: seq<Item>)
  {
    Call(s, a, ChildMoveAdd) + Call(s, a, ChildMoveRemove(true)) + Call(s, a, ChildMoveRemove(false))
  }

  function ReparentCalls(s: State, a: Action): (items: seq<Item>)
  {
    Call(s, a, ReparentNames) + Call(s, a, ReparentOrdered) + Call(s, a, ReparentChildOf)
  }

  function UnparentCalls(s: State, a: Action): (items: seq<Item>)
  {
    Call(s, a, UnparentNames) + Call(s, a, UnparentChildOf) + Call(s, a, UnparentOrdered)
  }

  /** All helper calls of an action: caches, then children, then the parent indices. */
  function Prelude(s: State, a: Action): (items: seq<Item>)
  {
    Call(s, a, PropagateInvalidate) + ChildCalls(s, a) + ReparentCalls(s, a) + UnparentCalls(s, a)
  }

  /** The action gets as far as storing and emitting. */
  predicate Adds(a: Action) { (a.DoNew? || a.DoMoveAdd?) && Busy(a) && a.diff.addedFlags != {} }

  predicate Removes(s: State, a: Action) {
    && (a.DoMoveRemove? || a.DoDeleteTree?) && Busy(a) && a.diff.removedFlags != {}
    && (a.DoMoveRemove? ==> a.fini || !Flagged(s, Some(a.t), HasBuiltins))
  }

  /** The other table that events name. */
  function OtherTable(a: Action): (other: Option<TableId>)
    requires Busy(a)
  {
    if a.DoMoveAdd? || a.DoMoveRemove? then a.other else None
  }

  /** What an action does once the helpers are told. */
  ghost function Core(s: State, a: Action): (r: State)
    requires Allowed(s, a)
  {
    if Adds(a) then Stocked(s, a.t, OtherTable(a), a.row, a.count, a.diff, a.sparse, a.emplace)
    else if Removes(s, a) then Removed(s, a.t, OtherTable(a), a.row, a.count, a.diff.removed, a.diff.removedFlags)
    else if a.DoNew? || a.DoMoveAdd? || a.DoMoveRemove? || a.DoDeleteTree? then s
    else Apply(s, a)
  }

  lemma LogFour(s: State, a: seq<Item>, b: seq<Item>, c: seq<Item>, d: seq<Item>)
    ensures Log(s, a + b + c + d) == Log(Log(Log(Log(s, a), b), c), d)
  {
    LogTwice(s, a, b);
    LogTwice(s, a + b, c);
    LogTwice(s, a + b + c, d);
  }

  lemma LogNothing(s: State)
    ensures Log(s, []) == s
  {}

  lemma LogsInvalidation(s: State, a: Action)
    requires Busy(a) && !a.DoNew? && Allowed(s, a)
    ensures Log(s, Call(s, a, PropagateInvalidate)) == Invalidated(s, a.t, a.row, a.count)
  {
    LogNothing(s);
  }

  lemma LogsReparent(s: State, r: State, a: Action)
    requires Busy(a) && (a.DoNew? || a.DoMoveAdd?)
    ensures Log(r, ReparentCalls(s, a)) ==
            if EdgeReparent in a.diff.addedFlags then Reparented(r, a.t, OtherTable(a), a.row, a.count) else r
  {
    LogNothing(r);
    if EdgeReparent in a.diff.addedFlags {
      var x, y := Call(s, a, ReparentNames), Call(s, a, ReparentOrdered);
      LogTwice(r, x, y);
      LogTwice(r, x + y, Call(s, a, ReparentChildOf));
    }
  }

  lemma LogsUnparent(s: State, r: State, a: Action)
    requires Unparents(s, a)
    ensures Log(r, UnparentCalls(s, a)) == Unparented(r, a.t, a.other, a.row, a.count, a.diff.removedFlags)
  {
    var x, y, z := Call(s, a, UnparentNames), Call(s, a, UnparentChildOf), Call(s, a, UnparentOrdered);
    LogNothing(r);
    LogTwice(r, x, y);
    LogTwice(r, x + y, z);
    LogNothing(Log(r, x));
    LogNothing(Log(Log(r, x), y));
  }

  lemma LogsChildAdd(s: State, r: State, a: Action)
    requires Busy(a) && a.DoMoveAdd?
    ensures Log(r, ChildCalls(s, a)) ==
            if a.updateParents && HasTableFlag(s, Some(a.t), HasParent)
            then Tell(r, ChildMoveAdd, a.t, a.other, a.row, a.count)
            else r
  {
    assert ChildCalls(s, a) == Call(s, a, ChildMoveAdd);
    LogNothing(r);
  }

  lemma LogsChildRemove(s: State, r: State, a: Action)
    requires Busy(a) && a.DoMoveRemove?
    ensures Log(r, ChildCalls(s, a)) ==
            if HasTableFlag(s, Some(a.t), HasParent)
            then Tell(r, ChildMoveRemove(!(a.diff.added != [] && HasTableFlag(s, a.other, HasParent))),
                      a.t, a.other, a.row, a.count)
            else r
  {
    var update := !(a.diff.added != [] && HasTableFlag(s, a.other, HasParent));
    assert Call(s, a, ChildMoveRemove(!update)) == [];
    assert ChildCalls(s, a) == Call(s, a, ChildMoveRemove(update));
    LogNothing(r);
  }

  /** The removal itself, after caches and children were told. */
  lemma SplitsWithParent(s: State, r: State, a: Action)
    requires a.DoMoveRemove? && Busy(a) && Allowed(s, a) && r.tables == s.tables
    ensures Allowed(Log(r, UnparentCalls(s, a)), a)
    ensures RemovedWithParent(r, a.t, a.other, a.row, a.count, a.diff, a.fini) == Core(Log(r, UnparentCalls(s, a)), a)
  {
    LogNothing(r);
    if Unparents(s, a) {
      LogsUnparent(s, r, a);
    } else {
      assert UnparentCalls(s, a) == [];
    }
  }

  lemma NewSplits(s: State, a: Action)
    requires a.DoNew? && Allowed(s, a)
    ensures Allowed(Log(s, Prelude(s, a)), a) && Apply(s, a) == Core(Log(s, Prelude(s, a)), a)
  {
    assert Prelude(s, a) == ReparentCalls(s, a);
    SplitsAdded(s, s, a);
  }

  /** The add itself, after caches and children were told. */
  lemma SplitsAdded(s: State, r: State, a: Action)
    requires (a.DoNew? || a.DoMoveAdd?) && Busy(a) && Allowed(s, a) && r.tables == s.tables
    ensures Allowed(Log(r, ReparentCalls(s, a)), a)
    ensures Added(r, a.t, OtherTable(a), a.row, a.count, a.diff, a.sparse, a.emplace)
            == Core(Log(r, ReparentCalls(s, a)), a)
  {
    LogsReparent(s, r, a);
  }

  lemma AddPrelude(s: State, a: Action)
    requires a.DoMoveAdd?
    ensures Prelude(s, a) == Call(s, a, PropagateInvalidate) + ChildCalls(s, a) + ReparentCalls(s, a) + []
  {
    assert UnparentCalls(s, a) == [];
  }

  lemma MoveAddSplits(s: State, a: Action)
    requires a.DoMoveAdd? && Allowed(s, a)
    ensures Allowed(Log(s, Prelude(s, a)), a) && Apply(s, a) == Core(Log(s, Prelude(s, a)), a)
  {
    StillAllowed(s, a, Prelude(s, a));
    if !Busy(a) {
      NoPrelude(s, a);
      LogNothing(s);
    } else {
      var calls, children, parents := Call(s, a, PropagateInvalidate), ChildCalls(s, a), ReparentCalls(s, a);
      AddPrelude(s, a);
      LogFour(s, calls, children, parents, []);
      LogsInvalidation(s, a);
      var s1 := Log(s, calls);
      LogsChildAdd(s, s1, a);
      var s2 := Log(s1, children);
      LogNothing(Log(s2, parents));
      SplitsAdded(s, s2, a);
    }
  }

  lemma MoveRemoveSplits(s: State, a: Action)
    requires a.DoMoveRemove? && Allowed(s, a)
    ensures Allowed(Log(s, Prelude(s, a)), a) && Apply(s, a) == Core(Log(s, Prelude(s, a)), a)
  {
    StillAllowed(s, a, Prelude(s, a));
    if !Busy(a) {
      NoPrelude(s, a);
      LogNothing(s);
    } else {
      var calls, children := Call(s, a, PropagateInvalidate), ChildCalls(s, a);
      LogFour(s, calls, children, [], UnparentCalls(s, a));
      LogsInvalidation(s, a);
      var s1 := Log(s, calls);
      LogNothing(s1);
      var s2 := Log(s1, children);
      LogNothing(s2);
      assert ReparentCalls(s, a) == [];
      LogsChildRemove(s, s1, a);
      SplitsWithParent(s, s2, a);
    }
  }

  lemma DeleteTreeSplits(s: State, a: Action)
    requires a.DoDeleteTree? && Allowed(s, a)
    ensures Allowed(Log(s, Prelude(s, a)), a) && Apply(s, a) == Core(Log(s, Prelude(s, a)), a)
  {
    StillAllowed(s, a, Prelude(s, a));
    if !Busy(a) {
      NoPrelude(s, a);
      LogNothing(s);
    } else {
      LogsInvalidation(s, a);
      assert Prelude(s, a) == Call(s, a, PropagateInvalidate);
    }
  }

  /** Every action first tells its helpers and then does the rest. */
  lemma ActionSplits(s: State, a: Action)
    requires Allowed(s, a)
    ensures Allowed(Log(s, Prelude(s, a)), a) && Apply(s, a) == Core(Log(s, Prelude(s, a)), a)
  {
    match a
    case DoNew(_, _, _, _, _, _) => NewSplits(s, a);
    case DoMoveAdd(_, _, _, _, _, _, _, _) => MoveAddSplits(s, a);
    case DoMoveRemove(_, _, _, _, _, _) => MoveRemoveSplits(s, a);
    case DoDeleteTree(_, _, _, _) => DeleteTreeSplits(s, a);
    case _ =>
      NoPrelude(s, a);
      LogNothing(s);
  }

  lemma NoPrelude(s: State, a: Action)
    requires !Busy(a)
    ensures Prelude(s, a) == []
  {
    assert forall h :: !Calls(s, a, h);
  }

  lemma StillAllowed(s: State, a: Action, items: seq<Item>)
    requires Allowed(s, a) && (a.DoNew? || a.DoMoveAdd? || a.DoMoveRemove? || a.DoDeleteTree?)
    ensures Allowed(Log(s, items), a)
  {}

  // ----- the rest tells no helper

  /** From `s` to `r` the trace grew, and by no helper call. */
  ghost predicate TellsNone(s: State, r: State) {
    s.trace <= r.trace && forall k :: |s.trace| <= k < |r.trace| ==> !r.trace[k].Told?
  }

  lemma StockedTellsNone(s: State, t: TableId, other: Option<TableId>, row: nat, count: nat, diff: Diff, sparse: bool,
                         emplace: Id)
    requires Sound(s) && HasRows(s, t, row, count)
    ensures TellsNone(s, Stocked(s, t, other, row, count, diff, sparse, emplace))
  {
    SoundAddIds(s, diff.added, Rows(s, t, row, count), emplace);
  }

  lemma RemovedTellsNone(s: State, t: TableId, other: Option<TableId>, row: nat, count: nat, removed: seq<Id>,
                         flags: set<TableFlag>)
    requires Sound(s) && HasRows(s, t, row, count)
    ensures TellsNone(s, Removed(s, t, other, row, count, removed, flags))
  {
    var es := Rows(s, t, row, count);
    var item := Emit(OnRemove, removed, es, t, other, row);
    SoundLog(s, item);
    var s1 := Log(s, [item]);
    assert TellsNone(s, s1);
    SoundRemoveIds(s, removed, es);
    SoundRemoveIds(s1, removed, es);
    assert TellsNone(s, RemoveIds(s, removed, es)) && TellsNone(s1, RemoveIds(s1, removed, es));
    TellsNoneThen(s, s1, RemoveIds(s1, removed, es));
  }

  lemma TellsNoneThen(s: State, a: State, r: State)
    requires TellsNone(s, a) && TellsNone(a, r)
    ensures TellsNone(s, r)
  {
    forall k | |s.trace| <= k < |r.trace| ensures !r.trace[k].Told? {
      assert k < |a.trace| ==> r.trace[k] == a.trace[k];
    }
  }

  lemma {:induction false} ClearListTellsNone(s: State, ids: seq<Id>, e: Entity)
    requires e in s.records
    ensures TellsNone(s, ClearList(s, ids, e))
  {
    if ids != [] {
      var r := ClearList(s, ids[..|ids| - 1], e);
      ClearListTellsNone(s, ids[..|ids| - 1], e);
      ClearOneEffect(r, ids[|ids| - 1], e);
      TellsNoneThen(s, r, ClearList(s, ids, e));
    }
  }

  lemma CoreTellsNone(s: State, a: Action)
    requires Sound(s) && Allowed(s, a)
    ensures TellsNone(s, Core(s, a))
  {
    if Adds(a) {
      StockedTellsNone(s, a.t, OtherTable(a), a.row, a.count, a.diff, a.sparse, a.emplace);
    } else if Removes(s, a) {
      RemovedTellsNone(s, a.t, OtherTable(a), a.row, a.count, a.diff.removed, a.diff.removedFlags);
    } else if a.DoClear? {
      if Marked(s, a.e) {
        ClearListTellsNone(s, s.list, a.e);
      }
    } else if a.DoNotifyIds? {
      AllHooks(s, a.ids, Rows(s, a.t, a.row, a.count));
    }
  }

  // ----- the order

  /** The place of a helper in the order. */
  function Rank(h: Helper): (n: nat) {
    match h
    case PropagateInvalidate => 0
    case ChildMoveAdd => 1
    case ChildMoveRemove(_) => 1
    case ReparentNames => 2
    case ReparentOrdered => 3
    case ReparentChildOf => 4
    case UnparentNames => 5
    case UnparentChildOf => 6
    case UnparentOrdered => 7
  }

  /** The items are helper calls in strictly ascending order, from rank `lo` and below `hi`. */
  ghost predicate Ranked(items: seq<Item>, lo: nat, hi: nat) {
    && (forall k :: 0 <= k < |items| ==> items[k].Told? && lo <= Rank(items[k].helper) < hi)
    && forall j, k :: 0 <= j < k < |items| ==> Rank(items[j].helper) < Rank(items[k].helper)
  }

  lemma RankedSum(a: seq<Item>, b: seq<Item>, lo: nat, mid: nat, hi: nat)
    requires Ranked(a, lo, mid) && Ranked(b, mid, hi) && lo <= mid <= hi
    ensures Ranked(a + b, lo, hi)
  {}

  ghost predicate Names(items: seq<Item>, h: Helper) {
    exists k :: 0 <= k < |items| && items[k].Told? && items[k].helper == h
  }

  lemma NamesSum(a: seq<Item>, b: seq<Item>, h: Helper)
    ensures Names(a + b, h) <==> Names(a, h) || Names(b, h)
  {
    if Names(a, h) {
      var k :| 0 <= k < |a| && a[k].Told? && a[k].helper == h;
      assert (a + b)[k] == a[k];
    }
    if Names(b, h) {
      var k :| 0 <= k < |b| && b[k].Told? && b[k].helper == h;
      assert (a + b)[|a| + k] == b[k];
    }
  }

  lemma NamesThree(a: seq<Item>, b: seq<Item>, c: seq<Item>, h: Helper)
    ensures Names(a + b + c, h) <==> Names(a, h) || Names(b, h) || Names(c, h)
  {
    NamesSum(a, b, h);
    NamesSum(a + b, c, h);
  }

  lemma CallNames(s: State, a: Action, x: Helper, h: Helper)
    ensures Names(Call(s, a, x), h) <==> x == h && Calls(s, a, h)
  {
    if Calls(s, a, x) {
      assert Call(s, a, x)[0].helper == x;
    }
  }

  lemma CallRanked(s: State, a: Action, h: Helper)
    ensures Ranked(Call(s, a, h), Rank(h), Rank(h) + 1)
  {}

  lemma RankedThree(s: State, a: Action, x: Helper, y: Helper, z: Helper, n: nat)
    requires Rank(x) == n && Rank(y) == n + 1 && Rank(z) == n + 2
    ensures Ranked(Call(s, a, x) + Call(s, a, y) + Call(s, a, z), n, n + 3)
  {
    var cx, cy, cz := Call(s, a, x), Call(s, a, y), Call(s, a, z);
    CallRanked(s, a, x);
    CallRanked(s, a, y);
    CallRanked(s, a, z);
    RankedSum(cx, cy, n, n + 1, n + 2);
    RankedSum(cx + cy, cz, n, n + 2, n + 3);
  }

  /** The helper calls of an action are in the fixed order, so each is made at most once. */
  lemma PreludeRanked(s: State, a: Action)
    ensures Ranked(Prelude(s, a), 0, 8)
  {
    CacheRanked(s, a);
    ChildRanked(s, a);
    ParentRanked(s, a);
    RankedParts(Call(s, a, PropagateInvalidate), ChildCalls(s, a), ReparentCalls(s, a), UnparentCalls(s, a));
  }

  lemma RankedParts(a: seq<Item>, b: seq<Item>, c: seq<Item>, d: seq<Item>)
    requires Ranked(a, 0, 1) && Ranked(b, 1, 2) && Ranked(c, 2, 5) && Ranked(d, 5, 8)
    ensures Ranked(a + b + c + d, 0, 8)
  {
    RankedSum(a, b, 0, 1, 2);
    RankedSum(a + b, c, 0, 2, 5);
    RankedSum(a + b + c, d, 0, 5, 8);
  }

  lemma CacheRanked(s: State, a: Action)
    ensures Ranked(Call(s, a, PropagateInvalidate), 0, 1)
  {
    CallRanked(s, a, PropagateInvalidate);
  }

  lemma ParentRanked(s: State, a: Action)
    ensures Ranked(ReparentCalls(s, a), 2, 5) && Ranked(UnparentCalls(s, a), 5, 8)
  {
    RankedThree(s, a, ReparentNames, ReparentOrdered, ReparentChildOf, 2);
    RankedThree(s, a, UnparentNames, UnparentChildOf, UnparentOrdered, 5);
  }

  lemma ChildRanked(s: State, a: Action)
    ensures Ranked(ChildCalls(s, a), 1, 2)
  {
    assert !(Calls(s, a, ChildMoveAdd) && Calls(s, a, ChildMoveRemove(true)));
    assert !(Calls(s, a, ChildMoveAdd) && Calls(s, a, ChildMoveRemove(false)));
    assert !(Calls(s, a, ChildMoveRemove(true)) && Calls(s, a, ChildMoveRemove(false)));
    assert |ChildCalls(s, a)| <= 1;
  }

  /** And exactly the helpers that are to be called are. */
  lemma PreludeNames(s: State, a: Action, h: Helper)
    ensures Names(Prelude(s, a), h) <==> Calls(s, a, h)
  {
    var x, c, r, u := Call(s, a, PropagateInvalidate), ChildCalls(s, a), ReparentCalls(s, a), UnparentCalls(s, a);
    NamesThree(x, c, r, h);
    NamesSum(x + c + r, u, h);
    CallNames(s, a, PropagateInvalidate, h);
    NamesOfThree(s, a, ChildMoveAdd, ChildMoveRemove(true), ChildMoveRemove(false), h);
    NamesOfThree(s, a, ReparentNames, ReparentOrdered, ReparentChildOf, h);
    NamesOfThree(s, a, UnparentNames, UnparentChildOf, UnparentOrdered, h);
  }

  lemma NamesOfThree(s: State, a: Action, x: Helper, y: Helper, z: Helper, h: Helper)
    ensures Names(Call(s, a, x) + Call(s, a, y) + Call(s, a, z), h) <==> (h == x || h == y || h == z) && Calls(s, a, h)
  {
    NamesThree(Call(s, a, x), Call(s, a, y), Call(s, a, z), h);
    CallNames(s, a, x, h);
    CallNames(s, a, y, h);
    CallNames(s, a, z, h);
  }

  /** After its helper calls an action tells no helper. */
  lemma CallsFirst(s: State, a: Action)
    requires Inv(s) && Allowed(s, a)
    ensures TellsNone(Log(s, Prelude(s, a)), Apply(s, a))
  {
    PreludeRanked(s, a);
    InvLogs(s, Prelude(s, a));
    ActionSplits(s, a);
    CoreTellsNone(Log(s, Prelude(s, a)), a);
  }

  /** Every action appends its helper calls first, in the fixed order and each at most once, and
      tells no helper after that; a helper is told exactly when `Calls` says so. */
  lemma HelpersFirst(s: State, a: Action) returns (rest: seq<Item>)
    requires Inv(s) && Allowed(s, a)
    ensures Apply(s, a).trace == s.trace + Prelude(s, a) + rest
    ensures forall k :: 0 <= k < |rest| ==> !rest[k].Told?
    ensures Ranked(Prelude(s, a), 0, 8)
    ensures forall h {:trigger Calls(s, a, h)} :: Names(Prelude(s, a), h) <==> Calls(s, a, h)
  {
    CallsFirst(s, a);
    PreludeRanked(s, a);
    rest := Appended(Log(s, Prelude(s, a)), Apply(s, a));
    forall h ensures Names(Prelude(s, a), h) <==> Calls(s, a, h) {
      PreludeNames(s, a, h);
    }
  }

  lemma Appended(s: State, r: State) returns (rest: seq<Item>)
    requires TellsNone(s, r)
    ensures r.trace == s.trace + rest && forall k :: 0 <= k < |rest| ==> !rest[k].Told?
  {
    rest := r.trace[|s.trace|..];
  }
}
