/** No DontFragment instance appears or disappears silently: what each action of a run lets its
    observers hear, and exactly when a removal does not. */
module Hearing {
  import opened ActionModel
  import opened ActionEffects
  import opened Clearing
  import opened Traces
  import opened Runs
  import opened HelperOrder
  import Encoding

  // ----- adding

  lemma StockedHeard(s: State, t: TableId, other: Option<TableId>, row: nat, count: nat, diff: Diff, sparse: bool,
                     emplace: Id)
    requires Inv(s) && HasRows(s, t, row, count)
    ensures var r := Stocked(s, t, other, row, count, diff, sparse, emplace); NoSilentAdd(s, r) && NoSilentDrop(s, r)
  {
    var es := Rows(s, t, row, count);
    var stored := AddIds(s, diff.added, es, emplace);
    SoundAddIds(s, diff.added, es, emplace);
    AddsHeard(s, stored, diff.added, es, Emit(OnAdd, diff.added, es, t, other, row));
    if !AnyNew(s, diff.added, es) {
      NoNewHeard(s, stored, diff.added, es);
    }
  }

  // ----- removing

  /** Whether a removal emits its event before it drops any DontFragment instance. */
  ghost predicate Tells(s: State, removed: seq<Id>, es: seq<Entity>, flags: set<TableFlag>) {
    HasSparse !in flags || HasOnRemove in flags || HasDontFragment in flags || !AnyStored(s, removed, es)
  }

  /** Every drop of a removal is heard of within that removal if and only if the removal drops
      nothing, or its flags ask for the event or for the test that finds DontFragment instances,
      or there is none to find. */
  lemma RemovedHeard(s: State, t: TableId, other: Option<TableId>, row: nat, count: nat, removed: seq<Id>,
                     flags: set<TableFlag>)
    requires Inv(s) && HasRows(s, t, row, count)
    ensures var r := Removed(s, t, other, row, count, removed, flags);
            && NoSilentAdd(s, r)
            && (NoSilentDrop(s, r) <==> Tells(s, removed, Rows(s, t, row, count), flags))
  {
    var es := Rows(s, t, row, count);
    var item := Emit(OnRemove, removed, es, t, other, row);
    if HasSparse in flags {
      if HasOnRemove in flags || (HasDontFragment in flags && AnyStored(s, removed, es)) {
        var s1 := Log(s, [item]);
        SoundLog(s, item);
        SoundRemoveIds(s1, removed, es);
        DropsHeard(s, RemoveIds(s1, removed, es), removed, es, item);
      } else {
        UntoldRemoval(s, removed, es);
      }
    }
  }

  /** Removing without an event. */
  lemma UntoldRemoval(s: State, removed: seq<Id>, es: seq<Entity>)
    requires Inv(s)
    ensures var r := RemoveIds(s, removed, es);
            NoSilentAdd(s, r) && (NoSilentDrop(s, r) <==> !AnyStored(s, removed, es))
  {
    var r := RemoveIds(s, removed, es);
    SoundRemoveIds(s, removed, es);
    if AnyStored(s, removed, es) {
      var id, e :| id in removed && e in es && IsDontFragment(s, id) && e in Members(s, id);
      RemoveIdsEffect(s, removed, es);
      assert Known(s, id, e) && e in ToSet(es);
      SilentDrops(s, r, removed, es, id, e);
    } else {
      NoneStoredHeard(s, r, removed, es);
    }
  }

  // ----- clearing

  lemma ClearOneHeard(s: State, id: Id, e: Entity)
    requires Inv(s) && e in s.records
    ensures var r := ClearOne(s, id, e); NoSilentAdd(s, r) && NoSilentDrop(s, r)
  {
    if Clears(s, id, e) {
      var rec := s.records[e];
      var item := Emit(OnRemove, [id], [e], rec.table, Some(rec.table), Encoding.RecordToRow(rec.word));
      SoundLog(s, item);
      SoundRemoveOne(Log(s, [item]), id, e);
      DropsHeard(s, ClearOne(s, id, e), [id], [e], item);
    }
  }

  lemma {:induction false} ClearListHeard(s: State, ids: seq<Id>, e: Entity)
    requires Inv(s) && e in s.records
    ensures var r := ClearList(s, ids, e); NoSilentAdd(s, r) && NoSilentDrop(s, r)
  {
    if ids != [] {
      var r := ClearList(s, ids[..|ids| - 1], e);
      ClearListHeard(s, ids[..|ids| - 1], e);
      InvClearList(s, ids[..|ids| - 1], e);
      ClearListFrame(s, ids[..|ids| - 1], e);
      ClearOneHeard(r, ids[|ids| - 1], e);
      NoSilentAddThen(s, r, ClearList(s, ids, e));
      NoSilentDropThen(s, r, ClearList(s, ids, e));
    }
  }

  // ----- every action

  /** The condition on an action under which all its drops are heard of. */
  ghost predicate Audible(s: State, a: Action)
    requires Allowed(s, a)
  {
    Removes(s, a) ==> Tells(s, a.diff.removed, Rows(s, a.t, a.row, a.count), a.diff.removedFlags)
  }

  lemma CoreHeard(s: State, a: Action)
    requires Inv(s) && Allowed(s, a)
    ensures NoSilentAdd(s, Core(s, a)) && (NoSilentDrop(s, Core(s, a)) <==> Audible(s, a))
  {
    if Adds(a) {
      StockedHeard(s, a.t, OtherTable(a), a.row, a.count, a.diff, a.sparse, a.emplace);
    } else if Removes(s, a) {
      RemovedHeard(s, a.t, OtherTable(a), a.row, a.count, a.diff.removed, a.diff.removedFlags);
    } else if a.DoClear? {
      ClearHeard(s, a.e);
    } else if a.DoNotifyIds? {
      NotifyIdsHeard(s, a);
    }
  }

  lemma ClearHeard(s: State, e: Entity)
    requires Inv(s)
    ensures NoSilentAdd(s, Clear(s, e)) && NoSilentDrop(s, Clear(s, e))
  {
    if Marked(s, e) {
      ClearListHeard(s, s.list, e);
      SameWay(s, ClearList(s, s.list, e), Clear(s, e));
    }
  }

  lemma NotifyIdsHeard(s: State, a: Action)
    requires a.DoNotifyIds? && Allowed(s, a)
    ensures NoSilentAdd(s, Apply(s, a)) && NoSilentDrop(s, Apply(s, a))
  {
    AllHooks(s, a.ids, Rows(s, a.t, a.row, a.count));
  }

  /** What is heard of on the way depends on the trace alone. */
  lemma SameWay(s: State, a: State, r: State)
    requires r.trace == a.trace
    ensures (NoSilentAdd(s, a) <==> NoSilentAdd(s, r)) && (NoSilentDrop(s, a) <==> NoSilentDrop(s, r))
  {}

  /** No action lets a DontFragment instance appear silently, and it lets none disappear silently if
      and only if it is audible. */
  lemma ActionHeard(s: State, a: Action)
    requires Inv(s) && Allowed(s, a)
    ensures NoSilentAdd(s, Apply(s, a)) && (NoSilentDrop(s, Apply(s, a)) <==> Audible(s, a))
  {
    var told := Prelude(s, a);
    var s1 := Log(s, told);
    PreludeRanked(s, a);
    InvLogs(s, told);
    ActionSplits(s, a);
    CoreTellsNone(s1, a);
    CoreHeard(s1, a);
    NoSilentAfterTold(s, told, Core(s1, a));
    SameAudible(s, told, a);
  }

  lemma SameAudible(s: State, items: seq<Item>, a: Action)
    requires Allowed(s, a) && Allowed(Log(s, items), a)
    ensures Audible(Log(s, items), a) <==> Audible(s, a)
  {
    if Removes(s, a) {
      SameStored(s, Log(s, items), a.diff.removed, Rows(s, a.t, a.row, a.count));
    }
  }

  // ----- whole runs

  /** The states that a run goes through, from the empty world on. */
  ghost predicate IsRun(states: seq<State>, actions: seq<Action>) {
    && |states| == |actions| + 1 && states[0] == EMPTY
    && forall i :: 0 <= i < |actions| ==> Steps(states, actions, i)
  }

  ghost predicate Steps(states: seq<State>, actions: seq<Action>, i: nat)
    requires i < |actions| && |states| == |actions| + 1
  {
    Allowed(states[i], actions[i]) && states[i + 1] == Apply(states[i], actions[i])
  }

  lemma {:induction false} RunReaches(states: seq<State>, actions: seq<Action>, i: nat)
    requires IsRun(states, actions) && i <= |actions|
    ensures Reaches(actions[..i], states[i])
  {
    if i > 0 {
      RunReaches(states, actions, i - 1);
      assert Steps(states, actions, i - 1);
      assert actions[..i][..i - 1] == actions[..i - 1] && actions[..i][i - 1] == actions[i - 1];
    }
  }

  /** In every run, whatever its diffs say: no action lets a DontFragment instance appear silently, and
      each lets none disappear silently, in the sense of an event of its own, if and only if it is
      audible. */
  lemma WholeRunHeard(states: seq<State>, actions: seq<Action>, i: nat)
    requires IsRun(states, actions) && i < |actions|
    ensures Inv(states[i]) && Allowed(states[i], actions[i])
    ensures NoSilentAdd(states[i], states[i + 1])
    ensures NoSilentDrop(states[i], states[i + 1]) <==> Audible(states[i], actions[i])
  {
    RunInv(states, actions, i);
    assert Steps(states, actions, i);
    ActionHeard(states[i], actions[i]);
  }

  lemma RunInv(states: seq<State>, actions: seq<Action>, i: nat)
    requires IsRun(states, actions) && i <= |actions|
    ensures Inv(states[i])
  {
    RunReaches(states, actions, i);
    RunsKeepInvariant(actions[..i], states[i]);
  }

  lemma StockedComps(s: State, t: TableId, other: Option<TableId>, row: nat, count: nat, diff: Diff, sparse: bool,
                     emplace: Id)
    requires HasRows(s, t, row, count)
    ensures Stocked(s, t, other, row, count, diff, sparse, emplace).comps == s.comps
  {
    AddIdsEffect(s, diff.added, Rows(s, t, row, count), emplace);
  }

  lemma RemovedComps(s: State, t: TableId, other: Option<TableId>, row: nat, count: nat, removed: seq<Id>,
                     flags: set<TableFlag>)
    requires HasRows(s, t, row, count)
    ensures Removed(s, t, other, row, count, removed, flags).comps == s.comps
  {
    var es := Rows(s, t, row, count);
    RemoveIdsEffect(s, removed, es);
    RemoveIdsEffect(Log(s, [Emit(OnRemove, removed, es, t, other, row)]), removed, es);
  }

  /** An action changes no record of a component that has one. */
  lemma CompsStay(s: State, a: Action)
    requires Allowed(s, a)
    ensures forall id :: id in s.comps ==> id in Apply(s, a).comps && Apply(s, a).comps[id] == s.comps[id]
  {
    ActionSplits(s, a);
    var s1 := Log(s, Prelude(s, a));
    if Adds(a) {
      StockedComps(s1, a.t, OtherTable(a), a.row, a.count, a.diff, a.sparse, a.emplace);
    } else if Removes(s1, a) {
      RemovedComps(s1, a.t, OtherTable(a), a.row, a.count, a.diff.removed, a.diff.removedFlags);
    } else if a.DoClear? && Marked(s, a.e) {
      ClearListFrame(s, s.list, a.e);
    }
  }

  /** Later states of a run have longer traces and the same component records. */
  lemma {:induction false} RunGrows(states: seq<State>, actions: seq<Action>, i: nat, j: nat)
    requires IsRun(states, actions) && i <= j <= |actions|
    ensures states[i].trace <= states[j].trace
    ensures forall id :: id in states[i].comps ==> id in states[j].comps && states[j].comps[id] == states[i].comps[id]
    decreases j
  {
    if i < j {
      RunGrows(states, actions, i, j - 1);
      StepGrows(states, actions, j - 1, j);
    }
  }

  lemma StepGrows(states: seq<State>, actions: seq<Action>, i: nat, j: nat)
    requires IsRun(states, actions) && j == i + 1 <= |actions|
    ensures states[i].trace <= states[j].trace
    ensures forall id :: id in states[i].comps ==> id in states[j].comps && states[j].comps[id] == states[i].comps[id]
  {
    assert states[i].trace <= states[j].trace by { WholeRunHeard(states, actions, i); }
    assert Steps(states, actions, i);
    CompsStay(states[i], actions[i]);
  }

  /** The action of a run that appended the item at `k`. */
  lemma {:induction false} AppendedBy(states: seq<State>, actions: seq<Action>, j: nat, k: nat) returns (i: nat)
    requires IsRun(states, actions) && j <= |actions| && k < |states[j].trace|
    ensures i < j && |states[i].trace| <= k < |states[i + 1].trace|
  {
    assert j > 0;
    if |states[j - 1].trace| <= k {
      i := j - 1;
    } else {
      i := AppendedBy(states, actions, j - 1, k);
    }
  }

  /** In every run, every DontFragment instance that is stored at the end was inserted by some action,
      told of by an OnAdd event of that same action, and has been stored ever since. */
  lemma StoredWasHeard(states: seq<State>, actions: seq<Action>, id: Id, e: Entity) returns (i: nat, k: nat, m: nat)
    requires IsRun(states, actions)
    requires IsDontFragment(states[|actions|], id) && e in Members(states[|actions|], id)
    ensures i < |actions| && |states[i].trace| <= k < m < |states[i + 1].trace| <= |states[|actions|].trace|
    ensures var trace := states[|actions|].trace;
            && trace[k] == Inserted(id, e) && Covers(trace[m], OnAdd, id, e)
            && StoredThrough(trace, id, e, k + 1, |trace|)
  {
    var r := states[|actions|];
    RunInv(states, actions, |actions|);
    assert r.trace[..|r.trace|] == r.trace;
    k := LastInsertion(r.trace, id, e, |r.trace|);
    i := AppendedBy(states, actions, |actions|, k);
    WholeRunHeard(states, actions, i);
    RunGrows(states, actions, i, |actions|);
    RunGrows(states, actions, i + 1, |actions|);
    var trace := states[i + 1].trace;
    assert trace[k] == r.trace[k] && AddHeardAt(states[i], trace, k);
    assert IsDontFragment(states[i], id);
    m :| k < m < |trace| && Covers(trace[m], OnAdd, id, e) && StoredThrough(trace, id, e, k + 1, m);
    assert r.trace[m] == trace[m];
  }

  /** The insertion that made what is stored at `n` stored. */
  lemma {:induction false} LastInsertion(trace: seq<Item>, id: Id, e: Entity, n: nat) returns (k: nat)
    requires 0 < n <= |trace| && Stored(trace[..n], id, e)
    ensures k < n && trace[k] == Inserted(id, e) && StoredThrough(trace, id, e, k + 1, n)
    decreases n
  {
    assert trace[..n] == trace[..n - 1] + [trace[n - 1]];
    StoredNext(trace[..n - 1], trace[n - 1], id, e);
    if trace[n - 1] == Inserted(id, e) {
      k := n - 1;
    } else {
      k := LastInsertion(trace, id, e, n - 1);
    }
  }
}
