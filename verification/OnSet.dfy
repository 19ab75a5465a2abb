/** Setting several components of several rows at once against setting them one by one. */
module OnSetBatches {
  import opened ActionModel
  import opened ActionEffects
  import opened Traces

  // ----- the single calls

  /** `flecs_notify_on_set` for every id of one row, in order. */
  function NotifyRow(s: State, t: TableId, row: nat, ids: seq<Id>): (r: State)
    requires HasRows(s, t, row, 1) && forall id :: id in ids ==> id in s.comps
    ensures r.comps == s.comps && r.tables == s.tables
  {
    if ids == [] then s else NotifyOne(NotifyRow(s, t, row, ids[..|ids| - 1]), t, row, ids[|ids| - 1], true)
  }

  /** And for every row, in order. */
  function NotifyEach(s: State, t: TableId, row: nat, count: nat, ids: seq<Id>): (r: State)
    requires HasRows(s, t, row, count) && forall id :: id in ids ==> id in s.comps
    ensures r.comps == s.comps && r.tables == s.tables
    decreases count
  {
    if count == 0 then s
    else
      var n := count - 1;
      NotifyRow(NotifyEach(s, t, row, n, ids), t, row + n, ids)
  }

  function OneItems(s: State, t: TableId, row: nat, id: Id): (items: seq<Item>)
    requires HasRows(s, t, row, 1) && id in s.comps
  {
    var es := Rows(s, t, row, 1);
    SetHooks(s, id, es) + SetEvent(s, t, row, es, [id])
  }

  function RowItems(s: State, t: TableId, row: nat, ids: seq<Id>): (items: seq<Item>)
    requires HasRows(s, t, row, 1) && forall id :: id in ids ==> id in s.comps
  {
    if ids == [] then [] else RowItems(s, t, row, ids[..|ids| - 1]) + OneItems(s, t, row, ids[|ids| - 1])
  }

  function EachItems(s: State, t: TableId, row: nat, count: nat, ids: seq<Id>): (items: seq<Item>)
    requires HasRows(s, t, row, count) && forall id :: id in ids ==> id in s.comps
    decreases count
  {
    if count == 0 then []
    else
      var n := count - 1;
      EachItems(s, t, row, n, ids) + RowItems(s, t, row + n, ids)
  }

  lemma SameSet(s: State, items: seq<Item>, t: TableId, row: nat, id: Id)
    requires HasRows(s, t, row, 1) && id in s.comps
    ensures OneItems(Log(s, items), t, row, id) == OneItems(s, t, row, id)
  {
    var r := Log(s, items);
    assert forall x :: IsDontFragment(r, x) == IsDontFragment(s, x);
    assert AnyDontFragment(r, [id]) <==> AnyDontFragment(s, [id]);
  }

  lemma {:induction false} RowLogs(s: State, items: seq<Item>, t: TableId, row: nat, ids: seq<Id>)
    requires HasRows(s, t, row, 1) && forall id :: id in ids ==> id in s.comps
    ensures NotifyRow(Log(s, items), t, row, ids) == Log(s, items + RowItems(s, t, row, ids))
  {
    if ids == [] {
      assert items + [] == items;
    } else {
      var last := |ids| - 1;
      RowLogs(s, items, t, row, ids[..last]);
      var before := items + RowItems(s, t, row, ids[..last]);
      SameSet(s, before, t, row, ids[last]);
      LogTwice(s, before, OneItems(s, t, row, ids[last]));
      assert before + OneItems(s, t, row, ids[last]) == items + RowItems(s, t, row, ids);
    }
  }

  /** The single calls only append, and what each appends does not depend on the others. */
  lemma {:induction false} EachLogs(s: State, t: TableId, row: nat, count: nat, ids: seq<Id>)
    requires HasRows(s, t, row, count) && forall id :: id in ids ==> id in s.comps
    ensures NotifyEach(s, t, row, count, ids) == Log(s, EachItems(s, t, row, count, ids))
    decreases count
  {
    if count == 0 {
      assert s.trace + [] == s.trace;
    } else {
      var n := count - 1;
      EachLogs(s, t, row, n, ids);
      RowLogs(s, EachItems(s, t, row, n, ids), t, row + n, ids);
    }
  }

  // ----- hook deliveries

  function Occurs(es: seq<Entity>, e: Entity): (n: nat) {
    if es == [] then 0 else Occurs(es[..|es| - 1], e) + if es[|es| - 1] == e then 1 else 0
  }

  /** How often the on_set hook of `id` was given `e`. */
  function Times(items: seq<Item>, id: Id, e: Entity): (n: nat) {
    if items == [] then 0
    else
      var last := items[|items| - 1];
      Times(items[..|items| - 1], id, e)
      + if last.Hook? && last.event == OnSet && last.id == id then Occurs(last.entities, e) else 0
  }

  lemma {:induction false} TimesSum(a: seq<Item>, b: seq<Item>, id: Id, e: Entity)
    ensures Times(a + b, id, e) == Times(a, id, e) + Times(b, id, e)
  {
    if b == [] {
      assert a + b == a;
    } else {
      TimesSum(a, b[..|b| - 1], id, e);
      assert (a + b)[..|a + b| - 1] == a + b[..|b| - 1];
    }
  }

  lemma OccursOne(x: Entity, e: Entity)
    ensures Occurs([x], e) == if x == e then 1 else 0
  {
    assert [x][..0] == [];
  }

  lemma OccursGrows(es: seq<Entity>, x: Entity, e: Entity)
    ensures Occurs(es + [x], e) == Occurs(es, e) + Occurs([x], e)
  {
    OccursOne(x, e);
    assert (es + [x])[..|es|] == es;
  }

  /** How often it should be: once for every time `id` is set and `e` is a row, if there is a hook. */
  function Wanted(s: State, ids: seq<Id>, es: seq<Entity>, id: Id, e: Entity): (n: nat)
    requires forall x :: x in ids ==> x in s.comps
  {
    if ids == [] then 0
    else
      var x := ids[|ids| - 1];
      Wanted(s, ids[..|ids| - 1], es, id, e) + if x == id && s.comps[x].onSet then Occurs(es, e) else 0
  }

  lemma {:induction false} PerRowTimes(x: Id, es: seq<Entity>, hooks: seq<Item>, id: Id, e: Entity)
    requires |hooks| == |es| && forall k :: 0 <= k < |es| ==> hooks[k] == Hook(OnSet, x, [es[k]])
    ensures Times(hooks, id, e) == if x == id then Occurs(es, e) else 0
  {
    if es != [] {
      var last := |es| - 1;
      PerRowTimes(x, es[..last], hooks[..last], id, e);
      OccursOne(es[last], e);
    }
  }

  lemma HookTimes(s: State, x: Id, es: seq<Entity>, id: Id, e: Entity)
    requires x in s.comps
    ensures Times(SetHooks(s, x, es), id, e) == if x == id && s.comps[x].onSet then Occurs(es, e) else 0
  {
    if s.comps[x].onSet {
      if s.comps[x].sparse {
        PerRowTimes(x, es, SetHooks(s, x, es), id, e);
      } else {
        assert [Hook(OnSet, x, es)][..0] == [];
      }
    }
  }

  lemma {:induction false} BatchTimes(s: State, ids: seq<Id>, es: seq<Entity>, id: Id, e: Entity)
    requires forall x :: x in ids ==> x in s.comps
    ensures Times(SetHooksOf(s, ids, es), id, e) == Wanted(s, ids, es, id, e)
  {
    if ids != [] {
      var last := |ids| - 1;
      BatchTimes(s, ids[..last], es, id, e);
      HookTimes(s, ids[last], es, id, e);
      TimesSum(SetHooksOf(s, ids[..last], es), SetHooks(s, ids[last], es), id, e);
    }
  }

  lemma EventTimes(s: State, t: TableId, row: nat, es: seq<Entity>, ids: seq<Id>, id: Id, e: Entity)
    requires t in s.tables
    ensures Times(SetEvent(s, t, row, es, ids), id, e) == 0
  {
    var items := SetEvent(s, t, row, es, ids);
    if items != [] {
      assert items[..0] == [];
    }
  }

  lemma {:induction false} RowTimes(s: State, t: TableId, row: nat, ids: seq<Id>, id: Id, e: Entity)
    requires HasRows(s, t, row, 1) && forall x :: x in ids ==> x in s.comps
    ensures Times(RowItems(s, t, row, ids), id, e) == Wanted(s, ids, [s.tables[t].entities[row]], id, e)
  {
    if ids != [] {
      var last, es := |ids| - 1, Rows(s, t, row, 1);
      assert es == [s.tables[t].entities[row]];
      RowTimes(s, t, row, ids[..last], id, e);
      HookTimes(s, ids[last], es, id, e);
      EventTimes(s, t, row, es, [ids[last]], id, e);
      TimesSum(SetHooks(s, ids[last], es), SetEvent(s, t, row, es, [ids[last]]), id, e);
      TimesSum(RowItems(s, t, row, ids[..last]), OneItems(s, t, row, ids[last]), id, e);
    }
  }

  /** One more row adds what that row wants. */
  lemma {:induction false} WantedGrows(s: State, ids: seq<Id>, es: seq<Entity>, x: Entity, id: Id, e: Entity)
    requires forall i :: i in ids ==> i in s.comps
    ensures Wanted(s, ids, es + [x], id, e) == Wanted(s, ids, es, id, e) + Wanted(s, ids, [x], id, e)
  {
    if ids != [] {
      WantedGrows(s, ids[..|ids| - 1], es, x, id, e);
      OccursGrows(es, x, e);
    }
  }

  lemma {:induction false} WantedNone(s: State, ids: seq<Id>, id: Id, e: Entity)
    requires forall i :: i in ids ==> i in s.comps
    ensures Wanted(s, ids, [], id, e) == 0
  {
    if ids != [] {
      WantedNone(s, ids[..|ids| - 1], id, e);
    }
  }

  lemma {:induction false} EachTimes(s: State, t: TableId, row: nat, count: nat, ids: seq<Id>, id: Id, e: Entity)
    requires HasRows(s, t, row, count) && forall x :: x in ids ==> x in s.comps
    ensures Times(EachItems(s, t, row, count, ids), id, e) == Wanted(s, ids, Rows(s, t, row, count), id, e)
    decreases count
  {
    if count == 0 {
      WantedNone(s, ids, id, e);
    } else {
      EachTimes(s, t, row, count - 1, ids, id, e);
      OneMoreRow(s, t, row, count - 1, count, ids, id, e);
    }
  }

  /** One more row of single calls. */
  lemma EachGrows(s: State, t: TableId, row: nat, n: nat, m: nat, ids: seq<Id>)
    requires m == n + 1 && HasRows(s, t, row, m) && forall x :: x in ids ==> x in s.comps
    ensures EachItems(s, t, row, m, ids) == EachItems(s, t, row, n, ids) + RowItems(s, t, row + n, ids)
  {
    assert m - 1 == n;
  }

  lemma RowsGrow(s: State, t: TableId, row: nat, n: nat, m: nat)
    requires m == n + 1 && HasRows(s, t, row, m)
    ensures Rows(s, t, row, m) == Rows(s, t, row, n) + [s.tables[t].entities[row + n]]
  {
    var all := s.tables[t].entities;
    assert all[row..row + m] == all[row..row + n] + [all[row + n]];
  }

  lemma OneMoreRow(s: State, t: TableId, row: nat, n: nat, m: nat, ids: seq<Id>, id: Id, e: Entity)
    requires m == n + 1 && HasRows(s, t, row, m) && forall x :: x in ids ==> x in s.comps
    requires Times(EachItems(s, t, row, n, ids), id, e) == Wanted(s, ids, Rows(s, t, row, n), id, e)
    ensures Times(EachItems(s, t, row, m, ids), id, e) == Wanted(s, ids, Rows(s, t, row, m), id, e)
  {
    var items, last, all := EachItems(s, t, row, n, ids), RowItems(s, t, row + n, ids), EachItems(s, t, row, m, ids);
    var es, x, rows := Rows(s, t, row, n), s.tables[t].entities[row + n], Rows(s, t, row, m);
    assert all == items + last by { EachGrows(s, t, row, n, m, ids); }
    assert rows == es + [x] by { RowsGrow(s, t, row, n, m); }
    assert Times(last, id, e) == Wanted(s, ids, [x], id, e) by { RowTimes(s, t, row + n, ids, id, e); }
    TimesStep(s, ids, items, last, all, es, x, rows, id, e);
  }

  lemma TimesStep(s: State, ids: seq<Id>, items: seq<Item>, last: seq<Item>, all: seq<Item>, es: seq<Entity>, x: Entity,
                  rows: seq<Entity>, id: Id, e: Entity)
    requires (forall i :: i in ids ==> i in s.comps) && all == items + last && rows == es + [x]
    requires Times(items, id, e) == Wanted(s, ids, es, id, e) && Times(last, id, e) == Wanted(s, ids, [x], id, e)
    ensures Times(all, id, e) == Wanted(s, ids, rows, id, e)
  {
    TimesSum(items, last, id, e);
    WantedGrows(s, ids, es, x, id, e);
  }

  /** The batch and the single calls only append to the trace. The batch gives the on_set hooks
      every (id, entity) exactly as often as the single calls do, all before its event, of which
      there is at most one. */
  lemma BatchDeliversAlike(s: State, t: TableId, row: nat, count: nat, ids: seq<Id>)
    requires HasRows(s, t, row, count) && forall id :: id in ids ==> id in s.comps
    ensures var es := Rows(s, t, row, count);
            var hooks, event := SetHooksOf(s, ids, es), SetEvent(s, t, row, es, ids);
            && NotifyIds(s, t, row, count, ids) == Log(s, hooks + event)
            && NotifyEach(s, t, row, count, ids) == Log(s, EachItems(s, t, row, count, ids))
            && (forall id, e :: Times(hooks, id, e) == Times(EachItems(s, t, row, count, ids), id, e))
            && |event| <= 1 && (forall k :: 0 <= k < |event| ==> event[k].Emit?)
            && forall k :: 0 <= k < |hooks| ==> hooks[k].Hook?
  {
    var es := Rows(s, t, row, count);
    forall id, e ensures Times(SetHooksOf(s, ids, es), id, e) == Times(EachItems(s, t, row, count, ids), id, e) {
      BatchTimes(s, ids, es, id, e);
      EachTimes(s, t, row, count, ids, id, e);
    }
    EachLogs(s, t, row, count, ids);
    AllHooks(s, ids, es);
  }

  // ----- how the calls are grouped

  /** The hook calls for one id: one per row for a sparse one, one in all for a column. */
  function CallsOf(s: State, id: Id, rows: nat): (n: nat)
    requires id in s.comps
  {
    if !s.comps[id].onSet then 0 else if s.comps[id].sparse then rows else 1
  }

  /** The hook calls for the first `i` ids. */
  function CallsBefore(s: State, ids: seq<Id>, rows: nat, i: nat): (n: nat)
    requires i <= |ids| && forall id :: id in ids ==> id in s.comps
    decreases i
  {
    if i == 0 then 0 else CallsBefore(s, ids, rows, i - 1) + CallsOf(s, ids[i - 1], rows)
  }

  /** The calls for the id at `i` come right after those for the ids before it. A sparse id gets one call per
      row, in row order, that names this row alone; a column gets one call that names all rows. */
  ghost predicate CalledAt(s: State, ids: seq<Id>, es: seq<Entity>, hooks: seq<Item>, i: nat)
    requires i < |ids| && forall id :: id in ids ==> id in s.comps
  {
    var id, at := ids[i], CallsBefore(s, ids, |es|, i);
    && at + CallsOf(s, id, |es|) <= |hooks|
    && (s.comps[id].onSet && s.comps[id].sparse ==>
          forall j :: 0 <= j < |es| ==> hooks[at + j] == Hook(OnSet, id, [es[j]]))
    && (s.comps[id].onSet && !s.comps[id].sparse ==> hooks[at] == Hook(OnSet, id, es))
  }

  lemma CalledAtGrows(s: State, ids: seq<Id>, es: seq<Entity>, hooks: seq<Item>, more: seq<Item>, i: nat)
    requires i < |ids| && (forall id :: id in ids ==> id in s.comps) && CalledAt(s, ids, es, hooks, i)
    ensures CalledAt(s, ids, es, hooks + more, i)
  {}

  lemma CalledNext(s: State, ids: seq<Id>, es: seq<Entity>, hooks: seq<Item>, i: nat)
    requires i < |ids| && (forall id :: id in ids ==> id in s.comps) && |hooks| == CallsBefore(s, ids, |es|, i)
    ensures CalledAt(s, ids, es, hooks + SetHooks(s, ids[i], es), i)
    ensures |SetHooks(s, ids[i], es)| == CallsOf(s, ids[i], |es|)
  {}

  lemma {:induction false} GroupedUpTo(s: State, ids: seq<Id>, es: seq<Entity>, m: nat)
    requires m <= |ids| && forall id :: id in ids ==> id in s.comps
    ensures |SetHooksOf(s, ids[..m], es)| == CallsBefore(s, ids, |es|, m)
    ensures forall i :: 0 <= i < m ==> CalledAt(s, ids, es, SetHooksOf(s, ids[..m], es), i)
    decreases m
  {
    if m > 0 {
      var k := m - 1;
      var hooks, last := SetHooksOf(s, ids[..k], es), SetHooks(s, ids[k], es);
      GroupedUpTo(s, ids, es, k);
      assert SetHooksOf(s, ids[..m], es) == hooks + last by {
        assert ids[..m][..k] == ids[..k] && ids[..m][k] == ids[k];
      }
      CalledNext(s, ids, es, hooks, k);
      assert CallsBefore(s, ids, |es|, m) == CallsBefore(s, ids, |es|, k) + CallsOf(s, ids[k], |es|);
      forall i | 0 <= i < m ensures CalledAt(s, ids, es, hooks + last, i) {
        if i < k {
          CalledAtGrows(s, ids, es, hooks, last, i);
        }
      }
    }
  }

  /** The batch makes exactly these hook calls, in list order, and in row order within a sparse id. */
  lemma BatchGroups(s: State, ids: seq<Id>, es: seq<Entity>)
    requires forall id :: id in ids ==> id in s.comps
    ensures |SetHooksOf(s, ids, es)| == CallsBefore(s, ids, |es|, |ids|)
    ensures forall i :: 0 <= i < |ids| ==> CalledAt(s, ids, es, SetHooksOf(s, ids, es), i)
  {
    GroupedUpTo(s, ids, es, |ids|);
    assert ids[..|ids|] == ids;
  }

  /** A single call makes one hook call if it is asked to and there is a hook, and none otherwise. */
  lemma SingleGroups(s: State, t: TableId, row: nat, id: Id, invokeHook: bool)
    requires HasRows(s, t, row, 1) && id in s.comps
    ensures NotifyOne(s, t, row, id, invokeHook) ==
            Log(s, (if invokeHook && s.comps[id].onSet then [Hook(OnSet, id, [s.tables[t].entities[row]])] else [])
                   + SetEvent(s, t, row, [s.tables[t].entities[row]], [id]))
  {
    var es := Rows(s, t, row, 1);
    assert es == [s.tables[t].entities[row]];
    if invokeHook && s.comps[id].onSet {
      assert SetHooks(s, id, es) == [Hook(OnSet, id, es)];
    }
  }

  // ----- event coverage

  /** Some OnSet event among the items tells of `id` being set for `e`. */
  ghost predicate Notified(items: seq<Item>, id: Id, e: Entity) {
    exists k :: 0 <= k < |items| && Covers(items[k], OnSet, id, e)
  }

  lemma NotifiedSum(a: seq<Item>, b: seq<Item>, id: Id, e: Entity)
    ensures Notified(a + b, id, e) <==> Notified(a, id, e) || Notified(b, id, e)
  {
    if Notified(a, id, e) {
      var k :| 0 <= k < |a| && Covers(a[k], OnSet, id, e);
      assert (a + b)[k] == a[k];
    }
    if Notified(b, id, e) {
      var k :| 0 <= k < |b| && Covers(b[k], OnSet, id, e);
      assert (a + b)[|a| + k] == b[k];
    }
    if Notified(a + b, id, e) {
      var k :| 0 <= k < |a + b| && Covers((a + b)[k], OnSet, id, e);
      assert k < |a| ==> (a + b)[k] == a[k];
      assert k >= |a| ==> (a + b)[k] == b[k - |a|];
    }
  }

  lemma HooksTellNothing(items: seq<Item>, id: Id, e: Entity)
    requires forall k :: 0 <= k < |items| ==> items[k].Hook?
    ensures !Notified(items, id, e)
  {}

  lemma EventTells(s: State, t: TableId, row: nat, es: seq<Entity>, ids: seq<Id>, id: Id, e: Entity)
    requires t in s.tables
    ensures Notified(SetEvent(s, t, row, es, ids), id, e) <==>
            id in ids && e in es && (HasOnSet in s.tables[t].flags || AnyDontFragment(s, ids))
  {
    var items := SetEvent(s, t, row, es, ids);
    if items != [] && id in ids && e in es {
      assert Covers(items[0], OnSet, id, e);
    }
  }

  lemma OneTells(s: State, t: TableId, row: nat, x: Id, id: Id, e: Entity)
    requires HasRows(s, t, row, 1) && x in s.comps
    ensures Notified(OneItems(s, t, row, x), id, e) <==>
            id == x && e == s.tables[t].entities[row] && (HasOnSet in s.tables[t].flags || IsDontFragment(s, x))
  {
    var es := Rows(s, t, row, 1);
    NotifiedSum(SetHooks(s, x, es), SetEvent(s, t, row, es, [x]), id, e);
    HooksTellNothing(SetHooks(s, x, es), id, e);
    EventTells(s, t, row, es, [x], id, e);
    assert es == [s.tables[t].entities[row]];
    assert AnyDontFragment(s, [x]) <==> IsDontFragment(s, x) by { assert x in [x]; }
  }

  /** A single call on `id` emits. */
  predicate Tellable(s: State, t: TableId, ids: seq<Id>, id: Id)
    requires t in s.tables
  {
    id in ids && (HasOnSet in s.tables[t].flags || IsDontFragment(s, id))
  }

  lemma {:induction false} RowTells(s: State, t: TableId, row: nat, ids: seq<Id>, id: Id, e: Entity)
    requires HasRows(s, t, row, 1) && forall x :: x in ids ==> x in s.comps
    ensures Notified(RowItems(s, t, row, ids), id, e) <==>
            e == s.tables[t].entities[row] && Tellable(s, t, ids, id)
  {
    if ids != [] {
      var last := |ids| - 1;
      RowTells(s, t, row, ids[..last], id, e);
      OneTells(s, t, row, ids[last], id, e);
      NotifiedSum(RowItems(s, t, row, ids[..last]), OneItems(s, t, row, ids[last]), id, e);
      assert id in ids <==> id in ids[..last] || id == ids[last];
    }
  }

  lemma {:induction false} EachTells(s: State, t: TableId, row: nat, count: nat, ids: seq<Id>, id: Id, e: Entity)
    requires HasRows(s, t, row, count) && forall x :: x in ids ==> x in s.comps
    ensures Notified(EachItems(s, t, row, count, ids), id, e) <==>
            e in Rows(s, t, row, count) && Tellable(s, t, ids, id)
    decreases count
  {
    if count > 0 {
      EachTells(s, t, row, count - 1, ids, id, e);
      OneMoreTells(s, t, row, count - 1, count, ids, id, e);
    }
  }

  lemma OneMoreTells(s: State, t: TableId, row: nat, n: nat, m: nat, ids: seq<Id>, id: Id, e: Entity)
    requires m == n + 1 && HasRows(s, t, row, m) && forall x :: x in ids ==> x in s.comps
    requires Notified(EachItems(s, t, row, n, ids), id, e) <==> e in Rows(s, t, row, n) && Tellable(s, t, ids, id)
    ensures Notified(EachItems(s, t, row, m, ids), id, e) <==> e in Rows(s, t, row, m) && Tellable(s, t, ids, id)
  {
    var items, last := EachItems(s, t, row, n, ids), RowItems(s, t, row + n, ids);
    var es, x := Rows(s, t, row, n), s.tables[t].entities[row + n];
    assert EachItems(s, t, row, m, ids) == items + last by { EachGrows(s, t, row, n, m, ids); }
    assert Rows(s, t, row, m) == es + [x] by { RowsGrow(s, t, row, n, m); }
    assert Notified(last, id, e) <==> e == x && Tellable(s, t, ids, id) by { RowTells(s, t, row + n, ids, id, e); }
    NotifiedStep(items, last, es, x, id, e, Tellable(s, t, ids, id));
  }

  lemma NotifiedStep(items: seq<Item>, last: seq<Item>, es: seq<Entity>, x: Entity, id: Id, e: Entity, tellable: bool)
    requires Notified(items, id, e) <==> e in es && tellable
    requires Notified(last, id, e) <==> e == x && tellable
    ensures Notified(items + last, id, e) <==> e in es + [x] && tellable
  {
    NotifiedSum(items, last, id, e);
  }

  /** The batch's event tells of every pair that the single calls tell of; and it tells of no
      other pair exactly when the table has OnSet observers, or all of the ids are DontFragment or
      none is, or there is no row. */
  lemma BatchTellsAtLeast(s: State, t: TableId, row: nat, count: nat, ids: seq<Id>)
    requires HasRows(s, t, row, count) && forall id :: id in ids ==> id in s.comps
    ensures var es := Rows(s, t, row, count);
            var batch, each := SetHooksOf(s, ids, es) + SetEvent(s, t, row, es, ids), EachItems(s, t, row, count, ids);
            && (forall id, e :: Notified(each, id, e) ==> Notified(batch, id, e))
            && ((forall id, e :: Notified(batch, id, e) ==> Notified(each, id, e)) <==>
                || HasOnSet in s.tables[t].flags
                || (forall id :: id in ids ==> IsDontFragment(s, id))
                || (forall id :: id in ids ==> !IsDontFragment(s, id))
                || count == 0)
  {
    var es := Rows(s, t, row, count);
    var batch, each := SetHooksOf(s, ids, es) + SetEvent(s, t, row, es, ids), EachItems(s, t, row, count, ids);
    forall id, e
      ensures Notified(each, id, e) <==> id in ids && e in es && (HasOnSet in s.tables[t].flags || IsDontFragment(s, id))
      ensures Notified(batch, id, e) <==> id in ids && e in es && (HasOnSet in s.tables[t].flags || AnyDontFragment(s, ids))
    {
      EachTells(s, t, row, count, ids, id, e);
      AllHooks(s, ids, es);
      HooksTellNothing(SetHooksOf(s, ids, es), id, e);
      EventTells(s, t, row, es, ids, id, e);
      NotifiedSum(SetHooksOf(s, ids, es), SetEvent(s, t, row, es, ids), id, e);
    }
    if count > 0 && HasOnSet !in s.tables[t].flags && AnyDontFragment(s, ids) {
      assert es[0] in es;
      if x :| x in ids && !IsDontFragment(s, x) {
        assert Notified(batch, x, es[0]) && !Notified(each, x, es[0]);
      }
    }
  }
}
