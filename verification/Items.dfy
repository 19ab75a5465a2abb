/** What adding and removing append to the trace, item by item: which instances are stored and dropped,
    which hooks run for them, how often and in which order. */
module StorageItems {
  import opened ActionModel
  import opened ActionEffects
  import opened Traces

  // ----- adding

  /** The row at `j` gets its first instance of the id at `i` there, and not before. */
  predicate FreshAt(s: State, ids: seq<Id>, es: seq<Entity>, i: nat, j: nat)
    requires i < |ids| && j < |es|
  {
    es[j] !in Members(s, ids[i]) && ids[i] !in ids[..i] && es[j] !in es[..j]
  }

  predicate HasOnAddHook(s: State, id: Id) { IsSparse(s, id) && s.comps[id].typed && s.comps[id].onAdd }

  /** The value is written by the caller of the add: for all ids, or for this one. */
  predicate Emplaced(id: Id, emplace: Id) { emplace == WILDCARD || id == emplace }

  /** A new instance is stored first; then the on_add hook runs for a new or an emplaced one. */
  function OneAdded(id: Id, e: Entity, isNew: bool, hooked: bool): (items: seq<Item>) {
    (if isNew then [Inserted(id, e)] else []) + (if hooked then [Hook(OnAdd, id, [e])] else [])
  }

  /** The items of the id at `i` and the row at `j`. */
  function AddedAt(s: State, ids: seq<Id>, es: seq<Entity>, emplace: Id, i: nat, j: nat): (items: seq<Item>)
    requires i < |ids| && j < |es|
  {
    var isNew := IsSparse(s, ids[i]) && FreshAt(s, ids, es, i, j);
    OneAdded(ids[i], es[j], isNew, HasOnAddHook(s, ids[i]) && (isNew || Emplaced(ids[i], emplace)))
  }

  /** The items of the id at `i` and the first `n` rows, row by row. */
  function AddedRows(s: State, ids: seq<Id>, es: seq<Entity>, emplace: Id, i: nat, n: nat): (items: seq<Item>)
    requires i < |ids| && n <= |es|
    decreases n
  {
    if n == 0 then [] else AddedRows(s, ids, es, emplace, i, n - 1) + AddedAt(s, ids, es, emplace, i, n - 1)
  }

  /** The items of the first `m` ids, id by id. */
  function AddedItems(s: State, ids: seq<Id>, es: seq<Entity>, emplace: Id, m: nat): (items: seq<Item>)
    requires m <= |ids|
    decreases m
  {
    if m == 0 then [] else AddedItems(s, ids, es, emplace, m - 1) + AddedRows(s, ids, es, emplace, m - 1, |es|)
  }

  lemma AddOneItems(s: State, id: Id, e: Entity, emplace: Id)
    ensures var isNew := IsSparse(s, id) && e !in Members(s, id);
            AddOne(s, id, e, Constructs(id, emplace)).trace
            == s.trace + OneAdded(id, e, isNew, HasOnAddHook(s, id) && (isNew || Emplaced(id, emplace)))
  {}

  /** In the state before the row at `n` of the id at `i`, being new is being fresh. */
  lemma NewIsFresh(s: State, r0: State, r: State, ids: seq<Id>, es: seq<Entity>, i: nat, n: nat)
    requires i < |ids| && n < |es|
    requires Extends(s, r0) && MembersPlus(s, r0, ids[..i], es)
    requires Extends(r0, r) && MembersPlus(r0, r, [ids[i]], es[..n])
    ensures IsSparse(r, ids[i]) <==> IsSparse(s, ids[i])
    ensures HasOnAddHook(r, ids[i]) <==> HasOnAddHook(s, ids[i])
    ensures IsSparse(s, ids[i]) ==> (es[n] !in Members(r, ids[i]) <==> FreshAt(s, ids, es, i, n))
  {
    assert ids[i] in [ids[i]] && es[n] in ToSet(es);
    assert es[n] in ToSet(es[..n]) <==> es[n] in es[..n];
  }

  lemma {:induction false} AddRowsItems(s: State, r0: State, ids: seq<Id>, es: seq<Entity>, emplace: Id, i: nat, n: nat)
    requires i < |ids| && n <= |es| && r0 == AddIds(s, ids[..i], es, emplace)
    ensures AddRows(r0, ids[i], es[..n], Constructs(ids[i], emplace)).trace
            == r0.trace + AddedRows(s, ids, es, emplace, i, n)
    decreases n
  {
    if n == 0 {
      assert es[..0] == [];
    } else {
      AddRowsItems(s, r0, ids, es, emplace, i, n - 1);
      AddRowItems(s, r0, ids, es, emplace, i, n - 1, n);
    }
  }

  lemma AddRowItems(s: State, r0: State, ids: seq<Id>, es: seq<Entity>, emplace: Id, i: nat, n: nat, m: nat)
    requires i < |ids| && m == n + 1 <= |es| && r0 == AddIds(s, ids[..i], es, emplace)
    requires AddRows(r0, ids[i], es[..n], Constructs(ids[i], emplace)).trace
             == r0.trace + AddedRows(s, ids, es, emplace, i, n)
    ensures AddRows(r0, ids[i], es[..m], Constructs(ids[i], emplace)).trace
            == r0.trace + AddedRows(s, ids, es, emplace, i, m)
  {
    var id, e, construct := ids[i], es[n], Constructs(ids[i], emplace);
    var r, next := AddRows(r0, id, es[..n], construct), AddRows(r0, id, es[..m], construct);
    assert next.trace == r.trace + AddedAt(s, ids, es, emplace, i, n) by {
      AddRowsNext(r0, id, es, n, m, construct);
      RowAppends(s, r0, ids, es, emplace, i, n);
    }
    assert AddedRows(s, ids, es, emplace, i, m)
        == AddedRows(s, ids, es, emplace, i, n) + AddedAt(s, ids, es, emplace, i, n) by {
      AddedRowsNext(s, ids, es, emplace, i, n, m);
    }
    Appends(r0.trace, AddedRows(s, ids, es, emplace, i, n), AddedAt(s, ids, es, emplace, i, n));
  }

  lemma Appends(a: seq<Item>, b: seq<Item>, c: seq<Item>)
    ensures a + b + c == a + (b + c)
  {}

  lemma AddRowsNext(r0: State, id: Id, es: seq<Entity>, n: nat, m: nat, construct: bool)
    requires m == n + 1 <= |es|
    ensures AddRows(r0, id, es[..m], construct) == AddOne(AddRows(r0, id, es[..n], construct), id, es[n], construct)
  {
    assert es[..m][..n] == es[..n] && es[..m][n] == es[n];
  }

  lemma AddedRowsNext(s: State, ids: seq<Id>, es: seq<Entity>, emplace: Id, i: nat, n: nat, m: nat)
    requires i < |ids| && m == n + 1 <= |es|
    ensures AddedRows(s, ids, es, emplace, i, m)
            == AddedRows(s, ids, es, emplace, i, n) + AddedAt(s, ids, es, emplace, i, n)
  {
    assert m - 1 == n;
  }

  /** The items of one more row. */
  lemma RowAppends(s: State, r0: State, ids: seq<Id>, es: seq<Entity>, emplace: Id, i: nat, n: nat)
    requires i < |ids| && n < |es| && r0 == AddIds(s, ids[..i], es, emplace)
    ensures var r := AddRows(r0, ids[i], es[..n], Constructs(ids[i], emplace));
            AddOne(r, ids[i], es[n], Constructs(ids[i], emplace)).trace == r.trace + AddedAt(s, ids, es, emplace, i, n)
  {
    var r := AddRows(r0, ids[i], es[..n], Constructs(ids[i], emplace));
    AddIdsEffect(s, ids[..i], es, emplace);
    AddRowsEffect(r0, ids[i], es[..n], Constructs(ids[i], emplace));
    NewIsFresh(s, r0, r, ids, es, i, n);
    AddOneItems(r, ids[i], es[n], emplace);
  }

  lemma {:induction false} AddIdsItemsUpTo(s: State, ids: seq<Id>, es: seq<Entity>, emplace: Id, m: nat)
    requires m <= |ids|
    ensures AddIds(s, ids[..m], es, emplace).trace == s.trace + AddedItems(s, ids, es, emplace, m)
    decreases m
  {
    if m == 0 {
      assert ids[..m] == [] && s.trace + [] == s.trace;
    } else {
      var i := m - 1;
      assert AddIds(s, ids[..i], es, emplace).trace == s.trace + AddedItems(s, ids, es, emplace, i) by {
        AddIdsItemsUpTo(s, ids, es, emplace, i);
      }
      AddIdItems(s, ids, es, emplace, i, m);
    }
  }

  lemma AddIdItems(s: State, ids: seq<Id>, es: seq<Entity>, emplace: Id, i: nat, m: nat)
    requires m == i + 1 <= |ids|
    requires AddIds(s, ids[..i], es, emplace).trace == s.trace + AddedItems(s, ids, es, emplace, i)
    ensures AddIds(s, ids[..m], es, emplace).trace == s.trace + AddedItems(s, ids, es, emplace, m)
  {
    var r0, r := AddIds(s, ids[..i], es, emplace), AddIds(s, ids[..m], es, emplace);
    assert r.trace == r0.trace + AddedRows(s, ids, es, emplace, i, |es|) by {
      AddIdsNext(s, ids, es, emplace, i, m);
      AddRowsItems(s, r0, ids, es, emplace, i, |es|);
      assert es[..|es|] == es;
    }
    assert AddedItems(s, ids, es, emplace, m)
        == AddedItems(s, ids, es, emplace, i) + AddedRows(s, ids, es, emplace, i, |es|) by {
      AddedItemsNext(s, ids, es, emplace, i, m);
    }
    Appends(s.trace, AddedItems(s, ids, es, emplace, i), AddedRows(s, ids, es, emplace, i, |es|));
  }

  lemma AddIdsNext(s: State, ids: seq<Id>, es: seq<Entity>, emplace: Id, i: nat, m: nat)
    requires m == i + 1 <= |ids|
    ensures AddIds(s, ids[..m], es, emplace)
            == AddRows(AddIds(s, ids[..i], es, emplace), ids[i], es, Constructs(ids[i], emplace))
  {
    assert ids[..m][..i] == ids[..i] && ids[..m][i] == ids[i];
  }

  lemma AddedItemsNext(s: State, ids: seq<Id>, es: seq<Entity>, emplace: Id, i: nat, m: nat)
    requires m == i + 1 <= |ids|
    ensures AddedItems(s, ids, es, emplace, m)
            == AddedItems(s, ids, es, emplace, i) + AddedRows(s, ids, es, emplace, i, |es|)
  {
    assert m - 1 == i;
  }

  /** Adding appends exactly these items, whatever duplicates there are among ids and rows. */
  lemma AddIdsItems(s: State, ids: seq<Id>, es: seq<Entity>, emplace: Id)
    ensures AddIds(s, ids, es, emplace).trace == s.trace + AddedItems(s, ids, es, emplace, |ids|)
  {
    AddIdsItemsUpTo(s, ids, es, emplace, |ids|);
    assert ids[..|ids|] == ids;
  }

  /** Each instance that is stored and has a hook is followed by its on_add hook. */
  ghost predicate HooksFollow(s: State, items: seq<Item>) {
    forall k :: 0 <= k < |items| ==> HookFollows(s, items, k)
  }

  ghost predicate HookFollows(s: State, items: seq<Item>, k: nat)
    requires k < |items|
  {
    items[k].Inserted? && HasOnAddHook(s, items[k].id) ==>
      k + 1 < |items| && items[k + 1] == Hook(OnAdd, items[k].id, [items[k].entity])
  }

  lemma HooksFollowSum(s: State, a: seq<Item>, b: seq<Item>)
    requires HooksFollow(s, a) && HooksFollow(s, b)
    ensures HooksFollow(s, a + b)
  {
    forall k | 0 <= k < |a + b| ensures HookFollows(s, a + b, k) {
      if k < |a| {
        assert HookFollows(s, a, k);
      } else {
        assert HookFollows(s, b, k - |a|) && (a + b)[k] == b[k - |a|];
      }
    }
  }

  lemma {:induction false} RowsHooksFollow(s: State, ids: seq<Id>, es: seq<Entity>, emplace: Id, i: nat, n: nat)
    requires i < |ids| && n <= |es|
    ensures HooksFollow(s, AddedRows(s, ids, es, emplace, i, n))
    decreases n
  {
    if n > 0 {
      RowsHooksFollow(s, ids, es, emplace, i, n - 1);
      HooksFollowSum(s, AddedRows(s, ids, es, emplace, i, n - 1), AddedAt(s, ids, es, emplace, i, n - 1));
    }
  }

  lemma {:induction false} ItemsHooksFollow(s: State, ids: seq<Id>, es: seq<Entity>, emplace: Id, m: nat)
    requires m <= |ids|
    ensures HooksFollow(s, AddedItems(s, ids, es, emplace, m))
    decreases m
  {
    if m > 0 {
      ItemsHooksFollow(s, ids, es, emplace, m - 1);
      RowsHooksFollow(s, ids, es, emplace, m - 1, |es|);
      HooksFollowSum(s, AddedItems(s, ids, es, emplace, m - 1), AddedRows(s, ids, es, emplace, m - 1, |es|));
    }
  }

  /** The hook at `k` names one entity, and its instance is stored by then. */
  ghost predicate HookSeesInstance(trace: seq<Item>, k: nat)
    requires k < |trace|
  {
    match trace[k]
    case Hook(_, id, es) => |es| == 1 && Stored(trace[..k], id, es[0])
    case _ => true
  }

  ghost predicate HooksSeeInstances(s: State, r: State) {
    s.trace <= r.trace && forall k :: |s.trace| <= k < |r.trace| ==> HookSeesInstance(r.trace, k)
  }

  lemma HooksSeeThen(s: State, a: State, r: State)
    requires HooksSeeInstances(s, a) && HooksSeeInstances(a, r)
    ensures HooksSeeInstances(s, r)
  {
    forall k | |s.trace| <= k < |r.trace| ensures HookSeesInstance(r.trace, k) {
      if k < |a.trace| {
        assert HookSeesInstance(a.trace, k) && r.trace[k] == a.trace[k] && r.trace[..k] == a.trace[..k];
      }
    }
  }

  lemma HookSees(s: State, id: Id, e: Entity, event: Event)
    requires Sound(s) && e in Members(s, id)
    ensures HooksSeeInstances(s, Log(s, [Hook(event, id, [e])]))
  {
    var r := Log(s, [Hook(event, id, [e])]);
    assert r.trace[..|s.trace|] == s.trace;
  }

  lemma AddOneHooksSee(s: State, id: Id, e: Entity, construct: bool)
    requires Sound(s)
    ensures HooksSeeInstances(s, AddOne(s, id, e, construct))
  {
    if IsSparse(s, id) {
      var stored := s;
      if e !in Members(s, id) {
        SoundStore(s, id, e);
        stored := Log(WithMembers(s, id, Members(s, id) + {e}), [Inserted(id, e)]);
      }
      assert HooksSeeInstances(s, stored);
      HookSees(stored, id, e, OnAdd);
      HooksSeeThen(s, stored, Log(stored, [Hook(OnAdd, id, [e])]));
    }
  }

  lemma {:induction false} AddRowsHooksSee(s: State, id: Id, es: seq<Entity>, construct: bool)
    requires Sound(s)
    ensures HooksSeeInstances(s, AddRows(s, id, es, construct))
  {
    if es != [] {
      var last := |es| - 1;
      var r := AddRows(s, id, es[..last], construct);
      AddRowsHooksSee(s, id, es[..last], construct);
      SoundAddRows(s, id, es[..last], construct);
      AddOneHooksSee(r, id, es[last], construct);
      HooksSeeThen(s, r, AddRows(s, id, es, construct));
    }
  }

  lemma {:induction false} AddIdsHooksSee(s: State, ids: seq<Id>, es: seq<Entity>, emplace: Id)
    requires Sound(s)
    ensures HooksSeeInstances(s, AddIds(s, ids, es, emplace))
  {
    if ids != [] {
      var last := |ids| - 1;
      var r := AddIds(s, ids[..last], es, emplace);
      AddIdsHooksSee(s, ids[..last], es, emplace);
      SoundAddIds(s, ids[..last], es, emplace);
      AddRowsHooksSee(r, ids[last], es, Constructs(ids[last], emplace));
      HooksSeeThen(s, r, AddIds(s, ids, es, emplace));
    }
  }

  /** Every instance that an add stores and that has a hook is followed by its on_add hook; and every hook
      that an add runs names one entity, whose instance is stored by then. */
  lemma AddHooks(s: State, ids: seq<Id>, es: seq<Entity>, emplace: Id)
    requires Sound(s)
    ensures var r := AddIds(s, ids, es, emplace);
            && r.trace == s.trace + AddedItems(s, ids, es, emplace, |ids|)
            && HooksFollow(s, AddedItems(s, ids, es, emplace, |ids|))
            && HooksSeeInstances(s, r)
  {
    AddIdsItems(s, ids, es, emplace);
    ItemsHooksFollow(s, ids, es, emplace, |ids|);
    AddIdsHooksSee(s, ids, es, emplace);
  }

  // ----- how often the on_add hook runs

  /** How often an item is among the items. */
  ghost function Count(items: seq<Item>, item: Item): (n: nat) { multiset(items)[item] }

  lemma CountSum(a: seq<Item>, b: seq<Item>, item: Item)
    ensures Count(a + b, item) == Count(a, item) + Count(b, item)
  {}

  /** How often the hook of `id` runs for `e` over the first `n` rows of the id at `i`. */
  ghost function RowsRuns(s: State, ids: seq<Id>, es: seq<Entity>, emplace: Id, i: nat, n: nat, id: Id, e: Entity): (c: nat)
    requires i < |ids| && n <= |es|
  {
    if ids[i] != id || !HasOnAddHook(s, id) then 0
    else if Emplaced(id, emplace) then multiset(es[..n])[e]
    else if e in es[..n] && e !in Members(s, id) && id !in ids[..i] then 1 else 0
  }

  /** How often the hook of `id` runs for `e` when the ids are added to `es`: for an emplaced id, each time
      that id and row are met; for another one, once if it is a new instance. */
  ghost function HookRuns(s: State, ids: seq<Id>, es: seq<Entity>, emplace: Id, id: Id, e: Entity): (c: nat) {
    if !HasOnAddHook(s, id) then 0
    else if Emplaced(id, emplace) then multiset(ids)[id] * multiset(es)[e]
    else if id in ids && e in es && e !in Members(s, id) then 1 else 0
  }

  lemma AtRuns(s: State, ids: seq<Id>, es: seq<Entity>, emplace: Id, i: nat, j: nat, id: Id, e: Entity)
    requires i < |ids| && j < |es|
    ensures Count(AddedAt(s, ids, es, emplace, i, j), Hook(OnAdd, id, [e]))
            == if ids[i] == id && es[j] == e && HasOnAddHook(s, id) && (FreshAt(s, ids, es, i, j) || Emplaced(id, emplace))
               then 1 else 0
  {
    var hook := Hook(OnAdd, ids[i], [es[j]]);
    assert hook == Hook(OnAdd, id, [e]) <==> ids[i] == id && es[j] == e by { assert [es[j]] == [e] <==> [es[j]][0] == [e][0]; }
  }

  lemma {:induction false} RowsRunsCount(s: State, ids: seq<Id>, es: seq<Entity>, emplace: Id, i: nat, n: nat, id: Id, e: Entity)
    requires i < |ids| && n <= |es|
    ensures Count(AddedRows(s, ids, es, emplace, i, n), Hook(OnAdd, id, [e])) == RowsRuns(s, ids, es, emplace, i, n, id, e)
    decreases n
  {
    if n > 0 {
      var k, hook := n - 1, Hook(OnAdd, id, [e]);
      var rows, last := AddedRows(s, ids, es, emplace, i, k), AddedAt(s, ids, es, emplace, i, k);
      RowsRunsCount(s, ids, es, emplace, i, k, id, e);
      AtRuns(s, ids, es, emplace, i, k, id, e);
      RowsRunsNext(s, ids, es, emplace, i, k, n, id, e);
      assert AddedRows(s, ids, es, emplace, i, n) == rows + last by { AddedRowsNext(s, ids, es, emplace, i, k, n); }
      CountSum(rows, last, hook);
    }
  }

  lemma RowsRunsNext(s: State, ids: seq<Id>, es: seq<Entity>, emplace: Id, i: nat, n: nat, m: nat, id: Id, e: Entity)
    requires i < |ids| && m == n + 1 <= |es|
    ensures RowsRuns(s, ids, es, emplace, i, m, id, e) == RowsRuns(s, ids, es, emplace, i, n, id, e)
              + if ids[i] == id && es[n] == e && HasOnAddHook(s, id) && (FreshAt(s, ids, es, i, n) || Emplaced(id, emplace))
                then 1 else 0
  {
    assert es[..m] == es[..n] + [es[n]];
  }

  lemma {:induction false} ItemsRunsCount(s: State, ids: seq<Id>, es: seq<Entity>, emplace: Id, m: nat, id: Id, e: Entity)
    requires m <= |ids|
    ensures Count(AddedItems(s, ids, es, emplace, m), Hook(OnAdd, id, [e])) == HookRuns(s, ids[..m], es, emplace, id, e)
    decreases m
  {
    if m > 0 {
      var i, hook := m - 1, Hook(OnAdd, id, [e]);
      var items, rows := AddedItems(s, ids, es, emplace, i), AddedRows(s, ids, es, emplace, i, |es|);
      ItemsRunsCount(s, ids, es, emplace, i, id, e);
      RowsRunsCount(s, ids, es, emplace, i, |es|, id, e);
      RunsNext(s, ids, es, emplace, i, m, id, e);
      assert AddedItems(s, ids, es, emplace, m) == items + rows by { AddedItemsNext(s, ids, es, emplace, i, m); }
      CountSum(items, rows, hook);
    }
  }

  lemma RunsNext(s: State, ids: seq<Id>, es: seq<Entity>, emplace: Id, i: nat, m: nat, id: Id, e: Entity)
    requires m == i + 1 <= |ids|
    ensures HookRuns(s, ids[..m], es, emplace, id, e)
            == HookRuns(s, ids[..i], es, emplace, id, e) + RowsRuns(s, ids, es, emplace, i, |es|, id, e)
  {
    assert ids[..m] == ids[..i] + [ids[i]] && es[..|es|] == es;
    var c := if ids[i] == id then 1 else 0;
    assert multiset(ids[..m])[id] == multiset(ids[..i])[id] + c;
  }

  /** Adding runs each on_add hook exactly as often as membership and emplacing say. */
  lemma AddRunsHooks(s: State, ids: seq<Id>, es: seq<Entity>, emplace: Id, id: Id, e: Entity)
    ensures var hook := Hook(OnAdd, id, [e]);
            Count(AddIds(s, ids, es, emplace).trace, hook) == Count(s.trace, hook) + HookRuns(s, ids, es, emplace, id, e)
  {
    AddIdsItems(s, ids, es, emplace);
    ItemsRunsCount(s, ids, es, emplace, |ids|, id, e);
    assert ids[..|ids|] == ids;
    CountSum(s.trace, AddedItems(s, ids, es, emplace, |ids|), Hook(OnAdd, id, [e]));
  }

  // ----- removing

  /** The row at `j` loses its instance of the id at `i` there, and not before. */
  predicate GoesAt(s: State, ids: seq<Id>, es: seq<Entity>, i: nat, j: nat)
    requires i < |ids| && j < |es|
  {
    IsSparse(s, ids[i]) && es[j] in Members(s, ids[i]) && ids[i] !in ids[..i] && es[j] !in es[..j]
  }

  predicate HasOnRemoveHook(s: State, id: Id) { id in s.comps && s.comps[id].typed && s.comps[id].onRemove }

  /** The on_remove hook runs first; then the instance is dropped. */
  function OneRemoved(id: Id, e: Entity, goes: bool, hooked: bool): (items: seq<Item>) {
    if !goes then [] else (if hooked then [Hook(OnRemove, id, [e])] else []) + [Dropped(id, e)]
  }

  function RemovedAt(s: State, ids: seq<Id>, es: seq<Entity>, i: nat, j: nat): (items: seq<Item>)
    requires i < |ids| && j < |es|
  {
    OneRemoved(ids[i], es[j], GoesAt(s, ids, es, i, j), HasOnRemoveHook(s, ids[i]))
  }

  function RemovedRows(s: State, ids: seq<Id>, es: seq<Entity>, i: nat, n: nat): (items: seq<Item>)
    requires i < |ids| && n <= |es|
    decreases n
  {
    if n == 0 then [] else RemovedRows(s, ids, es, i, n - 1) + RemovedAt(s, ids, es, i, n - 1)
  }

  function RemovedItems(s: State, ids: seq<Id>, es: seq<Entity>, m: nat): (items: seq<Item>)
    requires m <= |ids|
    decreases m
  {
    if m == 0 then [] else RemovedItems(s, ids, es, m - 1) + RemovedRows(s, ids, es, m - 1, |es|)
  }

  lemma RemoveOneItems(s: State, id: Id, e: Entity)
    requires id in s.comps
    ensures RemoveOne(s, id, e).trace == s.trace + OneRemoved(id, e, e in Members(s, id), HasOnRemoveHook(s, id))
  {}

  lemma StoredIsGoing(s: State, r0: State, r: State, ids: seq<Id>, es: seq<Entity>, i: nat, n: nat)
    requires i < |ids| && n < |es| && IsSparse(s, ids[i])
    requires Extends(s, r0) && MembersMinus(s, r0, ids[..i], es)
    requires Extends(r0, r) && MembersMinus(r0, r, [ids[i]], es[..n])
    ensures HasOnRemoveHook(r, ids[i]) <==> HasOnRemoveHook(s, ids[i])
    ensures es[n] in Members(r, ids[i]) <==> GoesAt(s, ids, es, i, n)
  {
    assert ids[i] in [ids[i]] && es[n] in ToSet(es);
    assert es[n] in ToSet(es[..n]) <==> es[n] in es[..n];
    assert IsSparse(r0, ids[i]);
  }

  /** The items of one more row. */
  lemma RemoveRowItems(s: State, r0: State, ids: seq<Id>, es: seq<Entity>, i: nat, n: nat)
    requires i < |ids| && n < |es| && IsSparse(s, ids[i]) && r0 == RemoveIds(s, ids[..i], es)
    ensures var r := RemoveRows(r0, ids[i], es[..n]);
            RemoveOne(r, ids[i], es[n]).trace == r.trace + RemovedAt(s, ids, es, i, n)
  {
    var r := RemoveRows(r0, ids[i], es[..n]);
    RemoveIdsEffect(s, ids[..i], es);
    assert IsSparse(r0, ids[i]);
    RemoveRowsEffect(r0, ids[i], es[..n]);
    StoredIsGoing(s, r0, r, ids, es, i, n);
    RemoveOneItems(r, ids[i], es[n]);
  }

  lemma RemoveRowsNext(r0: State, id: Id, es: seq<Entity>, n: nat, m: nat)
    requires m == n + 1 <= |es|
    ensures RemoveRows(r0, id, es[..m]) == RemoveOne(RemoveRows(r0, id, es[..n]), id, es[n])
  {
    assert es[..m][..n] == es[..n] && es[..m][n] == es[n];
  }

  lemma RemovedRowsNext(s: State, ids: seq<Id>, es: seq<Entity>, i: nat, n: nat, m: nat)
    requires i < |ids| && m == n + 1 <= |es|
    ensures RemovedRows(s, ids, es, i, m) == RemovedRows(s, ids, es, i, n) + RemovedAt(s, ids, es, i, n)
  {
    assert m - 1 == n;
  }

  lemma {:induction false} RemoveRowsItems(s: State, r0: State, ids: seq<Id>, es: seq<Entity>, i: nat, n: nat)
    requires i < |ids| && n <= |es| && IsSparse(s, ids[i]) && r0 == RemoveIds(s, ids[..i], es)
    ensures RemoveRows(r0, ids[i], es[..n]).trace == r0.trace + RemovedRows(s, ids, es, i, n)
    decreases n
  {
    if n == 0 {
      assert es[..0] == [];
    } else {
      var k := n - 1;
      RemoveRowsItems(s, r0, ids, es, i, k);
      assert RemoveRows(r0, ids[i], es[..n]).trace
          == RemoveRows(r0, ids[i], es[..k]).trace + RemovedAt(s, ids, es, i, k) by {
        RemoveRowsNext(r0, ids[i], es, k, n);
        RemoveRowItems(s, r0, ids, es, i, k);
      }
      RemovedRowsNext(s, ids, es, i, k, n);
      Appends(r0.trace, RemovedRows(s, ids, es, i, k), RemovedAt(s, ids, es, i, k));
    }
  }

  /** An id without a sparse set has nothing to lose. */
  lemma {:induction false} NothingGoes(s: State, ids: seq<Id>, es: seq<Entity>, i: nat, n: nat)
    requires i < |ids| && n <= |es| && !IsSparse(s, ids[i])
    ensures RemovedRows(s, ids, es, i, n) == []
    decreases n
  {
    if n > 0 {
      NothingGoes(s, ids, es, i, n - 1);
    }
  }

  lemma {:induction false} RemoveIdsItemsUpTo(s: State, ids: seq<Id>, es: seq<Entity>, m: nat)
    requires m <= |ids|
    ensures RemoveIds(s, ids[..m], es).trace == s.trace + RemovedItems(s, ids, es, m)
    decreases m
  {
    if m == 0 {
      assert ids[..0] == [];
    } else {
      RemoveIdsItemsUpTo(s, ids, es, m - 1);
      RemoveIdItems(s, ids, es, m - 1, m);
    }
  }

  lemma RemoveIdItems(s: State, ids: seq<Id>, es: seq<Entity>, i: nat, m: nat)
    requires m == i + 1 <= |ids|
    requires RemoveIds(s, ids[..i], es).trace == s.trace + RemovedItems(s, ids, es, i)
    ensures RemoveIds(s, ids[..m], es).trace == s.trace + RemovedItems(s, ids, es, m)
  {
    var r0, r := RemoveIds(s, ids[..i], es), RemoveIds(s, ids[..m], es);
    assert r.trace == r0.trace + RemovedRows(s, ids, es, i, |es|) by {
      RemoveIdsNext(s, ids, es, i, m);
      if IsSparse(s, ids[i]) {
        RemoveRowsItems(s, r0, ids, es, i, |es|);
        assert es[..|es|] == es;
      } else {
        NothingGoes(s, ids, es, i, |es|);
      }
    }
    assert RemovedItems(s, ids, es, m) == RemovedItems(s, ids, es, i) + RemovedRows(s, ids, es, i, |es|) by {
      RemovedItemsNext(s, ids, es, i, m);
    }
    Appends(s.trace, RemovedItems(s, ids, es, i), RemovedRows(s, ids, es, i, |es|));
  }

  lemma RemoveIdsNext(s: State, ids: seq<Id>, es: seq<Entity>, i: nat, m: nat)
    requires m == i + 1 <= |ids|
    ensures var r0 := RemoveIds(s, ids[..i], es);
            RemoveIds(s, ids[..m], es) == if IsSparse(s, ids[i]) then RemoveRows(r0, ids[i], es) else r0
  {
    assert ids[..m][..i] == ids[..i] && ids[..m][i] == ids[i];
  }

  lemma RemovedItemsNext(s: State, ids: seq<Id>, es: seq<Entity>, i: nat, m: nat)
    requires m == i + 1 <= |ids|
    ensures RemovedItems(s, ids, es, m) == RemovedItems(s, ids, es, i) + RemovedRows(s, ids, es, i, |es|)
  {
    assert m - 1 == i;
  }

  /** Removing appends exactly these items. */
  lemma RemoveIdsItems(s: State, ids: seq<Id>, es: seq<Entity>)
    ensures RemoveIds(s, ids, es).trace == s.trace + RemovedItems(s, ids, es, |ids|)
  {
    RemoveIdsItemsUpTo(s, ids, es, |ids|);
    assert ids[..|ids|] == ids;
  }

  lemma RemoveOneHooksSee(s: State, id: Id, e: Entity)
    requires Sound(s)
    ensures HooksSeeInstances(s, RemoveOne(s, id, e))
  {
    if id in s.comps && e in Members(s, id) {
      HookSees(s, id, e, OnRemove);
      var hooked := if HasOnRemoveHook(s, id) then Log(s, [Hook(OnRemove, id, [e])]) else s;
      HooksSeeThen(s, hooked, RemoveOne(s, id, e));
    }
  }

  lemma {:induction false} RemoveRowsHooksSee(s: State, id: Id, es: seq<Entity>)
    requires Sound(s) && IsSparse(s, id)
    ensures HooksSeeInstances(s, RemoveRows(s, id, es))
  {
    if es != [] {
      var last := |es| - 1;
      var r := RemoveRows(s, id, es[..last]);
      RemoveRowsHooksSee(s, id, es[..last]);
      SoundRemoveRows(s, id, es[..last]);
      RemoveOneHooksSee(r, id, es[last]);
      HooksSeeThen(s, r, RemoveRows(s, id, es));
    }
  }

  /** Every hook that a removal runs names one entity, whose instance is still stored. */
  lemma {:induction false} RemoveHooks(s: State, ids: seq<Id>, es: seq<Entity>)
    requires Sound(s)
    ensures HooksSeeInstances(s, RemoveIds(s, ids, es))
  {
    if ids != [] {
      var last := |ids| - 1;
      var r := RemoveIds(s, ids[..last], es);
      RemoveHooks(s, ids[..last], es);
      SoundRemoveIds(s, ids[..last], es);
      RemoveIdsEffect(s, ids[..last], es);
      if IsSparse(s, ids[last]) {
        RemoveRowsHooksSee(r, ids[last], es);
        HooksSeeThen(s, r, RemoveIds(s, ids, es));
      }
    }
  }

  // ----- the items depend on component records and members alone

  lemma {:induction false} SameAddedRows(s: State, r: State, ids: seq<Id>, es: seq<Entity>, emplace: Id, i: nat, n: nat)
    requires r.comps == s.comps && r.members == s.members && i < |ids| && n <= |es|
    ensures AddedRows(r, ids, es, emplace, i, n) == AddedRows(s, ids, es, emplace, i, n)
    decreases n
  {
    if n > 0 {
      SameAddedRows(s, r, ids, es, emplace, i, n - 1);
    }
  }

  lemma {:induction false} SameAddedItems(s: State, r: State, ids: seq<Id>, es: seq<Entity>, emplace: Id, m: nat)
    requires r.comps == s.comps && r.members == s.members && m <= |ids|
    ensures AddedItems(r, ids, es, emplace, m) == AddedItems(s, ids, es, emplace, m)
    decreases m
  {
    if m > 0 {
      SameAddedItems(s, r, ids, es, emplace, m - 1);
      SameAddedRows(s, r, ids, es, emplace, m - 1, |es|);
    }
  }

  lemma {:induction false} SameRemovedRows(s: State, r: State, ids: seq<Id>, es: seq<Entity>, i: nat, n: nat)
    requires r.comps == s.comps && r.members == s.members && i < |ids| && n <= |es|
    ensures RemovedRows(r, ids, es, i, n) == RemovedRows(s, ids, es, i, n)
    decreases n
  {
    if n > 0 {
      SameRemovedRows(s, r, ids, es, i, n - 1);
    }
  }

  lemma {:induction false} SameRemovedItems(s: State, r: State, ids: seq<Id>, es: seq<Entity>, m: nat)
    requires r.comps == s.comps && r.members == s.members && m <= |ids|
    ensures RemovedItems(r, ids, es, m) == RemovedItems(s, ids, es, m)
    decreases m
  {
    if m > 0 {
      SameRemovedItems(s, r, ids, es, m - 1);
      SameRemovedRows(s, r, ids, es, m - 1, |es|);
    }
  }

  // ----- none of the items is an event or a helper call

  predicate StorageItem(item: Item) { item.Inserted? || item.Dropped? || item.Hook? }

  ghost predicate OnlyStorage(items: seq<Item>) { forall k :: 0 <= k < |items| ==> StorageItem(items[k]) }

  lemma {:induction false} AddedRowsStorage(s: State, ids: seq<Id>, es: seq<Entity>, emplace: Id, i: nat, n: nat)
    requires i < |ids| && n <= |es|
    ensures OnlyStorage(AddedRows(s, ids, es, emplace, i, n))
    decreases n
  {
    if n > 0 {
      AddedRowsStorage(s, ids, es, emplace, i, n - 1);
    }
  }

  lemma {:induction false} AddedItemsStorage(s: State, ids: seq<Id>, es: seq<Entity>, emplace: Id, m: nat)
    requires m <= |ids|
    ensures OnlyStorage(AddedItems(s, ids, es, emplace, m))
    decreases m
  {
    if m > 0 {
      AddedItemsStorage(s, ids, es, emplace, m - 1);
      AddedRowsStorage(s, ids, es, emplace, m - 1, |es|);
    }
  }

  lemma {:induction false} RemovedRowsStorage(s: State, ids: seq<Id>, es: seq<Entity>, i: nat, n: nat)
    requires i < |ids| && n <= |es|
    ensures OnlyStorage(RemovedRows(s, ids, es, i, n))
    decreases n
  {
    if n > 0 {
      RemovedRowsStorage(s, ids, es, i, n - 1);
    }
  }

  lemma {:induction false} RemovedItemsStorage(s: State, ids: seq<Id>, es: seq<Entity>, m: nat)
    requires m <= |ids|
    ensures OnlyStorage(RemovedItems(s, ids, es, m))
    decreases m
  {
    if m > 0 {
      RemovedItemsStorage(s, ids, es, m - 1);
      RemovedRowsStorage(s, ids, es, m - 1, |es|);
    }
  }
}
