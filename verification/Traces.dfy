/** Reading the storage back from the trace, and hearing of every change to it. */
module Traces {
  import opened ActionModel
  import opened ActionEffects

  /** Whether `e` is stored for `id` after the given items. */
  ghost predicate Stored(trace: seq<Item>, id: Id, e: Entity) {
    if trace == [] then false
    else
      var last := trace[|trace| - 1];
      if last == Inserted(id, e) then true
      else if last == Dropped(id, e) then false
      else Stored(trace[..|trace| - 1], id, e)
  }

  /** The storage is what the trace says, and the trace inserts only what is absent and drops
      only what is stored. */
  ghost predicate Sound(s: State) {
    && (forall id, e :: e in Members(s, id) <==> Stored(s.trace, id, e))
    && Consistent(s.trace)
  }

  ghost predicate Consistent(trace: seq<Item>) {
    forall k :: 0 <= k < |trace| ==> Fits(trace, k)
  }

  ghost predicate Fits(trace: seq<Item>, k: nat)
    requires k < |trace|
  {
    match trace[k]
    case Inserted(id, e) => !Stored(trace[..k], id, e)
    case Dropped(id, e) => Stored(trace[..k], id, e)
    case _ => true
  }

  predicate Neutral(item: Item) { !item.Inserted? && !item.Dropped? }

  lemma StoredNext(trace: seq<Item>, item: Item, id: Id, e: Entity)
    ensures Stored(trace + [item], id, e) <==>
            item == Inserted(id, e) || (item != Dropped(id, e) && Stored(trace, id, e))
  {
    assert (trace + [item])[..|trace|] == trace;
  }

  lemma ConsistentNext(trace: seq<Item>, item: Item)
    requires Consistent(trace)
    requires item.Inserted? ==> !Stored(trace, item.id, item.entity)
    requires item.Dropped? ==> Stored(trace, item.id, item.entity)
    ensures Consistent(trace + [item])
  {
    var next := trace + [item];
    forall k | 0 <= k < |next| ensures Fits(next, k) {
      if k < |trace| {
        assert next[..k] == trace[..k] && Fits(trace, k);
      } else {
        assert next[..k] == trace;
      }
    }
  }

  /** Items that are no storage change keep the account. */
  lemma SoundLog(s: State, item: Item)
    requires Sound(s) && Neutral(item)
    ensures Sound(Log(s, [item]))
  {
    ConsistentNext(s.trace, item);
    forall id, e ensures e in Members(s, id) <==> Stored(s.trace + [item], id, e) {
      StoredNext(s.trace, item, id, e);
    }
  }

  lemma SoundStore(s: State, id: Id, e: Entity)
    requires Sound(s) && e !in Members(s, id)
    ensures Sound(Log(WithMembers(s, id, Members(s, id) + {e}), [Inserted(id, e)]))
  {
    var item := Inserted(id, e);
    ConsistentNext(s.trace, item);
    var r := Log(WithMembers(s, id, Members(s, id) + {e}), [item]);
    forall x, y ensures y in Members(r, x) <==> Stored(r.trace, x, y) {
      StoredNext(s.trace, item, x, y);
    }
  }

  lemma SoundUnstore(s: State, id: Id, e: Entity)
    requires Sound(s) && e in Members(s, id)
    ensures Sound(Log(WithMembers(s, id, Members(s, id) - {e}), [Dropped(id, e)]))
  {
    var item := Dropped(id, e);
    ConsistentNext(s.trace, item);
    var r := Log(WithMembers(s, id, Members(s, id) - {e}), [item]);
    forall x, y ensures y in Members(r, x) <==> Stored(r.trace, x, y) {
      StoredNext(s.trace, item, x, y);
    }
  }

  // ----- what the steps append

  /** Past the trace of `s`, nothing is dropped, and only absent pairs of the ids and entities are
      inserted. */
  ghost predicate OnlyAdds(s: State, r: State, ids: seq<Id>, es: seq<Entity>) {
    && s.trace <= r.trace
    && forall k :: |s.trace| <= k < |r.trace| ==>
         match r.trace[k]
         case Inserted(id, e) => id in ids && e in es && IsSparse(s, id) && e !in Members(s, id)
         case Hook(event, id, _) => event == OnAdd && id in ids
         case _ => false
  }

  /** Likewise: nothing is inserted, and only stored pairs of the ids and entities are dropped. */
  ghost predicate OnlyDrops(s: State, r: State, ids: seq<Id>, es: seq<Entity>) {
    && s.trace <= r.trace
    && forall k :: |s.trace| <= k < |r.trace| ==>
         match r.trace[k]
         case Dropped(id, e) => id in ids && e in es && id in s.comps && e in Members(s, id)
         case Hook(event, id, _) => event == OnRemove && id in ids
         case _ => false
  }

  lemma SoundAddOne(s: State, id: Id, e: Entity, construct: bool)
    requires Sound(s)
    ensures Sound(AddOne(s, id, e, construct)) && OnlyAdds(s, AddOne(s, id, e, construct), [id], [e])
  {
    if IsSparse(s, id) {
      var stored := if e !in Members(s, id)
                    then Log(WithMembers(s, id, Members(s, id) + {e}), [Inserted(id, e)]) else s;
      if e !in Members(s, id) {
        SoundStore(s, id, e);
      }
      SoundLog(stored, Hook(OnAdd, id, [e]));
    }
  }

  lemma {:induction false} SoundAddRows(s: State, id: Id, es: seq<Entity>, construct: bool)
    requires Sound(s)
    ensures Sound(AddRows(s, id, es, construct)) && OnlyAdds(s, AddRows(s, id, es, construct), [id], es)
  {
    if es != [] {
      var last := |es| - 1;
      SoundAddRows(s, id, es[..last], construct);
      AddRowsEffect(s, id, es[..last], construct);
      SoundAddOne(AddRows(s, id, es[..last], construct), id, es[last], construct);
    }
  }

  lemma {:induction false} SoundAddIds(s: State, ids: seq<Id>, es: seq<Entity>, emplace: Id)
    requires Sound(s)
    ensures Sound(AddIds(s, ids, es, emplace)) && OnlyAdds(s, AddIds(s, ids, es, emplace), ids, es)
  {
    if ids != [] {
      var last := |ids| - 1;
      SoundAddIds(s, ids[..last], es, emplace);
      AddIdsEffect(s, ids[..last], es, emplace);
      SoundAddRows(AddIds(s, ids[..last], es, emplace), ids[last], es, Constructs(ids[last], emplace));
    }
  }

  lemma SoundRemoveOne(s: State, id: Id, e: Entity)
    requires Sound(s)
    ensures Sound(RemoveOne(s, id, e)) && OnlyDrops(s, RemoveOne(s, id, e), [id], [e])
  {
    if id in s.comps && e in Members(s, id) {
      SoundLog(s, Hook(OnRemove, id, [e]));
      var c := s.comps[id];
      var hooked := if c.typed && c.onRemove then Log(s, [Hook(OnRemove, id, [e])]) else s;
      SoundUnstore(hooked, id, e);
    }
  }

  lemma {:induction false} SoundRemoveRows(s: State, id: Id, es: seq<Entity>)
    requires Sound(s) && IsSparse(s, id)
    ensures Sound(RemoveRows(s, id, es)) && OnlyDrops(s, RemoveRows(s, id, es), [id], es)
  {
    if es != [] {
      var last := |es| - 1;
      SoundRemoveRows(s, id, es[..last]);
      RemoveRowsEffect(s, id, es[..last]);
      SoundRemoveOne(RemoveRows(s, id, es[..last]), id, es[last]);
    }
  }

  lemma {:induction false} SoundRemoveIds(s: State, ids: seq<Id>, es: seq<Entity>)
    requires Sound(s)
    ensures Sound(RemoveIds(s, ids, es)) && OnlyDrops(s, RemoveIds(s, ids, es), ids, es)
  {
    if ids != [] {
      var last := |ids| - 1;
      SoundRemoveIds(s, ids[..last], es);
      RemoveIdsEffect(s, ids[..last], es);
      if IsSparse(s, ids[last]) {
        SoundRemoveRows(RemoveIds(s, ids[..last], es), ids[last], es);
      }
    }
  }

  // ----- hearing of changes

  predicate Covers(item: Item, event: Event, id: Id, e: Entity) {
    item.Emit? && item.event == event && id in item.ids && e in item.entities
  }

  /** `e` is stored for `id` at every point from `a` to `b`. */
  ghost predicate StoredThrough(trace: seq<Item>, id: Id, e: Entity, a: nat, b: nat)
    requires b <= |trace|
  {
    forall n :: a <= n <= b ==> Stored(trace[..n], id, e)
  }

  /** The insertion at `k` is heard of by an OnAdd event that comes after it, with the instance
      stored all the while. */
  ghost predicate AddHeard(trace: seq<Item>, k: nat, id: Id, e: Entity) {
    exists m :: k < m < |trace| && Covers(trace[m], OnAdd, id, e) && StoredThrough(trace, id, e, k + 1, m)
  }

  /** The drop at `k` is heard of by an OnRemove event that comes before it but not before `from`,
      with the instance still stored. */
  ghost predicate DropHeard(trace: seq<Item>, from: nat, k: nat, id: Id, e: Entity)
    requires k <= |trace|
  {
    exists m :: from <= m < k && Covers(trace[m], OnRemove, id, e) && StoredThrough(trace, id, e, m, k)
  }

  ghost predicate AddHeardAt(s: State, trace: seq<Item>, k: nat)
    requires k < |trace|
  {
    match trace[k]
    case Inserted(id, e) => id in s.comps && (IsDontFragment(s, id) ==> AddHeard(trace, k, id, e))
    case _ => true
  }

  ghost predicate DropHeardAt(s: State, trace: seq<Item>, from: nat, k: nat)
    requires k < |trace|
  {
    match trace[k]
    case Dropped(id, e) => IsDontFragment(s, id) ==> DropHeard(trace, from, k, id, e)
    case _ => true
  }

  /** On the way from `s` to `r` no DontFragment instance appears silently, and only ids that have
      a record are stored. */
  ghost predicate NoSilentAdd(s: State, r: State) {
    s.trace <= r.trace && forall k :: |s.trace| <= k < |r.trace| ==> AddHeardAt(s, r.trace, k)
  }

  /** On the way from `s` to `r` no DontFragment instance disappears silently: an event on that same
      way tells of it. Events from before `s` do not count. */
  ghost predicate NoSilentDrop(s: State, r: State) {
    s.trace <= r.trace && forall k :: |s.trace| <= k < |r.trace| ==> DropHeardAt(s, r.trace, |s.trace|, k)
  }

  lemma StoredThroughPrefix(trace: seq<Item>, more: seq<Item>, id: Id, e: Entity, a: nat, b: nat)
    requires b <= |trace| && trace <= more && StoredThrough(trace, id, e, a, b)
    ensures StoredThrough(more, id, e, a, b)
  {
    forall n | a <= n <= b ensures Stored(more[..n], id, e) {
      assert more[..n] == trace[..n];
    }
  }

  /** What is heard of on each part of the way is heard of on the whole. */
  lemma NoSilentAddThen(s: State, a: State, r: State)
    requires NoSilentAdd(s, a) && NoSilentAdd(a, r) && a.comps == s.comps
    ensures NoSilentAdd(s, r)
  {
    forall k | |s.trace| <= k < |r.trace| ensures AddHeardAt(s, r.trace, k) {
      if k >= |a.trace| {
        assert AddHeardAt(a, r.trace, k);
      } else if r.trace[k].Inserted? {
        assert AddHeardAt(s, a.trace, k) && a.trace[k] == r.trace[k];
        var id, e := r.trace[k].id, r.trace[k].entity;
        if IsDontFragment(s, id) {
          var m :| k < m < |a.trace| && Covers(a.trace[m], OnAdd, id, e) && StoredThrough(a.trace, id, e, k + 1, m);
          StoredThroughPrefix(a.trace, r.trace, id, e, k + 1, m);
          assert Covers(r.trace[m], OnAdd, id, e);
        }
      }
    }
  }

  lemma NoSilentDropThen(s: State, a: State, r: State)
    requires NoSilentDrop(s, a) && NoSilentDrop(a, r) && a.comps == s.comps
    ensures NoSilentDrop(s, r)
  {
    forall k | |s.trace| <= k < |r.trace| ensures DropHeardAt(s, r.trace, |s.trace|, k) {
      if k >= |a.trace| {
        assert DropHeardAt(a, r.trace, |a.trace|, k);
      } else if r.trace[k].Dropped? {
        assert DropHeardAt(s, a.trace, |s.trace|, k) && a.trace[k] == r.trace[k];
        var id, e := r.trace[k].id, r.trace[k].entity;
        if IsDontFragment(s, id) {
          var m :| |s.trace| <= m < k && Covers(a.trace[m], OnRemove, id, e) && StoredThrough(a.trace, id, e, m, k);
          StoredThroughPrefix(a.trace, r.trace, id, e, m, k);
          assert Covers(r.trace[m], OnRemove, id, e);
        }
      }
    }
  }

  /** Being told of by helper calls does not count as hearing of a drop. */
  lemma NoSilentAfterTold(s: State, told: seq<Item>, r: State)
    requires Log(s, told).trace <= r.trace && forall k :: 0 <= k < |told| ==> told[k].Told?
    ensures NoSilentAdd(s, r) <==> NoSilentAdd(Log(s, told), r)
    ensures NoSilentDrop(s, r) <==> NoSilentDrop(Log(s, told), r)
  {
    var a := Log(s, told);
    forall k | |s.trace| <= k < |a.trace| ensures r.trace[k].Told? {
      assert r.trace[k] == a.trace[k] == told[k - |s.trace|];
    }
    if NoSilentAdd(s, r) {
      forall k | |a.trace| <= k < |r.trace| ensures AddHeardAt(a, r.trace, k) {
        assert AddHeardAt(s, r.trace, k);
      }
    }
    if NoSilentAdd(a, r) {
      NoSilentAddThen(s, a, r);
    }
    if NoSilentDrop(s, r) {
      forall k | |a.trace| <= k < |r.trace| ensures DropHeardAt(a, r.trace, |a.trace|, k) {
        assert DropHeardAt(s, r.trace, |s.trace|, k);
      }
    }
    if NoSilentDrop(a, r) {
      NoSilentDropThen(s, a, r);
    }
  }

  /** Once inserted, an instance stays stored while nothing drops it. */
  lemma {:induction false} StoredAfter(trace: seq<Item>, id: Id, e: Entity, k: nat, n: nat)
    requires k < n <= |trace| && trace[k] == Inserted(id, e)
    requires forall j :: k < j < n ==> trace[j] != Dropped(id, e)
    ensures Stored(trace[..n], id, e)
  {
    assert trace[..n] == trace[..n - 1] + [trace[n - 1]];
    StoredNext(trace[..n - 1], trace[n - 1], id, e);
    if n > k + 1 {
      StoredAfter(trace, id, e, k, n - 1);
    }
  }

  /** What is stored now was stored before, if nothing was inserted since. */
  lemma {:induction false} StoredBefore(trace: seq<Item>, id: Id, e: Entity, n: nat, k: nat)
    requires n <= k <= |trace| && Stored(trace[..k], id, e)
    requires forall j :: n <= j < k ==> trace[j] != Inserted(id, e)
    ensures Stored(trace[..n], id, e)
    decreases k - n
  {
    if n < k {
      assert trace[..n + 1] == trace[..n] + [trace[n]];
      StoredNext(trace[..n], trace[n], id, e);
      StoredBefore(trace, id, e, n + 1, k);
    }
  }

  /** Insertions followed by one OnAdd event for all of them are heard of. */
  lemma AddsHeard(s: State, added: State, ids: seq<Id>, es: seq<Entity>, item: Item)
    requires OnlyAdds(s, added, ids, es)
    requires item.Emit? && item.event == OnAdd && item.ids == ids && item.entities == es
    ensures NoSilentAdd(s, Log(added, [item]))
  {
    var trace, m := added.trace + [item], |added.trace|;
    forall k | |s.trace| <= k < |trace| ensures AddHeardAt(s, trace, k) {
      if trace[k].Inserted? {
        var id, e := trace[k].id, trace[k].entity;
        assert trace[k] == added.trace[k];
        assert Covers(trace[m], OnAdd, id, e);
        forall n | k + 1 <= n <= m ensures Stored(trace[..n], id, e) {
          StoredAfter(trace, id, e, k, n);
        }
        assert StoredThrough(trace, id, e, k + 1, m);
      }
    }
  }

  /** Without a new DontFragment instance there is nothing to hear of. */
  lemma NoNewHeard(s: State, added: State, ids: seq<Id>, es: seq<Entity>)
    requires OnlyAdds(s, added, ids, es) && !AnyNew(s, ids, es)
    ensures NoSilentAdd(s, added)
  {}

  /** An OnRemove event followed by the drops it is about. */
  lemma DropsHeard(s: State, dropped: State, ids: seq<Id>, es: seq<Entity>, item: Item)
    requires OnlyDrops(Log(s, [item]), dropped, ids, es) && Consistent(dropped.trace)
    requires item.Emit? && item.event == OnRemove && item.ids == ids && item.entities == es
    ensures NoSilentDrop(s, dropped)
  {
    var trace, m := dropped.trace, |s.trace|;
    assert trace[m] == Log(s, [item]).trace[m] == item;
    forall k | m <= k < |trace| ensures DropHeardAt(s, trace, m, k) {
      if trace[k].Dropped? {
        var id, e := trace[k].id, trace[k].entity;
        assert Covers(trace[m], OnRemove, id, e);
        assert Fits(trace, k);
        forall n | m <= n <= k ensures Stored(trace[..n], id, e) {
          StoredBefore(trace, id, e, n, k);
        }
        assert StoredThrough(trace, id, e, m, k);
      }
    }
  }

  lemma NoneStoredHeard(s: State, dropped: State, ids: seq<Id>, es: seq<Entity>)
    requires OnlyDrops(s, dropped, ids, es) && !AnyStored(s, ids, es)
    ensures NoSilentDrop(s, dropped)
  {}

  /** What was stored and is so no more was dropped in between. */
  lemma {:induction false} DropBetween(trace: seq<Item>, id: Id, e: Entity, a: nat, b: nat) returns (k: nat)
    requires a <= b <= |trace| && Stored(trace[..a], id, e) && !Stored(trace[..b], id, e)
    ensures a <= k < b && trace[k] == Dropped(id, e)
    decreases b
  {
    assert a < b;
    assert trace[..b] == trace[..b - 1] + [trace[b - 1]];
    StoredNext(trace[..b - 1], trace[b - 1], id, e);
    if Stored(trace[..b - 1], id, e) {
      k := b - 1;
    } else {
      k := DropBetween(trace, id, e, a, b - 1);
    }
  }

  /** Drops without any event, one of them of a DontFragment instance, are not all heard of. */
  lemma SilentDrops(s: State, dropped: State, ids: seq<Id>, es: seq<Entity>, id: Id, e: Entity)
    requires Sound(s) && Sound(dropped) && OnlyDrops(s, dropped, ids, es)
    requires IsDontFragment(s, id) && e in Members(s, id) && e !in Members(dropped, id)
    ensures !NoSilentDrop(s, dropped)
  {
    var trace, n := dropped.trace, |s.trace|;
    assert trace[..n] == s.trace && trace[..|trace|] == trace;
    var k := DropBetween(trace, id, e, n, |trace|);
    assert !DropHeard(trace, n, k, id, e);
    assert !DropHeardAt(s, trace, n, k);
  }
}
