/** Clearing an entity of its non-fragmenting components: what the walk over the list amounts to. */
module Clearing {
  import opened ActionModel
  import Encoding

  /** The walk takes `e` out of the set of record `id`. */
  predicate Clears(s: State, id: Id, e: Entity) {
    id in s.comps && !s.comps[id].wildcard && e in Members(s, id)
  }

  /** The items of one cleared record: the event, the hook, the drop, in this order. */
  function OneCleared(s: State, id: Id, e: Entity): (items: seq<Item>)
    requires e in s.records
  {
    if !Clears(s, id, e) then []
    else
      var c, rec := s.comps[id], s.records[e];
      [Emit(OnRemove, [id], [e], rec.table, Some(rec.table), Encoding.RecordToRow(rec.word))]
      + (if c.typed && c.onRemove then [Hook(OnRemove, id, [e])] else [])
      + [Dropped(id, e)]
  }

  function AllCleared(s: State, ids: seq<Id>, e: Entity): (items: seq<Item>)
    requires e in s.records
  {
    if ids == [] then [] else AllCleared(s, ids[..|ids| - 1], e) + OneCleared(s, ids[|ids| - 1], e)
  }

  ghost predicate Distinct(ids: seq<Id>) {
    forall a, b :: 0 <= a < b < |ids| ==> ids[a] != ids[b]
  }

  /** `r` is `s` with `e` out of the sets of the given records. */
  ghost predicate ClearedOf(s: State, r: State, ids: seq<Id>, e: Entity) {
    && r.comps == s.comps && r.list == s.list && r.tables == s.tables && r.records == s.records
    && forall id :: Members(r, id) == if id in ids && Clears(s, id, e) then Members(s, id) - {e} else Members(s, id)
  }

  lemma ClearOneEffect(s: State, id: Id, e: Entity)
    requires e in s.records
    ensures var r := ClearOne(s, id, e);
            ClearedOf(s, r, [id], e) && r.trace == s.trace + OneCleared(s, id, e)
  {
    assert forall x :: x in [id] <==> x == id;
  }

  lemma ClearedStep(s: State, r0: State, r: State, ids: seq<Id>, id: Id, e: Entity)
    requires e in s.records && id !in ids && ClearedOf(s, r0, ids, e) && ClearedOf(r0, r, [id], e)
    ensures ClearedOf(s, r, ids + [id], e) && OneCleared(r0, id, e) == OneCleared(s, id, e)
  {
    assert Members(r0, id) == Members(s, id);
    forall x ensures Members(r, x) == if x in ids + [id] && Clears(s, x, e) then Members(s, x) - {e} else Members(s, x) {
      assert x in [id] <==> x == id;
    }
  }

  /** The walk drops `e` from exactly the sets it is in, and appends exactly the items of those
      records, in list order. */
  lemma {:induction false} ClearListEffect(s: State, ids: seq<Id>, e: Entity)
    requires e in s.records && Distinct(ids)
    ensures var r := ClearList(s, ids, e);
            ClearedOf(s, r, ids, e) && r.trace == s.trace + AllCleared(s, ids, e)
  {
    if ids != [] {
      var last := |ids| - 1;
      var id, r0 := ids[last], ClearList(s, ids[..last], e);
      ClearListEffect(s, ids[..last], e);
      ClearOneEffect(r0, id, e);
      ClearedStep(s, r0, ClearList(s, ids, e), ids[..last], id, e);
      assert ids == ids[..last] + [id];
    }
  }

  /** The ids of the OnRemove events among the items, in order. */
  function EventIds(items: seq<Item>): (ids: seq<Id>) {
    if items == [] then []
    else
      var last := items[|items| - 1];
      EventIds(items[..|items| - 1]) + if last.Emit? && last.event == OnRemove then last.ids else []
  }

  /** The records among `ids` that the walk clears, in order. */
  function ClearedIds(s: State, ids: seq<Id>, e: Entity): (r: seq<Id>) {
    if ids == [] then []
    else
      var id := ids[|ids| - 1];
      ClearedIds(s, ids[..|ids| - 1], e) + if Clears(s, id, e) then [id] else []
  }

  lemma {:induction false} EventIdsSum(a: seq<Item>, b: seq<Item>)
    ensures EventIds(a + b) == EventIds(a) + EventIds(b)
  {
    if b == [] {
      assert a + b == a;
    } else {
      var init, x := b[..|b| - 1], b[|b| - 1];
      EventIdsSum(a, init);
      var ids := if x.Emit? && x.event == OnRemove then x.ids else [];
      assert EventIds(a + b) == EventIds(a + init) + ids by {
        assert (a + b)[..|a + b| - 1] == a + init && (a + b)[|a + b| - 1] == x;
      }
      assert EventIds(b) == EventIds(init) + ids;
    }
  }

  lemma OneEvent(s: State, id: Id, e: Entity)
    requires e in s.records
    ensures EventIds(OneCleared(s, id, e)) == if Clears(s, id, e) then [id] else []
  {
    if Clears(s, id, e) {
      var c, rec := s.comps[id], s.records[e];
      var emit := [Emit(OnRemove, [id], [e], rec.table, Some(rec.table), Encoding.RecordToRow(rec.word))];
      var hook := if c.typed && c.onRemove then [Hook(OnRemove, id, [e])] else [];
      EventIdsSum(emit + hook, [Dropped(id, e)]);
      EventIdsSum(emit, hook);
      assert EventIds(emit) == [id] && EventIds(hook) == [] && EventIds([Dropped(id, e)]) == [];
    }
  }

  /** Exactly one OnRemove event per component that `e` had, in list order. */
  lemma {:induction false} OneEventEach(s: State, ids: seq<Id>, e: Entity)
    requires e in s.records
    ensures EventIds(AllCleared(s, ids, e)) == ClearedIds(s, ids, e)
  {
    if ids != [] {
      var last := |ids| - 1;
      OneEventEach(s, ids[..last], e);
      OneEvent(s, ids[last], e);
      EventIdsSum(AllCleared(s, ids[..last], e), OneCleared(s, ids[last], e));
    }
  }

  /** Nothing to clear: the walk changes nothing. */
  lemma {:induction false} NothingCleared(s: State, ids: seq<Id>, e: Entity)
    requires e in s.records && forall id :: id in ids ==> !Clears(s, id, e)
    ensures ClearList(s, ids, e) == s
  {
    if ids != [] {
      NothingCleared(s, ids[..|ids| - 1], e);
      assert ids[|ids| - 1] in ids;
    }
  }

  /** Wherever a DontFragment component is stored, the entity's record has the bit. */
  ghost predicate MarkedWhereStored(s: State) {
    forall id, e :: IsDontFragment(s, id) && !s.comps[id].wildcard && e in Members(s, id) ==> Marked(s, e)
  }

  /** The list holds DontFragment records. */
  ghost predicate ListSound(s: State) {
    Distinct(s.list) && forall id :: id in s.list ==> IsDontFragment(s, id)
  }

  /** The early exit on the bit is sound: where the bit is clear, the full walk finds nothing. */
  lemma EarlyExit(s: State, e: Entity)
    requires MarkedWhereStored(s) && ListSound(s) && e in s.records && !Marked(s, e)
    ensures Clear(s, e) == s == ClearList(s, s.list, e)
    ensures ClearWalk(s, e).members == s.members && ClearWalk(s, e).trace == s.trace
  {
    forall id | id in s.list ensures !Clears(s, id, e) {}
    NothingCleared(s, s.list, e);
  }

  /** Clearing takes `e` out of every set of the list that is not a wildcard's, changes no other
      entity's membership, and appends one OnRemove event per component `e` had, in list order,
      each before its drop. */
  lemma ClearStorage(s: State, e: Entity)
    requires MarkedWhereStored(s) && ListSound(s) && e in s.records
    ensures var r := Clear(s, e);
            && (forall id :: Members(r, id) ==
                  if id in s.list && !s.comps[id].wildcard then Members(s, id) - {e} else Members(s, id))
            && r.trace == s.trace + AllCleared(s, s.list, e)
            && EventIds(AllCleared(s, s.list, e)) == ClearedIds(s, s.list, e)
  {
    ClearListEffect(s, s.list, e);
    OneEventEach(s, s.list, e);
    if !Marked(s, e) {
      EarlyExit(s, e);
    }
  }

  /** Clearing leaves the bit clear, the entity's row, table and other flags as they were, and no other
      record touched. */
  lemma ClearRecords(s: State, e: Entity)
    requires e in s.records
    ensures var r := Clear(s, e);
            && r.comps == s.comps && r.list == s.list && r.tables == s.tables
            && r.records.Keys == s.records.Keys && !Marked(r, e)
            && r.records[e].table == s.records[e].table
            && Encoding.RecordToRow(r.records[e].word) == Encoding.RecordToRow(s.records[e].word)
            && Encoding.SameOtherBits(s.records[e].word, r.records[e].word)
            && forall x :: x in s.records && x != e ==> r.records[x] == s.records[x]
  {
    Encoding.DontFragmentWrites(s.records[e].word);
    if Marked(s, e) {
      ClearListFrame(s, s.list, e);
    }
  }

  lemma {:induction false} ClearListFrame(s: State, ids: seq<Id>, e: Entity)
    requires e in s.records
    ensures var r := ClearList(s, ids, e);
            r.comps == s.comps && r.list == s.list && r.tables == s.tables && r.records == s.records
  {
    if ids != [] {
      ClearListFrame(s, ids[..|ids| - 1], e);
    }
  }

  /** A second call changes nothing, and neither would a second walk. */
  lemma ClearTwice(s: State, e: Entity)
    requires MarkedWhereStored(s) && ListSound(s) && e in s.records
    ensures Clear(Clear(s, e), e) == Clear(s, e) == ClearList(Clear(s, e), s.list, e)
  {
    ClearStorage(s, e);
    ClearRecords(s, e);
    NothingCleared(Clear(s, e), s.list, e);
  }
}
