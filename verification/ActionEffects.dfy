/** What the storage steps of an action amount to, whatever the order they run in. */
module ActionEffects {
  import opened ActionModel
  import Encoding

  function ToSet(es: seq<Entity>): (r: set<Entity>) { set e | e in es }

  /** Nothing but members, record words and the end of the trace changed. */
  ghost predicate Extends(s: State, r: State) {
    && r.comps == s.comps && r.list == s.list && r.tables == s.tables
    && s.trace <= r.trace
    && r.records.Keys == s.records.Keys
    && forall e :: e in s.records ==> r.records[e].table == s.records[e].table
  }

  /** `r` has the members of `s`, and for sparse ids among `ids` those in `es` too. */
  ghost predicate MembersPlus(s: State, r: State, ids: seq<Id>, es: seq<Entity>) {
    forall id :: Members(r, id) == if id in ids && IsSparse(s, id) then Members(s, id) + ToSet(es) else Members(s, id)
  }

  ghost predicate MembersMinus(s: State, r: State, ids: seq<Id>, es: seq<Entity>) {
    forall id :: Members(r, id) == if id in ids && IsSparse(s, id) then Members(s, id) - ToSet(es) else Members(s, id)
  }

  /** The word of an entity's record once the ids were added to `es`. */
  ghost predicate MarkedAt(s: State, r: State, ids: seq<Id>, es: seq<Entity>, e: Entity)
    requires e in s.records && e in r.records
  {
    r.records[e].word == if e in es && (exists id :: id in ids && NewFor(s, id, e))
                         then Encoding.SetDontFragment(s.records[e].word)
                         else s.records[e].word
  }

  /** Exactly the records of entities new to a DontFragment id got the bit. */
  ghost predicate MarkedNew(s: State, r: State, ids: seq<Id>, es: seq<Entity>) {
    forall e :: e in s.records && e in r.records ==> MarkedAt(s, r, ids, es, e)
  }

  lemma InsertEffect(s: State, id: Id, e: Entity, construct: bool)
    requires IsSparse(s, id)
    ensures var r := Insert(s, id, e, construct);
            && Extends(s, r) && r.records == s.records
            && forall x :: Members(r, x) == if x == id then Members(s, x) + {e} else Members(s, x)
  {
    if e in Members(s, id) {
      assert Members(s, id) + {e} == Members(s, id);
    }
  }

  lemma AddOneEffect(s: State, id: Id, e: Entity, construct: bool)
    ensures var r := AddOne(s, id, e, construct);
            Extends(s, r) && MembersPlus(s, r, [id], [e]) && MarkedNew(s, r, [id], [e])
  {
    assert ToSet([e]) == {e};
    assert forall x :: x in [id] <==> x == id;
    if IsSparse(s, id) {
      InsertEffect(s, id, e, construct);
    }
  }

  lemma {:induction false} AddRowsEffect(s: State, id: Id, es: seq<Entity>, construct: bool)
    ensures var r := AddRows(s, id, es, construct);
            Extends(s, r) && MembersPlus(s, r, [id], es) && MarkedNew(s, r, [id], es)
  {
    if es != [] {
      var last := |es| - 1;
      var r0, r := AddRows(s, id, es[..last], construct), AddRows(s, id, es, construct);
      AddRowsEffect(s, id, es[..last], construct);
      AddOneEffect(r0, id, es[last], construct);
      assert es == es[..last] + [es[last]];
      RowAdded(s, r0, r, id, es[..last], es[last]);
    }
  }

  /** One more row of an id. */
  lemma RowAdded(s: State, r0: State, r: State, id: Id, es: seq<Entity>, x: Entity)
    requires Extends(s, r0) && MembersPlus(s, r0, [id], es) && MarkedNew(s, r0, [id], es)
    requires Extends(r0, r) && MembersPlus(r0, r, [id], [x]) && MarkedNew(r0, r, [id], [x])
    ensures Extends(s, r) && MembersPlus(s, r, [id], es + [x]) && MarkedNew(s, r, [id], es + [x])
  {
    assert ToSet(es + [x]) == ToSet(es) + ToSet([x]);
    assert forall i :: i in [id] <==> i == id;
    forall e | e in s.records && e in r.records ensures MarkedAt(s, r, [id], es + [x], e) {
      assert MarkedAt(s, r0, [id], es, e) && MarkedAt(r0, r, [id], [x], e);
      assert e in es + [x] <==> e in es || e == x;
      assert e in es <==> e in ToSet(es);
    }
  }

  lemma MarkedAtStep(s: State, r0: State, r: State, ids: seq<Id>, id: Id, es: seq<Entity>, e: Entity)
    requires Extends(s, r0) && MembersPlus(s, r0, ids, es)
    requires e in s.records && e in r0.records && e in r.records
    requires MarkedAt(s, r0, ids, es, e) && MarkedAt(r0, r, [id], es, e)
    ensures MarkedAt(s, r, ids + [id], es, e)
  {
    Encoding.SetTwice(s.records[e].word);
    NewForStep(s, r0, ids, id, es, e);
  }

  /** One more id: an entity is new to some of them if it was so before, or is now. */
  lemma NewForStep(s: State, r0: State, ids: seq<Id>, id: Id, es: seq<Entity>, e: Entity)
    requires Extends(s, r0) && MembersPlus(s, r0, ids, es)
    ensures e in es ==>
              ((exists x :: x in ids + [id] && NewFor(s, x, e)) <==>
               (exists x :: x in ids && NewFor(s, x, e)) || (exists x :: x in [id] && NewFor(r0, x, e)))
  {
    assert forall x :: x in ids + [id] <==> x in ids || x == id;
    assert id in [id];
    if e in es {
      assert e in ToSet(es);
      assert NewFor(r0, id, e) <==> NewFor(s, id, e) && id !in ids;
    }
  }

  /** The ids of a type, added one after the other, mark what any of them marks. */
  lemma MarkedNewStep(s: State, r0: State, r: State, ids: seq<Id>, id: Id, es: seq<Entity>)
    requires Extends(s, r0) && MembersPlus(s, r0, ids, es) && MarkedNew(s, r0, ids, es)
    requires Extends(r0, r) && MarkedNew(r0, r, [id], es)
    ensures MarkedNew(s, r, ids + [id], es)
  {
    forall e | e in s.records && e in r.records ensures MarkedAt(s, r, ids + [id], es, e) {
      assert MarkedAt(s, r0, ids, es, e) && MarkedAt(r0, r, [id], es, e);
      MarkedAtStep(s, r0, r, ids, id, es, e);
    }
  }

  lemma {:induction false} AddIdsEffect(s: State, ids: seq<Id>, es: seq<Entity>, emplace: Id)
    ensures var r := AddIds(s, ids, es, emplace);
            Extends(s, r) && MembersPlus(s, r, ids, es) && MarkedNew(s, r, ids, es)
  {
    if ids != [] {
      var last := |ids| - 1;
      var id, r0, r := ids[last], AddIds(s, ids[..last], es, emplace), AddIds(s, ids, es, emplace);
      AddIdsEffect(s, ids[..last], es, emplace);
      AddRowsEffect(r0, id, es, Constructs(id, emplace));
      MarkedNewStep(s, r0, r, ids[..last], id, es);
      assert ids == ids[..last] + [id];
    }
  }

  lemma AnyNewGrows(s: State, r: State, id: Id, es: seq<Entity>, e: Entity)
    requires Extends(s, r) && MembersPlus(s, r, [id], es)
    ensures AnyNew(s, [id], es + [e]) <==> AnyNew(s, [id], es) || NewFor(r, id, e)
  {
    assert id in [id] && e in es + [e];
    if AnyNew(s, [id], es) {
      var x :| x in es && NewFor(s, id, x);
      assert x in es + [e];
    }
    if NewFor(s, id, e) && e in es {
      assert e in ToSet(es);
    }
  }

  /** One more row: the model and the answer both grow by it. */
  lemma AddRowsStep(s: State, r: State, id: Id, t: TableId, row: nat, j: nat, construct: bool)
    requires HasRows(s, t, row, j + 1) && r == AddRows(s, id, Rows(s, t, row, j), construct)
    ensures var e := s.tables[t].entities[row + j];
            && AddRows(s, id, Rows(s, t, row, j + 1), construct) == AddOne(r, id, e, construct)
            && (AnyNew(s, [id], Rows(s, t, row, j + 1)) <==> AnyNew(s, [id], Rows(s, t, row, j)) || NewFor(r, id, e))
  {
    var es, e := Rows(s, t, row, j), s.tables[t].entities[row + j];
    assert Rows(s, t, row, j + 1) == es + [e] && (es + [e])[..j] == es;
    AddRowsEffect(s, id, es, construct);
    AnyNewGrows(s, r, id, es, e);
  }

  lemma AnyNewGrowsById(s: State, r: State, ids: seq<Id>, id: Id, es: seq<Entity>)
    requires Extends(s, r) && MembersPlus(s, r, ids, es)
    ensures AnyNew(s, ids + [id], es) <==> AnyNew(s, ids, es) || AnyNew(r, [id], es)
  {
    assert id in [id] && id in ids + [id];
    assert forall x :: x in ids ==> x in ids + [id];
    forall e | e in es && NewFor(s, id, e) && id !in ids ensures NewFor(r, id, e) {}
    forall e | e in es && NewFor(r, id, e) ensures NewFor(s, id, e) {}
  }

  /** One more id of a type being added. */
  lemma AddIdsStep(s: State, r: State, ids: seq<Id>, i: nat, es: seq<Entity>, emplace: Id)
    requires i < |ids| && r == AddIds(s, ids[..i], es, emplace)
    ensures AddIds(s, ids[..i + 1], es, emplace) == AddRows(r, ids[i], es, Constructs(ids[i], emplace))
    ensures AnyNew(s, ids[..i + 1], es) <==> AnyNew(s, ids[..i], es) || AnyNew(r, [ids[i]], es)
    ensures r.tables == s.tables
  {
    var before, id, more := ids[..i], ids[i], ids[..i + 1];
    assert more == before + [id] && more[..i] == before;
    assert Extends(s, r) && MembersPlus(s, r, before, es) by { AddIdsEffect(s, before, es, emplace); }
    assert AnyNew(s, more, es) <==> AnyNew(s, before, es) || AnyNew(r, [id], es) by {
      AnyNewGrowsById(s, r, before, id, es);
    }
    assert AddIds(s, more, es, emplace) == AddRows(r, id, es, Constructs(id, emplace));
  }

  // ----- removing

  lemma RemoveOneEffect(s: State, id: Id, e: Entity)
    requires IsSparse(s, id)
    ensures var r := RemoveOne(s, id, e);
            && Extends(s, r) && r.records == s.records
            && MembersMinus(s, r, [id], [e])
  {
    assert ToSet([e]) == {e};
    assert forall x :: x in [id] <==> x == id;
    if e !in Members(s, id) {
      assert Members(s, id) - {e} == Members(s, id);
    }
  }

  lemma {:induction false} RemoveRowsEffect(s: State, id: Id, es: seq<Entity>)
    requires IsSparse(s, id)
    ensures var r := RemoveRows(s, id, es);
            Extends(s, r) && r.records == s.records && MembersMinus(s, r, [id], es)
  {
    if es != [] {
      var last := |es| - 1;
      RemoveRowsEffect(s, id, es[..last]);
      RemoveOneEffect(RemoveRows(s, id, es[..last]), id, es[last]);
      assert ToSet(es) == ToSet(es[..last]) + ToSet([es[last]]);
      assert forall x :: x in [id] <==> x == id;
    }
  }

  lemma {:induction false} RemoveIdsEffect(s: State, ids: seq<Id>, es: seq<Entity>)
    ensures var r := RemoveIds(s, ids, es);
            Extends(s, r) && r.records == s.records && MembersMinus(s, r, ids, es)
  {
    if ids != [] {
      var last := |ids| - 1;
      RemoveIdsEffect(s, ids[..last], es);
      if IsSparse(s, ids[last]) {
        RemoveRowsEffect(RemoveIds(s, ids[..last], es), ids[last], es);
      }
      assert ids == ids[..last] + [ids[last]];
    }
  }

  lemma RemoveRowsStep(s: State, r: State, id: Id, t: TableId, row: nat, j: nat)
    requires HasRows(s, t, row, j + 1) && r == RemoveRows(s, id, Rows(s, t, row, j))
    ensures RemoveRows(s, id, Rows(s, t, row, j + 1)) == RemoveOne(r, id, s.tables[t].entities[row + j])
  {
    assert Rows(s, t, row, j + 1)[..j] == Rows(s, t, row, j);
  }

  lemma ClearListStep(s: State, r: State, ids: seq<Id>, k: nat, e: Entity)
    requires k < |ids| && e in s.records && r == ClearList(s, ids[..k], e)
    ensures ClearList(s, ids[..k + 1], e) == ClearOne(r, ids[k], e)
  {
    assert ids[..k + 1][..k] == ids[..k];
  }

  lemma LogTwice(s: State, a: seq<Item>, b: seq<Item>)
    ensures Log(Log(s, a), b) == Log(s, a + b)
  {
    assert s.trace + a + b == s.trace + (a + b);
  }

  lemma LogNext(s: State, items: seq<Item>, j: nat)
    requires j < |items|
    ensures Log(Log(s, items[..j]), [items[j]]) == Log(s, items[..j + 1])
  {
    LogTwice(s, items[..j], [items[j]]);
    assert items[..j + 1] == items[..j] + [items[j]];
  }

  /** One more id of a type being set. */
  lemma SetHooksStep(s: State, ids: seq<Id>, i: nat, es: seq<Entity>)
    requires i < |ids| && forall id :: id in ids ==> id in s.comps
    ensures SetHooksOf(s, ids[..i + 1], es) == SetHooksOf(s, ids[..i], es) + SetHooks(s, ids[i], es)
    ensures AnyDontFragment(s, ids[..i + 1]) <==> AnyDontFragment(s, ids[..i]) || IsDontFragment(s, ids[i])
  {
    assert ids[..i + 1][..i] == ids[..i];
    assert forall id :: id in ids[..i + 1] <==> id in ids[..i] || id == ids[i];
  }

  /** Setting only runs hooks. */
  lemma {:induction false} AllHooks(s: State, ids: seq<Id>, es: seq<Entity>)
    requires forall id :: id in ids ==> id in s.comps
    ensures forall k :: 0 <= k < |SetHooksOf(s, ids, es)| ==> SetHooksOf(s, ids, es)[k].Hook?
  {
    if ids != [] {
      AllHooks(s, ids[..|ids| - 1], es);
    }
  }

  /** Setting one id: its hooks, then its event. */
  lemma NotifyOneSplits(s: State, t: TableId, row: nat, id: Id, invokeHook: bool, hooks: seq<Item>)
    requires HasRows(s, t, row, 1) && id in s.comps
    requires hooks == if invokeHook then SetHooks(s, id, Rows(s, t, row, 1)) else []
    ensures var r := Log(s, hooks);
            && (!invokeHook ==> r == s)
            && NotifyOne(s, t, row, id, invokeHook) == Log(r, SetEvent(r, t, row, Rows(r, t, row, 1), [id]))
  {
    var r, es := Log(s, hooks), Rows(s, t, row, 1);
    LogTwice(s, hooks, SetEvent(s, t, row, es, [id]));
    assert forall x :: IsDontFragment(r, x) == IsDontFragment(s, x);
    assert AnyDontFragment(r, [id]) <==> AnyDontFragment(s, [id]);
    assert s.trace + [] == s.trace;
  }
}
