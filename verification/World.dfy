/** The actions as the engine runs them: loops over ids, rows and the list of non-fragmenting
    records, on sparse sets and record words that change in place. Every method is proved to
    do what its model function says. */
module Worlds {
  import opened ActionModel
  import opened ActionEffects
  import opened SparseSets
  import Encoding

  /** `ids` are the records met from `at` on. */
  ghost predicate Chain(at: Option<Id>, next: map<Id, Option<Id>>, ids: seq<Id>)
    decreases |ids|
  {
    if ids == [] then at == None
    else at == Some(ids[0]) && ids[0] in next && Chain(next[ids[0]], next, ids[1..])
  }

  lemma {:induction false} ChainFrame(at: Option<Id>, next: map<Id, Option<Id>>, ids: seq<Id>, id: Id, to: Option<Id>)
    requires Chain(at, next, ids) && id !in ids
    ensures Chain(at, next[id := to], ids)
    decreases |ids|
  {
    if ids != [] {
      ChainFrame(next[ids[0]], next, ids[1..], id, to);
    }
  }

  /** One step along the chain. */
  lemma ChainStep(id: Id, next: map<Id, Option<Id>>, list: seq<Id>, k: nat)
    requires k <= |list| && Chain(Some(id), next, list[k..])
    ensures k < |list| && list[k] == id && id in next && Chain(next[id], next, list[k + 1..])
  {
    assert list[k..] != [] ==> list[k..][1..] == list[k + 1..];
  }

  /** Sparse records have a sparse set, and the list is a chain of sparse records. */
  ghost predicate Shaped(comps: map<Id, Comp>, sets: set<Id>, head: Option<Id>, next: map<Id, Option<Id>>, list: seq<Id>) {
    && (forall id :: id in comps && comps[id].sparse ==> id in sets)
    && (forall id :: id in comps && comps[id].dontFragment ==> comps[id].sparse)
    && Chain(head, next, list)
    && (forall id :: id in list ==> id in comps && comps[id].sparse)
  }

  /** A new record keeps the shape; a DontFragment one becomes the head of the list. */
  lemma ShapedLinked(comps: map<Id, Comp>, sets: set<Id>, head: Option<Id>, next: map<Id, Option<Id>>, list: seq<Id>,
                     id: Id, c: Comp)
    requires Shaped(comps, sets, head, next, list) && id !in comps && (c.dontFragment ==> c.sparse)
    ensures var more := WithSet(sets, id, c);
            && (c.dontFragment ==> Shaped(comps[id := c], more, Some(id), next[id := head], [id] + list))
            && (!c.dontFragment ==> Shaped(comps[id := c], more, head, next, list))
  {
    if c.dontFragment {
      ChainFrame(head, next, list, id, head);
      assert ([id] + list)[1..] == list;
    }
  }

  function WithSet(sets: set<Id>, id: Id, c: Comp): (r: set<Id>) { if c.sparse then sets + {id} else sets }

  /** The entities in tables have records. */
  ghost predicate Placed(tables: map<TableId, Table>, records: map<Entity, Record>) {
    forall t, k :: t in tables && 0 <= k < |tables[t].entities| ==>
      tables[t].entities[k] in records && tables[t].entities[k] < INDEX_LIMIT
  }

  /** No wildcard record is among the ids; their storage is kept by other code. */
  ghost predicate NoWildcards(comps: map<Id, Comp>, ids: seq<Id>) {
    forall id :: id in ids && id in comps ==> !comps[id].wildcard
  }

  /** Only components with type info can be set. */
  ghost predicate Settable(comps: map<Id, Comp>, ids: seq<Id>) {
    forall id :: id in ids ==> id in comps && comps[id].typed
  }

  ghost predicate IsAt(tables: map<TableId, Table>, t: TableId, row: nat, e: Entity) {
    t in tables && row < |tables[t].entities| && tables[t].entities[row] == e
  }

  /** What the engine needs of a sparse set: it is sound and holds these entities. */
  ghost predicate Holds(sparse: SparseSet<int>, m: set<Entity>)
    reads sparse
  {
    sparse.Linked() && sparse.Members() == m
  }

  method Include(sparse: SparseSet<int>, e: Entity, ghost m: set<Entity>) returns (isNew: bool)
    requires Holds(sparse, m) && e < INDEX_LIMIT
    modifies sparse
    ensures Holds(sparse, m + {e}) && (isNew <==> e !in m)
  {
    IndexOfIndex(e);
    isNew := sparse.Ensure(e);
  }

  method Exclude(sparse: SparseSet<int>, e: Entity, ghost m: set<Entity>)
    requires Holds(sparse, m) && e < INDEX_LIMIT
    modifies sparse
    ensures Holds(sparse, m - {e})
  {
    IndexOfIndex(e);
    var _ := sparse.Remove(e);
  }

  /** Inserting changes the size of a sparse set exactly when the entity is new to it. */
  lemma CountShowsNew(s: State, id: Id, e: Entity, construct: bool)
    requires id in s.comps
    ensures |Members(Insert(s, id, e, construct), id)| != |Members(s, id)| <==> e !in Members(s, id)
  {
    assert e !in Members(s, id) ==> |Members(s, id) + {e}| == |Members(s, id)| + 1;
  }

  class World {
    var comps: map<Id, Comp>
    var sparse: map<Id, SparseSet<int>>
    var head: Option<Id>
    var next: map<Id, Option<Id>>
    var tables: map<TableId, Table>
    var records: map<Entity, Record>
    ghost var list: seq<Id>
    ghost var members: map<Id, set<Entity>>
    ghost var sets: set<SparseSet<int>>
    ghost var trace: seq<Item>

    /** The sparse sets are sound and distinct objects that hold the members. */
    ghost predicate Stores()
      reads this`sparse, this`members, this`sets, sets
    {
      && sparse.Keys == members.Keys
      && (forall id {:trigger sparse[id]} :: id in sparse ==>
            sparse[id] in sets && Holds(sparse[id], members[id]))
      && (forall a, b {:trigger sparse[a], sparse[b]} :: a in sparse && b in sparse && a != b ==> sparse[a] != sparse[b])
    }

    ghost predicate Valid()
      reads this, sets
    {
      && Stores()
      && Shaped(comps, members.Keys, head, next, list)
      && Placed(tables, records)
    }

    ghost function Abs(): (s: State)
      reads this
    {
      State(comps, list, members, tables, records, trace)
    }

    constructor ()
      ensures Valid() && Abs() == State(map[], [], map[], map[], map[], [])
    {
      comps, sparse, head, next := map[], map[], None, map[];
      tables, records := map[], map[];
      list, members, sets, trace := [], map[], {}, [];
    }

    // ----- component records

    /** `flecs_component_init_sparse`: a sparse set of its own for a new record. */
    method AddSparseSet(id: Id)
      requires Stores() && id !in members
      modifies this`sparse, this`members, this`sets
      ensures Stores() && fresh(sets - old(sets)) && Abs() == WithMembers(old(Abs()), id, {})
    {
      var set0 := new SparseSet<int>(0);
      sparse := sparse[id := set0];
      members := members[id := {}];
      sets := sets + {set0};
    }

    /** Makes a record known, a DontFragment one as the head of the list. */
    method Link(id: Id, c: Comp)
      requires Shaped(comps, members.Keys, head, next, list) && id !in comps && (c.dontFragment ==> c.sparse)
      modifies this`comps, this`head, this`next, this`list
      ensures Abs() == WithRecord(old(Abs()), id, c)
      ensures Shaped(comps, WithSet(members.Keys, id, c), head, next, list)
    {
      ShapedLinked(comps, members.Keys, head, next, list, id, c);
      if c.dontFragment {
        next := next[id := head];
        head := Some(id);
        list := [id] + list;
      }
      comps := comps[id := c];
    }

    /** A new component record, as `flecs_component_record_init_dont_fragment` sets up a
        DontFragment one. */
    method Register(id: Id, c: Comp)
      requires Valid() && id !in comps && id !in members && (c.dontFragment ==> c.sparse)
      modifies this
      ensures Valid() && fresh(sets - old(sets)) && Abs() == Registered(old(Abs()), id, c)
    {
      Link(id, c);
      if c.sparse {
        AddSparseSet(id);
      }
      assert members.Keys == WithSet(old(members).Keys, id, c);
    }

    // ----- sparse storage

    /** Makes an entity a member of one sparse set; the others are other objects. */
    method StoreMember(id: Id, e: Entity) returns (isNew: bool)
      requires Stores() && id in members && e < INDEX_LIMIT
      modifies this`members, sets
      ensures Stores() && (isNew <==> e !in old(members)[id])
      ensures members == if isNew then old(members)[id := old(members)[id] + {e}] else old(members)
    {
      isNew := Include(sparse[id], e, members[id]);
      if isNew {
        members := members[id := members[id] + {e}];
      } else {
        assert members[id] + {e} == members[id];
      }
    }

    method EnsureMember(id: Id, e: Entity) returns (isNew: bool)
      requires Valid() && id in members && e < INDEX_LIMIT
      modifies this`members, sets
      ensures Valid() && (isNew <==> e !in Members(old(Abs()), id))
      ensures Abs() == if isNew then WithMembers(old(Abs()), id, Members(old(Abs()), id) + {e}) else old(Abs())
    {
      isNew := StoreMember(id, e);
      assert members.Keys == old(members).Keys;
    }

    method UnstoreMember(id: Id, e: Entity)
      requires Stores() && id in members && e < INDEX_LIMIT
      modifies this`members, sets
      ensures Stores() && members == old(members)[id := old(members)[id] - {e}]
    {
      Exclude(sparse[id], e, members[id]);
      members := members[id := members[id] - {e}];
    }

    method DropMember(id: Id, e: Entity)
      requires Valid() && id in members && e < INDEX_LIMIT
      modifies this`members, sets
      ensures Valid()
      ensures Abs() == if e in Members(old(Abs()), id)
                       then WithMembers(old(Abs()), id, Members(old(Abs()), id) - {e})
                       else old(Abs())
    {
      UnstoreMember(id, e);
      if e !in old(members)[id] {
        assert old(members)[id] - {e} == old(members)[id];
      }
      assert members.Keys == old(members).Keys;
    }

    method HasMember(id: Id, e: Entity) returns (r: bool)
      requires Stores() && id in members && e < INDEX_LIMIT
      ensures r <==> e in Members(Abs(), id)
    {
      IndexOfIndex(e);
      r := sparse[id].Has(e);
    }

    method CountMembers(id: Id) returns (n: nat)
      requires Stores() && id in members
      ensures n == |Members(Abs(), id)|
    {
      n := sparse[id].Count();
    }

    /** What happens is logged, for the model only. */
    ghost method Append(items: seq<Item>)
      requires Valid()
      modifies this`trace
      ensures Valid() && Abs() == Log(old(Abs()), items)
    {
      trace := trace + items;
    }

    method MarkEntity(e: Entity)
      requires Valid() && e in records
      modifies this`records
      ensures Valid() && Abs() == Mark(old(Abs()), e)
    {
      var r := records[e];
      records := records[e := r.(word := Encoding.SetDontFragment(r.word))];
    }

    /** `flecs_component_sparse_insert`, or `flecs_component_sparse_emplace` when not constructing */
    method SparseInsert(id: Id, t: TableId, row: nat, construct: bool, ghost at: Entity)
      requires Valid() && id in comps && comps[id].sparse && IsAt(tables, t, row, at)
      modifies this`trace, this`members, sets
      ensures Valid() && Abs() == Insert(old(Abs()), id, at, construct)
    {
      var e, c := tables[t].entities[row], comps[id];
      var isNew := EnsureMember(id, e);
      if isNew {
        Append([Inserted(id, e)]);
      }
      if construct && !isNew {
        return;
      }
      if c.typed && c.onAdd {
        Append([Hook(OnAdd, id, [e])]);
      }
    }

    /** `flecs_component_sparse_remove` of a record that is not a wildcard */
    method SparseRemove(id: Id, t: TableId, row: nat, ghost at: Entity)
      requires Valid() && id in comps && comps[id].sparse && IsAt(tables, t, row, at)
      modifies this`trace, this`members, sets
      ensures Valid() && Abs() == RemoveOne(old(Abs()), id, at)
    {
      var e, c := tables[t].entities[row], comps[id];
      ghost var was := e in members[id];
      if c.typed {
        var stored := HasMember(id, e);
        if !stored {
          return;
        }
        if c.onRemove {
          Append([Hook(OnRemove, id, [e])]);
        }
      }
      DropMember(id, e);
      if was {
        Append([Dropped(id, e)]);
      }
    }

    /** `flecs_sparse_on_add_cr`: whether the entity is new to a DontFragment component shows in
        the size of the sparse set before and after. */
    method SparseOnAddCr(t: TableId, row: nat, id: Id, construct: bool, ghost at: Entity) returns (isNew: bool)
      requires Valid() && IsAt(tables, t, row, at)
      modifies this`trace, this`records, this`members, sets
      ensures Valid() && Abs() == AddOne(old(Abs()), id, at, construct)
      ensures isNew <==> NewFor(old(Abs()), id, at)
    {
      isNew := false;
      if id in comps && comps[id].sparse {
        var before := CountMembers(id);
        SparseInsert(id, t, row, construct, at);
        CountShowsNew(old(Abs()), id, at, construct);
        if comps[id].dontFragment {
          var after := CountMembers(id);
          isNew := before != after;
          if isNew {
            MarkEntity(tables[t].entities[row]);
          }
        }
      }
    }

    method AddRange(t: TableId, row: nat, count: nat, id: Id, construct: bool) returns (isNew: bool)
      requires Valid() && HasRows(Abs(), t, row, count)
      modifies this`trace, this`records, this`members, sets
      ensures Valid() && Abs() == AddRows(old(Abs()), id, Rows(old(Abs()), t, row, count), construct)
      ensures isNew <==> AnyNew(old(Abs()), [id], Rows(old(Abs()), t, row, count))
    {
      isNew := false;
      ghost var s := Abs();
      for j := 0 to count
        invariant Valid() && tables == old(tables)
        invariant Abs() == AddRows(s, id, Rows(s, t, row, j), construct)
        invariant isNew <==> AnyNew(s, [id], Rows(s, t, row, j))
      {
        var added := AddRow(t, row, j, id, construct, s);
        isNew := isNew || added;
      }
    }

    method AddRow(t: TableId, row: nat, j: nat, id: Id, construct: bool, ghost s: State) returns (added: bool)
      requires Valid() && HasRows(s, t, row, j + 1) && tables == s.tables
      requires Abs() == AddRows(s, id, Rows(s, t, row, j), construct)
      modifies this`trace, this`records, this`members, sets
      ensures Valid() && Abs() == AddRows(s, id, Rows(s, t, row, j + 1), construct)
      ensures AnyNew(s, [id], Rows(s, t, row, j + 1)) <==> AnyNew(s, [id], Rows(s, t, row, j)) || added
    {
      ghost var r, e := Abs(), tables[t].entities[row + j];
      AddRowsStep(s, r, id, t, row, j, construct);
      added := SparseOnAddCr(t, row + j, id, construct, e);
    }

    /** `flecs_sparse_on_add` */
    method SparseOnAdd(t: TableId, row: nat, count: nat, added: seq<Id>, emplace: Id) returns (isNew: bool)
      requires Valid() && HasRows(Abs(), t, row, count)
      modifies this`trace, this`records, this`members, sets
      ensures Valid() && Abs() == AddIds(old(Abs()), added, Rows(old(Abs()), t, row, count), emplace)
      ensures isNew <==> AnyNew(old(Abs()), added, Rows(old(Abs()), t, row, count))
    {
      isNew := false;
      var constructAny := emplace != WILDCARD;
      ghost var s, es := Abs(), Rows(Abs(), t, row, count);
      for i := 0 to |added|
        invariant Valid() && tables == old(tables)
        invariant Abs() == AddIds(s, added[..i], es, emplace)
        invariant isNew <==> AnyNew(s, added[..i], es)
      {
        var id := added[i];
        ghost var r := Abs();
        AddIdsStep(s, r, added, i, es, emplace);
        var isNewId := AddRange(t, row, count, id, constructAny && id != emplace);
        isNew := isNew || isNewId;
      }
      assert added[..|added|] == added;
    }

    method RemoveRange(t: TableId, row: nat, count: nat, id: Id)
      requires Valid() && HasRows(Abs(), t, row, count) && id in comps && comps[id].sparse
      modifies this`trace, this`members, sets
      ensures Valid() && Abs() == RemoveRows(old(Abs()), id, Rows(old(Abs()), t, row, count))
    {
      ghost var s := Abs();
      for j := 0 to count
        invariant Valid() && tables == old(tables) && comps == old(comps)
        invariant Abs() == RemoveRows(s, id, Rows(s, t, row, j))
      {
        RemoveRow(t, row, j, id, s);
      }
    }

    method RemoveRow(t: TableId, row: nat, j: nat, id: Id, ghost s: State)
      requires Valid() && id in comps && comps[id].sparse
      requires HasRows(s, t, row, j + 1) && tables == s.tables && Abs() == RemoveRows(s, id, Rows(s, t, row, j))
      modifies this`trace, this`members, sets
      ensures Valid() && Abs() == RemoveRows(s, id, Rows(s, t, row, j + 1))
    {
      ghost var r, e := Abs(), tables[t].entities[row + j];
      RemoveRowsStep(s, r, id, t, row, j);
      SparseRemove(id, t, row + j, e);
    }

    /** `flecs_sparse_on_remove` */
    method SparseOnRemove(t: TableId, row: nat, count: nat, removed: seq<Id>)
      requires Valid() && HasRows(Abs(), t, row, count) && NoWildcards(comps, removed)
      modifies this`trace, this`members, sets
      ensures Valid() && Abs() == RemoveIds(old(Abs()), removed, Rows(old(Abs()), t, row, count))
    {
      ghost var s, es := Abs(), Rows(Abs(), t, row, count);
      for i := 0 to |removed|
        invariant Valid() && Abs() == RemoveIds(s, removed[..i], es)
      {
        var id := removed[i];
        assert removed[..i + 1] == removed[..i] + [id] && removed[..i + 1][..i] == removed[..i];
        if id in comps && comps[id].sparse {
          RemoveRange(t, row, count, id);
        }
      }
      assert removed[..|removed|] == removed;
    }

    /** `flecs_dont_fragment_on_remove` */
    method DontFragmentOnRemove(t: TableId, row: nat, count: nat, removed: seq<Id>) returns (r: bool)
      requires Valid() && HasRows(Abs(), t, row, count) && NoWildcards(comps, removed)
      ensures r <==> AnyStored(Abs(), removed, Rows(Abs(), t, row, count))
    {
      ghost var es := Rows(Abs(), t, row, count);
      for i := 0 to |removed|
        invariant !AnyStored(Abs(), removed[..i], es)
      {
        var id := removed[i];
        if id in comps && comps[id].dontFragment {
          for j := 0 to count
            invariant forall k :: 0 <= k < j ==> es[k] !in Members(Abs(), id)
          {
            var e := tables[t].entities[row + j];
            assert e == es[j];
            var stored := HasMember(id, e);
            if stored {
              assert id in removed && e in es;
              return true;
            }
          }
        }
        assert forall x :: x in removed[..i + 1] <==> x in removed[..i] || x == id;
      }
      assert removed[..|removed|] == removed;
      return false;
    }

    method UnmarkEntity(e: Entity)
      requires Valid() && e in records
      modifies this`records
      ensures Valid() && Abs() == Unmark(old(Abs()), e)
    {
      var r := records[e];
      records := records[e := r.(word := Encoding.ClearDontFragment(r.word))];
    }

    /** One record of the list: an observer hears of the removal while the instance is stored. */
    method ClearRecord(id: Id, e: Entity, r: Record, row: nat)
      requires Valid() && id in comps && comps[id].sparse
      requires e in records && r == records[e] && row == Encoding.RecordToRow(r.word) && IsAt(tables, r.table, row, e)
      modifies this`trace, this`members, sets
      ensures Valid() && Abs() == ClearOne(old(Abs()), id, e)
    {
      if !comps[id].wildcard {
        var stored := HasMember(id, e);
        if stored {
          var seen := tables[r.table].entities[row..row + 1];
          assert seen == [e];
          Append([Emit(OnRemove, [id], seen, r.table, Some(r.table), row)]);
          SparseRemove(id, r.table, row, e);
        }
      }
    }

    /** `flecs_entity_remove_non_fragmenting` */
    method RemoveNonFragmenting(e: Entity)
      requires Valid()
      requires e in records ==> IsAt(tables, records[e].table, Encoding.RecordToRow(records[e].word), e)
      modifies this`trace, this`records, this`members, sets
      ensures Valid() && Abs() == Clear(old(Abs()), e)
    {
      if e !in records || !Encoding.HasDontFragment(records[e].word) {
        return;
      }
      var r := records[e];
      var row := Encoding.RecordToRow(r.word);
      ClearRecords(e, r, row);
      UnmarkEntity(e);
    }

    /** The record at position `k` of the list; returns the one after it. */
    method ClearNext(id: Id, ghost k: nat, e: Entity, r: Record, row: nat, ghost s: State) returns (cur: Option<Id>)
      requires Valid() && k <= |list| && Chain(Some(id), next, list[k..])
      requires e in records && r == records[e] && row == Encoding.RecordToRow(r.word) && IsAt(tables, r.table, row, e)
      requires e in s.records && Abs() == ClearList(s, list[..k], e)
      modifies this`trace, this`members, sets
      ensures k < |list| && Chain(cur, next, list[k + 1..])
      ensures Valid() && Abs() == ClearList(s, list[..k + 1], e)
    {
      ChainStep(id, next, list, k);
      ghost var at := Abs();
      ClearListStep(s, at, list, k, e);
      ClearRecord(id, e, r, row);
      cur := next[id];
    }

    /** The walk from the head of the list. */
    method ClearRecords(e: Entity, r: Record, row: nat)
      requires Valid()
      requires e in records && r == records[e] && row == Encoding.RecordToRow(r.word) && IsAt(tables, r.table, row, e)
      modifies this`trace, this`members, sets
      ensures Valid() && Abs() == ClearList(old(Abs()), old(list), e)
    {
      var cur := head;
      ghost var s, k := Abs(), 0;
      while cur.Some?
        invariant Valid() && 0 <= k <= |list| && Chain(cur, next, list[k..])
        invariant tables == old(tables) && records == old(records) && list == old(list)
        invariant Abs() == ClearList(s, list[..k], e)
        decreases |list| - k
      {
        cur := ClearNext(cur.value, k, e, r, row, s);
        k := k + 1;
      }
      assert list[..k] == list;
    }

    // ----- the actions

    method Tells(helper: Helper, t: TableId, other: Option<TableId>, row: nat, count: nat)
      requires Valid()
      modifies this`trace
      ensures Valid() && Abs() == Tell(old(Abs()), helper, t, other, row, count)
    {
      Append([Told(helper, t, other, row, count)]);
    }

    method Emits(event: Event, ids: seq<Id>, t: TableId, other: Option<TableId>, row: nat, count: nat)
      requires Valid() && HasRows(Abs(), t, row, count)
      modifies this`trace
      ensures Valid() && Abs() == Log(old(Abs()), [Emit(event, ids, Rows(old(Abs()), t, row, count), t, other, row)])
    {
      Append([Emit(event, ids, tables[t].entities[row..row + count], t, other, row)]);
    }

    method OnReparent(t: TableId, other: Option<TableId>, row: nat, count: nat)
      requires Valid()
      modifies this`trace
      ensures Valid() && Abs() == Reparented(old(Abs()), t, other, row, count)
    {
      Tells(ReparentNames, t, other, row, count);
      Tells(ReparentOrdered, t, other, row, count);
      Tells(ReparentChildOf, t, other, row, count);
    }

    method OnUnparent(t: TableId, other: Option<TableId>, row: nat, count: nat, flags: set<TableFlag>)
      requires Valid()
      modifies this`trace
      ensures Valid() && Abs() == Unparented(old(Abs()), t, other, row, count, flags)
    {
      if EdgeReparent in flags {
        if other.Some? {
          Tells(UnparentNames, t, other, row, count);
        }
        Tells(UnparentChildOf, t, other, row, count);
      }
      if HasOrderedChildren in flags {
        Tells(UnparentOrdered, t, other, row, count);
      }
    }

    /** `flecs_actions_on_add_intern` */
    method OnAddIntern(t: TableId, other: Option<TableId>, row: nat, count: nat, diff: Diff, sparse: bool, emplace: Id)
      requires Valid() && HasRows(Abs(), t, row, count)
      modifies this`trace, this`records, this`members, sets
      ensures Valid() && Abs() == Added(old(Abs()), t, other, row, count, diff, sparse, emplace)
    {
      var flags := diff.addedFlags;
      if flags == {} {
        return;
      }
      if EdgeReparent in flags {
        OnReparent(t, other, row, count);
      }
      if sparse && HasSparse in flags {
        var isNew := SparseOnAdd(t, row, count, diff.added, emplace);
        if isNew {
          flags := flags + {HasOnAdd};
        }
      }
      if HasOnAdd in flags || HasTraversable in flags {
        Emits(OnAdd, diff.added, t, other, row, count);
      }
    }

    /** `flecs_actions_on_remove_intern` */
    method OnRemoveIntern(t: TableId, other: Option<TableId>, row: nat, count: nat, removed: seq<Id>, diffFlags: set<TableFlag>)
      requires Valid() && HasRows(Abs(), t, row, count) && NoWildcards(comps, removed) && diffFlags != {}
      modifies this`trace, this`members, sets
      ensures Valid() && Abs() == Removed(old(Abs()), t, other, row, count, removed, diffFlags)
    {
      var flags := TestedFlags(t, row, count, removed, diffFlags);
      if HasOnRemove in flags {
        Emits(OnRemove, removed, t, other, row, count);
      }
      if HasSparse in flags {
        SparseOnRemove(t, row, count, removed);
      }
    }

    /** The flags of a diff, with OnRemove if some DontFragment instance is about to go. */
    method TestedFlags(t: TableId, row: nat, count: nat, removed: seq<Id>, diffFlags: set<TableFlag>)
      returns (flags: set<TableFlag>)
      requires Valid() && HasRows(Abs(), t, row, count) && NoWildcards(comps, removed)
      ensures flags - {HasOnRemove} == diffFlags - {HasOnRemove}
      ensures HasSparse in flags <==> HasSparse in diffFlags
      ensures HasOnRemove in flags <==>
              HasOnRemove in diffFlags
              || (HasDontFragment in diffFlags && AnyStored(Abs(), removed, Rows(Abs(), t, row, count)))
    {
      flags := diffFlags;
      if HasDontFragment in flags {
        var stored := DontFragmentOnRemove(t, row, count, removed);
        if stored {
          flags := flags + {HasOnRemove};
        }
      }
    }

    /** `flecs_actions_on_remove_intern_w_reparent` */
    method OnRemoveInternWithParent(t: TableId, other: Option<TableId>, row: nat, count: nat, diff: Diff, fini: bool)
      requires Valid() && HasRows(Abs(), t, row, count) && NoWildcards(comps, diff.removed)
      modifies this`trace, this`members, sets
      ensures Valid() && Abs() == RemovedWithParent(old(Abs()), t, other, row, count, diff, fini)
    {
      if !fini && HasBuiltins in tables[t].flags {
        return;
      }
      var flags := diff.removedFlags;
      if flags == {} {
        return;
      }
      if EdgeReparent in flags || HasOrderedChildren in flags {
        if !(other.Some? && other.value in tables && HasChildOf in tables[other.value].flags) {
          OnUnparent(t, other, row, count, flags);
        }
      }
      OnRemoveIntern(t, other, row, count, diff.removed, flags);
    }

    method Invalidate(t: TableId, row: nat, count: nat)
      requires Valid() && t in tables
      modifies this`trace
      ensures Valid() && Abs() == Invalidated(old(Abs()), t, row, count)
    {
      if HasTraversable in tables[t].flags {
        Tells(PropagateInvalidate, t, None, row, count);
      }
    }

    /** `flecs_actions_new` */
    method ActionsNew(t: TableId, row: nat, count: nat, diff: Diff, sparse: bool, emplace: Id)
      requires Valid() && HasRows(Abs(), t, row, count)
      modifies this`trace, this`records, this`members, sets
      ensures Valid() && Abs() == New(old(Abs()), t, row, count, diff, sparse, emplace)
    {
      OnAddIntern(t, None, row, count, diff, sparse, emplace);
    }

    /** `flecs_actions_delete_tree` */
    method ActionsDeleteTree(t: TableId, row: nat, count: nat, diff: Diff)
      requires Valid() && HasRows(Abs(), t, row, count) && NoWildcards(comps, diff.removed)
      modifies this`trace, this`members, sets
      ensures Valid() && Abs() == DeleteTree(old(Abs()), t, row, count, diff)
    {
      if diff.removed != [] {
        var flags := diff.removedFlags;
        if flags == {} {
          return;
        }
        Invalidate(t, row, count);
        OnRemoveIntern(t, None, row, count, diff.removed, flags);
      }
    }

    /** `flecs_actions_move_add` */
    method ActionsMoveAdd(t: TableId, other: Option<TableId>, row: nat, count: nat, diff: Diff, sparse: bool,
                          emplace: Id, updateParents: bool)
      requires Valid() && HasRows(Abs(), t, row, count)
      modifies this`trace, this`records, this`members, sets
      ensures Valid() && Abs() == MoveAdd(old(Abs()), t, other, row, count, diff, sparse, emplace, updateParents)
    {
      if diff.added != [] {
        Invalidate(t, row, count);
        if updateParents && HasParent in tables[t].flags {
          Tells(ChildMoveAdd, t, other, row, count);
        }
        OnAddIntern(t, other, row, count, diff, sparse, emplace);
      }
    }

    /** `flecs_actions_move_remove` */
    method ActionsMoveRemove(t: TableId, other: Option<TableId>, row: nat, count: nat, diff: Diff, fini: bool)
      requires Valid() && HasRows(Abs(), t, row, count) && NoWildcards(comps, diff.removed) && count != 0
      modifies this`trace, this`members, sets
      ensures Valid() && Abs() == MoveRemove(old(Abs()), t, other, row, count, diff, fini)
    {
      if diff.removed != [] {
        Invalidate(t, row, count);
        if HasParent in tables[t].flags {
          var updateParents := true;
          if diff.added != [] && other.Some? && other.value in tables && HasParent in tables[other.value].flags {
            updateParents := false;
          }
          Tells(ChildMoveRemove(updateParents), t, other, row, count);
        }
        OnRemoveInternWithParent(t, other, row, count, diff, fini);
      }
    }

    /** `flecs_notify_on_set_ids` */
    method NotifyOnSetIds(t: TableId, row: nat, count: nat, ids: seq<Id>)
      requires Valid() && HasRows(Abs(), t, row, count) && Settable(comps, ids)
      modifies this`trace
      ensures Valid() && Abs() == NotifyIds(old(Abs()), t, row, count, ids)
    {
      ghost var s, es := Abs(), Rows(Abs(), t, row, count);
      var dontFragment := OnSetHooks(t, row, count, ids);
      LogTwice(s, SetHooksOf(s, ids, es), SetEvent(s, t, row, es, ids));
      if (dontFragment || HasOnSet in tables[t].flags) && ids != [] {
        Emits(OnSet, ids, t, None, row, count);
      }
    }

    method OnSetHooks(t: TableId, row: nat, count: nat, ids: seq<Id>) returns (dontFragment: bool)
      requires Valid() && HasRows(Abs(), t, row, count) && forall id :: id in ids ==> id in comps
      modifies this`trace
      ensures Valid() && Abs() == Log(old(Abs()), SetHooksOf(old(Abs()), ids, Rows(old(Abs()), t, row, count)))
      ensures dontFragment <==> AnyDontFragment(old(Abs()), ids)
    {
      dontFragment := false;
      ghost var s, es := Abs(), Rows(Abs(), t, row, count);
      for i := 0 to |ids|
        invariant Valid() && Abs() == Log(s, SetHooksOf(s, ids[..i], es))
        invariant dontFragment <==> AnyDontFragment(s, ids[..i])
      {
        SetHooksStep(s, ids, i, es);
        LogTwice(s, SetHooksOf(s, ids[..i], es), SetHooks(s, ids[i], es));
        dontFragment := dontFragment || comps[ids[i]].dontFragment;
        OnSetHook(t, row, count, ids[i]);
      }
      assert ids[..|ids|] == ids;
    }

    /** The on_set hook of one id: once per row for a sparse component, once for all rows of a column. */
    method OnSetHook(t: TableId, row: nat, count: nat, id: Id)
      requires Valid() && HasRows(Abs(), t, row, count) && id in comps
      modifies this`trace
      ensures Valid() && Abs() == Log(old(Abs()), SetHooks(old(Abs()), id, Rows(old(Abs()), t, row, count)))
    {
      if !comps[id].onSet {
        return;
      }
      var es := tables[t].entities[row..row + count];
      if comps[id].sparse {
        ghost var s, hooks := Abs(), SetHooks(Abs(), id, es);
        for j := 0 to count
          invariant Valid() && Abs() == Log(s, hooks[..j])
        {
          LogNext(s, hooks, j);
          Append([Hook(OnSet, id, [es[j]])]);
        }
        assert hooks[..count] == hooks;
      } else {
        Append([Hook(OnSet, id, es)]);
      }
    }

    /** `flecs_notify_on_set` */
    method NotifyOnSet(t: TableId, row: nat, id: Id, invokeHook: bool)
      requires Valid() && HasRows(Abs(), t, row, 1) && Settable(comps, [id])
      modifies this`trace
      ensures Valid() && Abs() == NotifyOne(old(Abs()), t, row, id, invokeHook)
    {
      assert id in [id];
      ghost var s, es := Abs(), Rows(Abs(), t, row, 1);
      ghost var hooks := if invokeHook then SetHooks(s, id, es) else [];
      if invokeHook {
        OnSetHook(t, row, 1, id);
      }
      NotifyOneSplits(s, t, row, id, invokeHook, hooks);
      OnSetEvent(t, row, id);
    }

    /** The OnSet event of one id. */
    method OnSetEvent(t: TableId, row: nat, id: Id)
      requires Valid() && HasRows(Abs(), t, row, 1) && id in comps
      modifies this`trace
      ensures Valid() && Abs() == Log(old(Abs()), SetEvent(old(Abs()), t, row, Rows(old(Abs()), t, row, 1), [id]))
    {
      assert id in [id];
      if comps[id].dontFragment || HasOnSet in tables[t].flags {
        Emits(OnSet, [id], t, None, row, 1);
      }
    }
  }
}
