/** What the actions do to entity records and component records, action by action and over whole runs. */
module RecordWords {
  import opened ActionModel
  import opened ActionEffects
  import opened Clearing
  import opened Runs
  import opened HelperOrder
  import opened Hearing
  import opened Events
  import Encoding

  // ----- storage

  /** The members of a sparse set after an action. */
  ghost function MembersAfter(s: State, a: Action, id: Id): (m: set<Entity>)
    requires Allowed(s, a)
  {
    if Adds(a) then
      if a.sparse && HasSparse in a.diff.addedFlags && id in a.diff.added && IsSparse(s, id)
      then Members(s, id) + ToSet(Rows(s, a.t, a.row, a.count))
      else Members(s, id)
    else if Removes(s, a) then
      if HasSparse in a.diff.removedFlags && id in a.diff.removed && IsSparse(s, id)
      then Members(s, id) - ToSet(Rows(s, a.t, a.row, a.count))
      else Members(s, id)
    else if a.DoClear? && a.e in s.records && id in s.list && id in s.comps && !s.comps[id].wildcard
    then Members(s, id) - {a.e}
    else Members(s, id)
  }

  /** `r` has those members, and component records, tables and the list as in `s`. */
  ghost predicate StorageAfter(s: State, a: Action, r: State)
    requires Allowed(s, a)
  {
    && r.comps == s.comps && r.list == s.list && r.tables == s.tables
    && forall id :: Members(r, id) == MembersAfter(s, a, id)
  }

  lemma AddStorage(s: State, a: Action)
    requires Allowed(s, a) && Adds(a)
    ensures StorageAfter(s, a, Core(s, a))
  {
    StockedExactly(s, a.t, OtherTable(a), a.row, a.count, a.diff, a.sparse, a.emplace);
  }

  lemma RemoveStorage(s: State, a: Action)
    requires Allowed(s, a) && Removes(s, a)
    ensures StorageAfter(s, a, Core(s, a))
  {
    RemovedExactly(s, a.t, OtherTable(a), a.row, a.count, a.diff.removed, a.diff.removedFlags);
  }

  lemma ClearStorageAfter(s: State, a: Action)
    requires Inv(s) && Allowed(s, a) && a.DoClear?
    ensures StorageAfter(s, a, Core(s, a))
  {
    if a.e in s.records {
      ClearStorage(s, a.e);
      ClearRecords(s, a.e);
    }
  }

  lemma CoreStorage(s: State, a: Action)
    requires Inv(s) && Allowed(s, a) && !a.DoRegister? && !a.DoPlace?
    ensures StorageAfter(s, a, Core(s, a))
  {
    if Adds(a) {
      AddStorage(s, a);
    } else if Removes(s, a) {
      RemoveStorage(s, a);
    } else if a.DoClear? {
      ClearStorageAfter(s, a);
    }
  }

  /** Every action leaves each sparse set with exactly these members, and component records, tables and the
      list as they were. */
  lemma ActionStorage(s: State, a: Action)
    requires Inv(s) && Allowed(s, a) && !a.DoRegister? && !a.DoPlace?
    ensures StorageAfter(s, a, Apply(s, a))
  {
    var told := Prelude(s, a);
    var s1 := Log(s, told);
    PreludeRanked(s, a);
    InvLogs(s, told);
    ActionSplits(s, a);
    CoreStorage(s1, a);
    forall id ensures MembersAfter(s1, a, id) == MembersAfter(s, a, id) {
      SameMembersAfter(s, told, a, id);
    }
  }

  lemma SameMembersAfter(s: State, items: seq<Item>, a: Action, id: Id)
    requires Allowed(s, a) && Allowed(Log(s, items), a)
    ensures MembersAfter(Log(s, items), a, id) == MembersAfter(s, a, id)
  {}

  // ----- record words

  /** A record keeps its table, its row and every bit of its word but the DontFragment bit. */
  ghost predicate RecordKept(was: Record, r: Record) {
    && r.table == was.table && Encoding.RecordToRow(r.word) == Encoding.RecordToRow(was.word)
    && Encoding.SameOtherBits(was.word, r.word)
  }

  ghost predicate RecordsKept(s: State, r: State) {
    r.records.Keys == s.records.Keys && forall e :: e in s.records ==> RecordKept(s.records[e], r.records[e])
  }

  lemma RecordsKeptThen(s: State, a: State, r: State)
    requires RecordsKept(s, a) && RecordsKept(a, r)
    ensures RecordsKept(s, r)
  {
    forall e | e in s.records ensures RecordKept(s.records[e], r.records[e]) {
      assert RecordKept(s.records[e], a.records[e]) && RecordKept(a.records[e], r.records[e]);
    }
  }

  /** Whether an entity has the DontFragment bit after an action. */
  ghost predicate MarkedAfter(s: State, a: Action, e: Entity)
    requires Allowed(s, a)
  {
    if a == DoClear(e) then false
    else if Adds(a) && a.sparse && HasSparse in a.diff.addedFlags && e in Rows(s, a.t, a.row, a.count)
    then Marked(s, e) || exists id :: id in a.diff.added && IsSparse(s, id) && IsDontFragment(s, id) && e !in Members(s, id)
    else Marked(s, e)
  }

  lemma MarkedNewKeeps(s: State, r: State, ids: seq<Id>, es: seq<Entity>)
    requires Extends(s, r) && MarkedNew(s, r, ids, es)
    ensures RecordsKept(s, r)
    ensures forall e :: e in s.records ==>
              (Marked(r, e) <==> Marked(s, e) || (e in es && exists id :: id in ids && NewFor(s, id, e)))
  {
    forall e | e in s.records
      ensures RecordKept(s.records[e], r.records[e])
      ensures Marked(r, e) <==> Marked(s, e) || (e in es && exists id :: id in ids && NewFor(s, id, e))
    {
      assert MarkedAt(s, r, ids, es, e);
      Encoding.DontFragmentWrites(s.records[e].word);
    }
  }

  lemma LacksIsNew(s: State, ids: seq<Id>, e: Entity)
    ensures (exists id :: id in ids && NewFor(s, id, e)) <==>
            exists id :: id in ids && IsSparse(s, id) && IsDontFragment(s, id) && e !in Members(s, id)
  {
    if id :| id in ids && NewFor(s, id, e) {
      assert IsSparse(s, id);
    }
    if id :| id in ids && IsSparse(s, id) && IsDontFragment(s, id) && e !in Members(s, id) {
      assert NewFor(s, id, e);
    }
  }

  lemma AddedWords(s: State, a: Action)
    requires Allowed(s, a) && Adds(a)
    ensures RecordsKept(s, Core(s, a))
    ensures forall e :: e in s.records ==> (Marked(Core(s, a), e) <==> MarkedAfter(s, a, e))
  {
    var es, r := Rows(s, a.t, a.row, a.count), Core(s, a);
    StockedExactly(s, a.t, OtherTable(a), a.row, a.count, a.diff, a.sparse, a.emplace);
    if a.sparse && HasSparse in a.diff.addedFlags {
      MarkedNewKeeps(s, r, a.diff.added, es);
      forall e | e in s.records ensures Marked(r, e) <==> MarkedAfter(s, a, e) {
        MarkedWhenAdded(s, a, e);
      }
    }
  }

  lemma MarkedWhenAdded(s: State, a: Action, e: Entity)
    requires Allowed(s, a) && Adds(a) && a.sparse && HasSparse in a.diff.addedFlags
    ensures MarkedAfter(s, a, e) <==>
            Marked(s, e) || (e in Rows(s, a.t, a.row, a.count) && exists id :: id in a.diff.added && NewFor(s, id, e))
  {
    LacksIsNew(s, a.diff.added, e);
  }

  lemma ClearedWords(s: State, a: Action)
    requires Allowed(s, a) && a.DoClear?
    ensures RecordsKept(s, Core(s, a))
    ensures forall e :: e in s.records ==> (Marked(Core(s, a), e) <==> MarkedAfter(s, a, e))
  {
    if a.e in s.records {
      ClearRecords(s, a.e);
    }
  }

  lemma CoreWords(s: State, a: Action)
    requires Allowed(s, a) && !a.DoPlace?
    ensures RecordsKept(s, Core(s, a))
    ensures forall e :: e in s.records ==> (Marked(Core(s, a), e) <==> MarkedAfter(s, a, e))
  {
    if Adds(a) {
      AddedWords(s, a);
    } else if Removes(s, a) {
      RemovedExactly(s, a.t, OtherTable(a), a.row, a.count, a.diff.removed, a.diff.removedFlags);
    } else if a.DoClear? {
      ClearedWords(s, a);
    }
  }

  /** Every action, on every entity's record: table, row and the other flags stay; and the DontFragment bit is
      exactly what it should be. */
  lemma ActionKeepsWords(s: State, a: Action)
    requires Allowed(s, a) && !a.DoPlace?
    ensures RecordsKept(s, Apply(s, a))
    ensures forall e :: e in s.records ==> (Marked(Apply(s, a), e) <==> MarkedAfter(s, a, e))
  {
    var told := Prelude(s, a);
    ActionSplits(s, a);
    CoreWords(Log(s, told), a);
    forall e | e in s.records ensures Marked(Apply(s, a), e) <==> MarkedAfter(s, a, e) {
      SameMarkedAfter(s, told, a, e);
    }
  }

  lemma SameMarkedAfter(s: State, items: seq<Item>, a: Action, e: Entity)
    requires Allowed(s, a) && Allowed(Log(s, items), a)
    ensures MarkedAfter(Log(s, items), a, e) <==> MarkedAfter(s, a, e)
  {
    SameView(s, Log(s, items));
  }

  /** Over any part of a run in which nobody is placed elsewhere, all rows and all other flags stay. */
  lemma {:induction false} RunKeepsWords(states: seq<State>, actions: seq<Action>, i: nat, j: nat)
    requires IsRun(states, actions) && i <= j <= |actions|
    requires forall k :: i <= k < j ==> !actions[k].DoPlace?
    ensures RecordsKept(states[i], states[j])
    decreases j
  {
    if i < j {
      RunKeepsWords(states, actions, i, j - 1);
      assert Steps(states, actions, j - 1);
      ActionKeepsWords(states[j - 1], actions[j - 1]);
      RecordsKeptThen(states[i], states[j - 1], states[j]);
    }
  }

  // ----- component records

  /** The DontFragment ids that the actions register, the newest first. */
  function NewestFirst(actions: seq<Action>): (ids: seq<Id>) {
    if actions == [] then []
    else
      var a, older := actions[|actions| - 1], NewestFirst(actions[..|actions| - 1]);
      if a.DoRegister? && a.c.dontFragment then [a.id] + older else older
  }

  /** What registering does: the record is the given one, others stay, and a DontFragment one comes before
      all older ones in the list. */
  lemma RegisteredFirst(s: State, id: Id, c: Comp)
    ensures var r := Registered(s, id, c);
            && id in r.comps && r.comps[id] == c && (forall x :: x != id ==> (x in r.comps <==> x in s.comps))
            && (forall x :: x != id && x in s.comps ==> r.comps[x] == s.comps[x])
            && (if c.dontFragment then |r.list| == |s.list| + 1 && r.list[0] == id && r.list[1..] == s.list
                else r.list == s.list)
            && r.tables == s.tables && r.records == s.records && r.trace == s.trace
  {}

  /** The component records are exactly those registered. */
  ghost predicate AllRegistered(actions: seq<Action>, comps: map<Id, Comp>) {
    forall id, c :: (id in comps && comps[id] == c) <==> DoRegister(id, c) in actions
  }

  /** In every run the list holds the DontFragment ids in reverse order of registration, and the component
      records are exactly those registered. */
  lemma {:induction false} ListInReverse(actions: seq<Action>, r: State)
    requires Reaches(actions, r)
    ensures r.list == NewestFirst(actions) && AllRegistered(actions, r.comps)
  {
    if actions != [] {
      var last := |actions| - 1;
      var older, a := actions[..last], actions[last];
      var s :| Reaches(older, s) && Allowed(s, a) && r == Apply(s, a);
      ListInReverse(older, s);
      assert r.list == (if a.DoRegister? && a.c.dontFragment then [a.id] + s.list else s.list)
          && r.comps == (if a.DoRegister? then s.comps[a.id := a.c] else s.comps) by {
        RunsKeepInvariant(older, s);
        StepRegisters(s, a);
      }
      assert AllRegistered(actions, r.comps) by {
        assert actions == older + [a];
        if a.DoRegister? {
          OneMoreRegistered(older, a, s.comps);
        } else {
          NoMoreRegistered(older, a, s.comps);
        }
      }
    }
  }

  /** Only registering changes component records and the list. */
  lemma StepRegisters(s: State, a: Action)
    requires Inv(s) && Allowed(s, a)
    ensures var r := Apply(s, a);
            && r.list == (if a.DoRegister? && a.c.dontFragment then [a.id] + s.list else s.list)
            && r.comps == (if a.DoRegister? then s.comps[a.id := a.c] else s.comps)
  {
    if !a.DoRegister? && !a.DoPlace? {
      ActionStorage(s, a);
    }
  }

  lemma OneMoreRegistered(actions: seq<Action>, a: Action, comps: map<Id, Comp>)
    requires a.DoRegister? && a.id !in comps && AllRegistered(actions, comps)
    ensures AllRegistered(actions + [a], comps[a.id := a.c])
  {
    forall id, c ensures (id in comps[a.id := a.c] && comps[a.id := a.c][id] == c) <==> DoRegister(id, c) in actions + [a] {
      assert DoRegister(id, c) in actions + [a] <==> DoRegister(id, c) in actions || DoRegister(id, c) == a;
    }
  }

  lemma NoMoreRegistered(actions: seq<Action>, a: Action, comps: map<Id, Comp>)
    requires !a.DoRegister? && AllRegistered(actions, comps)
    ensures AllRegistered(actions + [a], comps)
  {
    forall id, c ensures (id in comps && comps[id] == c) <==> DoRegister(id, c) in actions + [a] {
      assert DoRegister(id, c) in actions + [a] <==> DoRegister(id, c) in actions || DoRegister(id, c) == a;
    }
  }

  /** So clearing an entity tells of its components in reverse order of their registration. */
  lemma ClearedInReverse(actions: seq<Action>, s: State, e: Entity)
    requires Reaches(actions, s) && e in s.records
    ensures EventsOf(s, DoClear(e)) == ClearEvents(s, NewestFirst(actions), e)
    ensures EmitsOf(Clear(s, e).trace) == EmitsOf(s.trace) + ClearEvents(s, NewestFirst(actions), e)
  {
    RunsKeepInvariant(actions, s);
    ListInReverse(actions, s);
    EventsExactly(s, DoClear(e));
  }
}
