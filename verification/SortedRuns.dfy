/** Sorting a table between two actions of a run. */
module SortedRuns {
  import opened ActionModel
  import opened Runs
  import opened Worlds
  import opened Engine
  import TableSort
  import SparseSets
  import Encoding

  function Words(records: map<Entity, Record>): (w: map<nat, nat>) {
    map e | e in records :: records[e].word
  }

  function WithWords(records: map<Entity, Record>, words: map<nat, nat>): (r: map<Entity, Record>)
    requires records.Keys == words.Keys
  {
    map e | e in records :: Record(records[e].table, words[e])
  }

  function Entities<V>(rows: seq<TableSort.Row<V>>): (es: seq<Entity>) {
    seq(|rows|, k requires 0 <= k < |rows| => rows[k].entity)
  }

  /** What sorting rows `lo..hi` of table `t` guarantees of the rows and record words. */
  ghost predicate TableSorted<V(!new)>(s: State, t: TableId, was: seq<TableSort.Row<V>>, rows: seq<TableSort.Row<V>>,
                                       lo: nat, hi: int, words: map<nat, nat>)
  {
    && t in s.tables && Entities(was) == s.tables[t].entities
    && TableSort.Rearranged(was, rows, lo, hi)
    && (var population := set e | e in s.tables[t].entities;
        && TableSort.Recorded(population, rows, words)
        && TableSort.FlagsKept(population, Words(s.records), words))
  }

  /** The state once the table is sorted. */
  function AfterSort<V>(s: State, t: TableId, rows: seq<TableSort.Row<V>>, words: map<nat, nat>): (r: State)
    requires t in s.tables && words.Keys == s.records.Keys
  {
    s.(tables := s.tables[t := s.tables[t].(entities := Entities(rows))], records := WithWords(s.records, words))
  }

  /** A row of the table, before or after sorting, is in it after or before. */
  lemma SamePeople<V(!new)>(was: seq<TableSort.Row<V>>, rows: seq<TableSort.Row<V>>, lo: nat, hi: int, k: nat) returns (m: nat)
    requires TableSort.Rearranged(was, rows, lo, hi) && k < |rows|
    ensures m < |was| && was[m] == rows[k]
  {
    if lo <= k <= hi {
      m := TableSort.RearrangedFrom(was, rows, lo, hi, k);
    } else {
      m := k;
    }
  }

  /** The record of an entity holds its new place. */
  lemma RecordFollows<V(!new)>(s: State, t: TableId, was: seq<TableSort.Row<V>>, rows: seq<TableSort.Row<V>>,
                               lo: nat, hi: int, words: map<nat, nat>, e: Entity)
    requires Agree(s.tables, s.records) && TableSorted(s, t, was, rows, lo, hi, words) && e in s.records
    ensures var r := AfterSort(s, t, rows, words); RecordAgrees(r.tables, r.records, e)
  {
    assert RecordAgrees(s.tables, s.records, e);
    if s.records[e].table == t {
      var k := Encoding.RecordToRow(s.records[e].word);
      assert was[k].entity == Entities(was)[k] == e;
      var m := SamePeople(rows, was, lo, hi, k);
      assert rows[m].entity == e;
    } else {
      NotInTable(s, t, e);
    }
  }

  /** An entity whose record names another table is not in this one. */
  lemma NotInTable(s: State, t: TableId, e: Entity)
    requires Agree(s.tables, s.records) && t in s.tables && e in s.records && s.records[e].table != t
    ensures e !in s.tables[t].entities
  {}

  /** The entity at a row of a table has a record of that row. */
  lemma RowFollows<V(!new)>(s: State, t: TableId, was: seq<TableSort.Row<V>>, rows: seq<TableSort.Row<V>>,
                            lo: nat, hi: int, words: map<nat, nat>, u: TableId, k: nat)
    requires Agree(s.tables, s.records) && TableSorted(s, t, was, rows, lo, hi, words)
    requires u in s.tables && k < |AfterSort(s, t, rows, words).tables[u].entities|
    ensures var r := AfterSort(s, t, rows, words);
            var e := r.tables[u].entities[k];
            e in r.records && r.records[e].table == u && Encoding.RecordToRow(r.records[e].word) == k
  {
    if u == t {
      var m := SamePeople(was, rows, lo, hi, k);
      assert Entities(was)[m] == rows[k].entity;
    } else {
      NotInTable(s, t, s.tables[u].entities[k]);
    }
  }

  lemma SortedAgrees<V(!new)>(s: State, t: TableId, was: seq<TableSort.Row<V>>, rows: seq<TableSort.Row<V>>,
                              lo: nat, hi: int, words: map<nat, nat>)
    requires Agree(s.tables, s.records) && TableSorted(s, t, was, rows, lo, hi, words)
    ensures var r := AfterSort(s, t, rows, words); Agree(r.tables, r.records)
  {
    var r := AfterSort(s, t, rows, words);
    forall e | e in r.records ensures RecordAgrees(r.tables, r.records, e) {
      RecordFollows(s, t, was, rows, lo, hi, words, e);
    }
    forall u, k | u in r.tables && 0 <= k < |r.tables[u].entities|
      ensures var e := r.tables[u].entities[k];
              e in r.records && r.records[e].table == u && Encoding.RecordToRow(r.records[e].word) == k
    {
      RowFollows(s, t, was, rows, lo, hi, words, u, k);
    }
  }

  /** Sorting a table is a step of the run: records and tables agree afterwards and every
      DontFragment bit is where it was, so the run invariant holds on. */
  lemma SortingKeepsInvariant<V(!new)>(s: State, t: TableId, was: seq<TableSort.Row<V>>, rows: seq<TableSort.Row<V>>,
                                       lo: nat, hi: int, words: map<nat, nat>)
    requires Inv(s) && TableSorted(s, t, was, rows, lo, hi, words)
    ensures var r := AfterSort(s, t, rows, words);
            Allowed(s, DoPlace(r.tables, r.records)) && Apply(s, DoPlace(r.tables, r.records)) == r && Inv(r)
  {
    var r := AfterSort(s, t, rows, words);
    SortedAgrees(s, t, was, rows, lo, hi, words);
    forall e | e in s.records
      ensures Encoding.HasDontFragment(r.records[e].word) <==> Encoding.HasDontFragment(s.records[e].word)
    {
      Encoding.FlagsDecideDontFragment(words[e], Words(s.records)[e]);
    }
    forall id, e | e in Members(s, id) ensures e in r.records {
      assert Known(s, id, e);
    }
    InvApply(s, DoPlace(r.tables, r.records));
  }

  /** The entities and record words of a sorted table object are again those of a world. */
  lemma SortedPlaced<V(!new)>(s: State, t: TableId, was: seq<TableSort.Row<V>>, rows: seq<TableSort.Row<V>>,
                              lo: nat, hi: int, words: map<nat, nat>)
    requires Placed(s.tables, s.records) && TableSorted(s, t, was, rows, lo, hi, words)
    ensures Placed(AfterSort(s, t, rows, words).tables, s.records)
  {
    var r := AfterSort(s, t, rows, words);
    forall u, k | u in r.tables && 0 <= k < |r.tables[u].entities|
      ensures r.tables[u].entities[k] in s.records && r.tables[u].entities[k] < SparseSets.INDEX_LIMIT
    {
      if u == t {
        var m := SamePeople(was, rows, lo, hi, k);
        assert s.tables[t].entities[m] == Entities(was)[m] == rows[k].entity;
      } else {
        assert s.tables[u].entities[k] in s.records;
      }
    }
  }

  /** Sorting a table of a world that a run has reached: the world has the sorted rows and the new
      record words afterwards, and the run goes on by one step. */
  method SortBetweenActions<V(0, !new)>(w: World, t: TableId, table: TableSort.TableRows<V>, f: TableSort.Compare<V>,
                                        lo: nat, hi: int, ghost actions: seq<Action>)
    requires w.Valid() && Reaches(actions, w.Abs()) && t in w.tables
    requires table.Valid() && Entities(table.rows) == w.tables[t].entities && table.records == Words(w.records)
    requires table.population == set e | e in w.tables[t].entities
    requires TableSort.TotalPreorder(f) && lo <= hi + 1 <= |table.rows|
    modifies w`tables, w`records, table, table.entities, table.values
    ensures table.Valid() && TableSort.SortedFrom(f, old(table.rows), table.rows, lo, hi)
    ensures table.records.Keys == old(w.records).Keys
    ensures w.Valid() && w.Abs() == AfterSort(old(w.Abs()), t, table.rows, table.records)
    ensures Reaches(actions + [DoPlace(w.tables, w.records)], w.Abs()) && Inv(w.Abs())
  {
    ghost var s, was := w.Abs(), table.rows;
    var entities := SortRows(table, f, lo, hi, s, t);
    SortedStep(actions, s, t, was, table.rows, lo, hi, table.records);
    Replace(w, t, entities, table.records);
  }

  /** Sorts the table object of table `t`. */
  method SortRows<V(0, !new)>(table: TableSort.TableRows<V>, f: TableSort.Compare<V>, lo: nat, hi: int,
                              ghost s: State, ghost t: TableId) returns (entities: seq<Entity>)
    requires t in s.tables && table.Valid() && Entities(table.rows) == s.tables[t].entities
    requires table.records == Words(s.records) && table.population == set e | e in s.tables[t].entities
    requires TableSort.TotalPreorder(f) && lo <= hi + 1 <= |table.rows|
    modifies table, table.entities, table.values
    ensures table.Valid() && TableSort.SortedFrom(f, old(table.rows), table.rows, lo, hi)
    ensures TableSorted(s, t, old(table.rows), table.rows, lo, hi, table.records) && entities == Entities(table.rows)
  {
    table.Sort(f, lo, hi);
    entities := table.entities[..];
    assert entities == Entities(table.rows);
  }

  /** Gives a table and the records new contents. */
  method Replace(w: World, t: TableId, entities: seq<Entity>, words: map<nat, nat>)
    requires w.Valid() && t in w.tables && words.Keys == w.records.Keys
    requires Placed(w.tables[t := w.tables[t].(entities := entities)], w.records)
    modifies w`tables, w`records
    ensures w.Valid()
    ensures w.Abs() == old(w.Abs()).(tables := old(w.tables)[t := old(w.tables)[t].(entities := entities)],
                                     records := WithWords(old(w.records), words))
  {
    w.tables := w.tables[t := w.tables[t].(entities := entities)];
    w.records := WithWords(w.records, words);
  }

  lemma SortedStep<V(!new)>(actions: seq<Action>, s: State, t: TableId, was: seq<TableSort.Row<V>>,
                            rows: seq<TableSort.Row<V>>, lo: nat, hi: int, words: map<nat, nat>)
    requires Reaches(actions, s) && Placed(s.tables, s.records) && TableSorted(s, t, was, rows, lo, hi, words)
    ensures var r := AfterSort(s, t, rows, words);
            && Placed(r.tables, s.records) && Inv(r)
            && Reaches(actions + [DoPlace(r.tables, r.records)], r)
  {
    RunsKeepInvariant(actions, s);
    SortingKeepsInvariant(s, t, was, rows, lo, hi, words);
    SortedPlaced(s, t, was, rows, lo, hi, words);
    var r := AfterSort(s, t, rows, words);
    NextReached(actions, s, DoPlace(r.tables, r.records));
  }
}
