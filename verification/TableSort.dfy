/** Sorting a table in place: a Hoare partition whose pivot is a pointer into the rows being
    exchanged, and the quicksort over it. */
module TableSort {
  import opened Encoding

  /** One table row: the entity and the component value it sorts by. */
  datatype Row<V> = Row(entity: nat, value: V)

  type Compare<!V(!new)> = (nat, V, nat, V) -> int

  function Cmp<V(!new)>(f: Compare<V>, a: Row<V>, b: Row<V>): (c: int) {
    f(a.entity, a.value, b.entity, b.value)
  }

  /** The comparator orders rows by sign: reversing the arguments reverses the sign, and
      "not after" is transitive. */
  ghost predicate TotalPreorder<V(!new)>(f: Compare<V>) {
    && (forall a, b :: Cmp(f, a, b) <= 0 <==> Cmp(f, b, a) >= 0)
    && (forall a, b, c :: Through(f, a, b, c) ==> Cmp(f, a, c) <= 0)
  }

  /** `a` is not after `b`, nor `b` after `c`. */
  ghost predicate Through<V(!new)>(f: Compare<V>, a: Row<V>, b: Row<V>, c: Row<V>) {
    Cmp(f, a, b) <= 0 && Cmp(f, b, c) <= 0
  }

  lemma PreorderReflexive<V(!new)>(f: Compare<V>)
    requires TotalPreorder(f)
    ensures Reflexive(f)
  {}

  /** Rows `lo..hi` are in order. */
  ghost predicate Ordered<V(!new)>(f: Compare<V>, rows: seq<Row<V>>, lo: int, hi: int) {
    0 <= lo && hi < |rows| && forall a, b :: lo <= a < b <= hi ==> Cmp(f, rows[a], rows[b]) <= 0
  }

  /** The comparator calls that sorting `n` rows may take. */
  function Budget(n: nat): (b: nat) {
    if n <= 1 then 0 else Budget(n - 1) + n + 2
  }

  /** The budget in closed form. */
  lemma {:induction false} BudgetValue(n: nat)
    requires n >= 1
    ensures 2 * Budget(n) == (n - 1) * (n + 6)
  {
    if n > 1 {
      BudgetValue(n - 1);
      assert (n - 1) * (n + 6) == (n - 2) * (n + 5) + 2 * (n + 2);
    }
  }

  lemma {:induction false} BudgetHalves(a: nat, b: nat)
    requires a >= 1 && b >= 1
    ensures a + b + 2 + Budget(a) + Budget(b) <= Budget(a + b)
  {
    if b > 1 {
      BudgetHalves(a, b - 1);
      assert a + b - 1 == a + (b - 1);
    }
  }

  /** One partition of rows `lo..hi` and sorting both parts fits the budget of all rows. */
  lemma BudgetSplit(lo: nat, p: int, hi: int, partition: int, left: int, right: int)
    requires lo <= p < hi
    requires partition <= hi - lo + 3 && left <= Budget(p - lo + 1) && right <= Budget(hi - (p + 1) + 1)
    ensures partition + left + right <= Budget(hi - lo + 1)
  {
    BudgetHalves(p - lo + 1, hi - p);
  }

  /** Rows `lo..hi` hold the same rows as before in some order; the others did not move. */
  ghost predicate Rearranged<V(!new)>(was: seq<Row<V>>, rows: seq<Row<V>>, lo: int, hi: int) {
    && 0 <= lo <= hi + 1 <= |was| == |rows|
    && multiset(rows[lo..hi + 1]) == multiset(was[lo..hi + 1])
    && forall k :: 0 <= k < |rows| && !(lo <= k <= hi) ==> rows[k] == was[k]
  }

  lemma FlagsKeptTwice(table: set<nat>, a: map<nat, nat>, b: map<nat, nat>, c: map<nat, nat>)
    requires FlagsKept(table, a, b) && FlagsKept(table, b, c)
    ensures FlagsKept(table, a, c)
  {}

  lemma ExchangeRearranges<V(!new)>(s: seq<Row<V>>, i: nat, j: nat, lo: nat, hi: nat)
    requires lo <= i < j <= hi < |s|
    ensures Rearranged(s, s[i := s[j]][j := s[i]], lo, hi)
  {
    var t := s[lo..hi + 1];
    assert s[i := s[j]][j := s[i]][lo..hi + 1] == t[i - lo := t[j - lo]][j - lo := t[i - lo]];
  }

  /** Every row's entity is of the table and has a record, and the record holds the row. */
  ghost predicate Recorded<V(!new)>(table: set<nat>, rows: seq<Row<V>>, records: map<nat, nat>) {
    forall k :: 0 <= k < |rows| ==>
      rows[k].entity in table && rows[k].entity in records && RecordToRow(records[rows[k].entity]) == k
  }

  /** The records once the entities at rows `i` and `j` changed places. */
  function SwappedRecords(records: map<nat, nat>, e1: nat, e2: nat, i: nat, j: nat): (r: map<nat, nat>)
    requires e1 in records && e2 in records
  {
    records[e1 := RowToRecord(j, RecordToRowFlags(records[e1]))]
           [e2 := RowToRecord(i, RecordToRowFlags(records[e2]))]
  }

  lemma SwapRecords<V(!new)>(table: set<nat>, rows: seq<Row<V>>, records: map<nat, nat>, i: nat, j: nat)
    requires Recorded(table, rows, records) && i < j < |rows| <= ROW_MASK + 1
    ensures var e1, e2 := rows[i].entity, rows[j].entity;
            && e1 in records && e2 in records
            && Recorded(table, rows[i := rows[j]][j := rows[i]], SwappedRecords(records, e1, e2, i, j))
            && FlagsKept(table, records, SwappedRecords(records, e1, e2, i, j))
  {
    RowWordRoundTrip(j, records[rows[i].entity]);
    RowWordRoundTrip(i, records[rows[j].entity]);
  }

  /** No record is lost and none of their flags changes; records of entities that are not in the
      table do not change at all. */
  ghost predicate FlagsKept(table: set<nat>, was: map<nat, nat>, records: map<nat, nat>) {
    && records.Keys == was.Keys
    && (forall e :: e in records ==> RecordToRowFlags(records[e]) == RecordToRowFlags(was[e]))
    && (forall e :: e in records && e !in table ==> records[e] == was[e])
  }

  ghost predicate NoneAfter<V(!new)>(f: Compare<V>, rows: seq<Row<V>>, lo: int, hi: int, pv: Row<V>) {
    0 <= lo && hi < |rows| && forall k :: lo <= k <= hi ==> Cmp(f, rows[k], pv) <= 0
  }

  ghost predicate NoneBefore<V(!new)>(f: Compare<V>, rows: seq<Row<V>>, lo: int, hi: int, pv: Row<V>) {
    0 <= lo && hi < |rows| && forall k :: lo <= k <= hi ==> Cmp(f, rows[k], pv) >= 0
  }

  ghost predicate Reflexive<V(!new)>(f: Compare<V>) {
    forall a :: Cmp(f, a, a) == 0
  }

  /** Between two exchanges: rows up to `i` and from `j` are on their side, and either both
      scans are yet to start or there is at least one row on each side. */
  ghost predicate Scanned<V(!new)>(f: Compare<V>, rows: seq<Row<V>>, lo: nat, hi: nat, i: int, j: int, pv: Row<V>) {
    && lo < hi < |rows| && lo - 1 <= i < j <= hi + 1
    && NoneAfter(f, rows, lo, i, pv) && NoneBefore(f, rows, j, hi, pv)
    && ((i == lo - 1 && j == hi + 1) || (lo <= i && j <= hi))
  }

  /** The pivot pointer denotes the row first chosen at `p`. It either still points there, with
      `p` between the scans, or it was moved once and neither `p` nor its row is met again. */
  ghost predicate PivotAt<V(!new)>(rows: seq<Row<V>>, lo: nat, hi: nat, i: int, j: int, p: int, pivot: int, pv: Row<V>) {
    && lo <= pivot <= hi < |rows| && rows[pivot] == pv && lo <= p < hi
    && ((pivot == p && i < p < j) || ((pivot <= i || j <= pivot) && (p <= i || j <= p)))
  }

  /** The scans went on from `i0` and `j0` and stopped at `i` and `j`. The left one stops at the
      latest at the first row of the right side, or at `p` if there is none yet; and so on. */
  ghost predicate Stopped<V(!new)>(f: Compare<V>, rows: seq<Row<V>>, lo: nat, hi: nat, p: int,
                                   i0: int, j0: int, i: int, j: int, pv: Row<V>)
  {
    && -1 <= i0 < i <= (if i0 == lo - 1 then p else j0) < |rows|
    && 0 <= (if i0 == lo - 1 then p else i0) <= j < j0 <= |rows|
    && Cmp(f, rows[i], pv) >= 0 && Cmp(f, rows[j], pv) <= 0
    && (forall a :: i0 < a < i ==> Cmp(f, rows[a], pv) < 0)
    && (forall b :: j < b < j0 ==> Cmp(f, rows[b], pv) > 0)
  }

  /** Rows `lo..j` are not after the pivot row, rows `j + 1..hi` not before it, and neither part
      is empty. */
  ghost predicate Met<V(!new)>(f: Compare<V>, rows: seq<Row<V>>, lo: nat, hi: nat, j: int, pv: Row<V>) {
    lo <= j < hi && NoneAfter(f, rows, lo, j, pv) && NoneBefore(f, rows, j + 1, hi, pv)
  }

  /** Scans that met stopped at the same row or at neighbours, and they split the rows. */
  lemma ScansMeet<V(!new)>(f: Compare<V>, rows: seq<Row<V>>, lo: nat, hi: nat, p: int, pivot: int,
                           i0: int, j0: int, i: int, j: int, pv: Row<V>)
    requires Scanned(f, rows, lo, hi, i0, j0, pv) && PivotAt(rows, lo, hi, i0, j0, p, pivot, pv)
    requires Stopped(f, rows, lo, hi, p, i0, j0, i, j, pv) && i >= j
    ensures i - j <= 1 && Met(f, rows, lo, hi, j, pv)
  {
    assert i0 < i - 1 ==> Cmp(f, rows[i - 1], pv) < 0;
  }

  /** Exchanging the rows where the scans stopped, and re-aiming a pivot pointer that was at one
      of them, puts both sides and the pivot pointer in order for the next scans. */
  lemma Exchanged<V(!new)>(f: Compare<V>, rows: seq<Row<V>>, rows': seq<Row<V>>, lo: nat, hi: nat, p: int,
                           pivot: int, pivot': int, i0: int, j0: int, i: int, j: int, pv: Row<V>)
    requires Scanned(f, rows, lo, hi, i0, j0, pv) && PivotAt(rows, lo, hi, i0, j0, p, pivot, pv)
    requires Stopped(f, rows, lo, hi, p, i0, j0, i, j, pv) && i < j
    requires rows' == rows[i := rows[j]][j := rows[i]]
    requires pivot' == if p == i then j else if p == j then i else pivot
    requires Cmp(f, pv, pv) == 0
    ensures Scanned(f, rows', lo, hi, i, j, pv) && PivotAt(rows', lo, hi, i, j, p, pivot', pv)
  {}

  /** A row of a rearranged range was in that range before. */
  lemma RearrangedFrom<V(!new)>(was: seq<Row<V>>, rows: seq<Row<V>>, lo: nat, hi: int, k: int) returns (m: int)
    requires Rearranged(was, rows, lo, hi) && lo <= k <= hi
    ensures lo <= m <= hi && was[m] == rows[k]
  {
    assert rows[lo..hi + 1][k - lo] == rows[k];
    assert rows[k] in multiset(was[lo..hi + 1]);
    var n :| 0 <= n < |was[lo..hi + 1]| && was[lo..hi + 1][n] == rows[k];
    m := lo + n;
  }

  lemma RearrangedKeepsSides<V(!new)>(f: Compare<V>, was: seq<Row<V>>, rows: seq<Row<V>>, lo: nat, hi: int, pv: Row<V>)
    requires Rearranged(was, rows, lo, hi)
    ensures NoneAfter(f, was, lo, hi, pv) ==> NoneAfter(f, rows, lo, hi, pv)
    ensures NoneBefore(f, was, lo, hi, pv) ==> NoneBefore(f, rows, lo, hi, pv)
  {
    forall k | lo <= k <= hi
      ensures NoneAfter(f, was, lo, hi, pv) ==> Cmp(f, rows[k], pv) <= 0
      ensures NoneBefore(f, was, lo, hi, pv) ==> Cmp(f, rows[k], pv) >= 0
    {
      var m := RearrangedFrom(was, rows, lo, hi, k);
    }
  }

  /** Rearranging a part of a range rearranges the range. */
  lemma RearrangedPart<V(!new)>(was: seq<Row<V>>, rows: seq<Row<V>>, lo: nat, hi: int, a: nat, b: int)
    requires lo <= a <= b + 1 <= hi + 1 <= |was| && Rearranged(was, rows, a, b)
    ensures Rearranged(was, rows, lo, hi)
  {
    var left, right := was[lo..a], was[b + 1..hi + 1];
    assert left == rows[lo..a] && right == rows[b + 1..hi + 1];
    assert multiset(was[lo..hi + 1]) == multiset(left) + multiset(was[a..b + 1]) + multiset(right) by {
      assert was[lo..hi + 1] == left + was[a..b + 1] + right;
    }
    assert multiset(rows[lo..hi + 1]) == multiset(left) + multiset(rows[a..b + 1]) + multiset(right) by {
      assert rows[lo..hi + 1] == left + rows[a..b + 1] + right;
    }
  }

  /** Two ordered parts, one on each side of the pivot row, are ordered as a whole. */
  lemma OrderedWhole<V(!new)>(f: Compare<V>, rows: seq<Row<V>>, lo: nat, p: int, hi: int, pv: Row<V>)
    requires TotalPreorder(f)
    requires Ordered(f, rows, lo, p) && Ordered(f, rows, p + 1, hi)
    requires NoneAfter(f, rows, lo, p, pv) && NoneBefore(f, rows, p + 1, hi, pv)
    ensures Ordered(f, rows, lo, hi)
  {
    forall a, b | lo <= a < b <= hi ensures Cmp(f, rows[a], rows[b]) <= 0 {
      if a <= p < b {
        assert Through(f, rows[a], pv, rows[b]);
      }
    }
  }

  /** Rows `lo..hi` hold the same rows as before, in order; the others did not move. */
  ghost predicate SortedFrom<V(!new)>(f: Compare<V>, was: seq<Row<V>>, rows: seq<Row<V>>, lo: int, hi: int) {
    Rearranged(was, rows, lo, hi) && Ordered(f, rows, lo, hi)
  }

  /** A rearranged and split range whose left part is in order. */
  ghost predicate HalfSorted<V(!new)>(f: Compare<V>, was: seq<Row<V>>, rows: seq<Row<V>>, lo: nat, p: int, hi: nat, pv: Row<V>) {
    Rearranged(was, rows, lo, hi) && Met(f, rows, lo, hi, p, pv) && Ordered(f, rows, lo, p)
  }

  /** Sorting the left part of a split keeps the split. */
  lemma LeftSorted<V(!new)>(f: Compare<V>, was: seq<Row<V>>, split: seq<Row<V>>, left: seq<Row<V>>,
                            lo: nat, p: int, hi: nat, pv: Row<V>)
    requires Rearranged(was, split, lo, hi) && Met(f, split, lo, hi, p, pv) && SortedFrom(f, split, left, lo, p)
    ensures HalfSorted(f, was, left, lo, p, hi, pv)
  {
    RearrangedKeepsSides(f, split, left, lo, p, pv);
    RearrangedPart(split, left, lo, hi, lo, p);
  }

  /** Sorting the right part then puts the whole range in order. */
  lemma RightSorted<V(!new)>(f: Compare<V>, was: seq<Row<V>>, left: seq<Row<V>>, rows: seq<Row<V>>,
                             lo: nat, p: int, q: int, hi: nat, pv: Row<V>)
    requires TotalPreorder(f) && HalfSorted(f, was, left, lo, p, hi, pv)
    requires q == p + 1 && SortedFrom(f, left, rows, q, hi)
    ensures SortedFrom(f, was, rows, lo, hi)
  {
    RearrangedKeepsSides(f, left, rows, p + 1, hi, pv);
    RearrangedPart(left, rows, lo, hi, p + 1, hi);
    OrderedWhole(f, rows, lo, p, hi, pv);
  }

  class TableRows<V(0, !new)> {
    const entities: array<nat>
    const values: array<V>
    /** The row word of every entity's record. */
    var records: map<nat, nat>
    /** The entities of the table, whatever their order. */
    ghost const population: set<nat>
    ghost var rows: seq<Row<V>>
    ghost var calls: nat

    ghost predicate Valid()
      reads this, entities, values
    {
      && (entities as object) != (values as object)
      && entities.Length == values.Length == |rows| <= ROW_MASK + 1
      && (forall k :: 0 <= k < |rows| ==> rows[k] == Row(entities[k], values[k]))
      && Recorded(population, rows, records)
    }

    constructor (entities: array<nat>, values: array<V>, records: map<nat, nat>)
      requires (entities as object) != (values as object)
      requires entities.Length == values.Length <= ROW_MASK + 1
      requires forall k :: 0 <= k < entities.Length ==>
                 entities[k] in records && RecordToRow(records[entities[k]]) == k
      ensures Valid() && this.entities == entities && this.values == values && this.records == records
      ensures population == set k | 0 <= k < entities.Length :: entities[k]
    {
      this.entities, this.values, this.records := entities, values, records;
      population := set k | 0 <= k < entities.Length :: entities[k];
      rows := seq(entities.Length, k requires 0 <= k < entities.Length == values.Length reads entities, values =>
                                     Row(entities[k], values[k]));
      calls := 0;
    }

    /** Exchanges two rows whole: entities, values and the row part of both records. */
    method SwapRows(i: nat, j: nat)
      requires Valid() && i < j < |rows|
      modifies this`records, this`rows, entities, values
      ensures Valid()
      ensures rows == old(rows)[i := old(rows)[j]][j := old(rows)[i]]
      ensures FlagsKept(population, old(records), records)
    {
      SwapRecords(population, rows, records, i, j);
      var e1, e2 := entities[i], entities[j];
      entities[i], entities[j] := e2, e1;
      records := SwappedRecords(records, e1, e2, i, j);
      values[i], values[j] := values[j], values[i];
      rows := rows[i := rows[j]][j := rows[i]];
    }

    /** The left scan: steps to the next row that is not before the pivot row. The row `stop`
        is one, so the scan needs no bounds test. */
    method ScanUp(f: Compare<V>, from: int, pivot: nat, pivotEntity: nat, ghost stop: nat) returns (i: int)
      requires Valid() && -1 <= from < stop < |rows| && pivot < |rows| && pivotEntity == rows[pivot].entity
      requires Cmp(f, rows[stop], rows[pivot]) >= 0
      modifies this`calls
      ensures from < i <= stop && calls == old(calls) + (i - from)
      ensures Cmp(f, rows[i], rows[pivot]) >= 0
      ensures forall a :: from < a < i ==> Cmp(f, rows[a], rows[pivot]) < 0
    {
      i := from;
      while true
        invariant from <= i < stop && calls == old(calls) + (i - from)
        invariant forall a :: from < a <= i ==> Cmp(f, rows[a], rows[pivot]) < 0
        decreases stop - i
      {
        i := i + 1;
        calls := calls + 1;
        if !(f(entities[i], values[i], pivotEntity, values[pivot]) < 0) {
          return;
        }
      }
    }

    /** The right scan, downwards to the next row that is not after the pivot row. */
    method ScanDown(f: Compare<V>, from: int, pivot: nat, pivotEntity: nat, ghost stop: nat) returns (j: int)
      requires Valid() && stop < from <= |rows| && pivot < |rows| && pivotEntity == rows[pivot].entity
      requires Cmp(f, rows[stop], rows[pivot]) <= 0
      modifies this`calls
      ensures stop <= j < from && calls == old(calls) + (from - j)
      ensures Cmp(f, rows[j], rows[pivot]) <= 0
      ensures forall b :: j < b < from ==> Cmp(f, rows[b], rows[pivot]) > 0
    {
      j := from;
      while true
        invariant stop < j <= from && calls == old(calls) + (from - j)
        invariant forall b :: j <= b < from ==> Cmp(f, rows[b], rows[pivot]) > 0
        decreases j - stop
      {
        j := j - 1;
        calls := calls + 1;
        if !(f(entities[j], values[j], pivotEntity, values[pivot]) > 0) {
          return;
        }
      }
    }

    /** Both scans of one round. */
    method Scan(f: Compare<V>, lo: nat, hi: nat, p: nat, i0: int, j0: int, pivot: nat, pivotEntity: nat)
      returns (i: int, j: int)
      requires Valid() && pivot < |rows| && pivotEntity == rows[pivot].entity
      requires Scanned(f, rows, lo, hi, i0, j0, rows[pivot]) && PivotAt(rows, lo, hi, i0, j0, p, pivot, rows[pivot])
      requires Cmp(f, rows[pivot], rows[pivot]) == 0
      modifies this`calls
      ensures Stopped(f, rows, lo, hi, p, i0, j0, i, j, rows[pivot])
      ensures calls == old(calls) + (i - i0) + (j0 - j)
    {
      i := ScanUp(f, i0, pivot, pivotEntity, if i0 == lo - 1 then p else j0);
      j := ScanDown(f, j0, pivot, pivotEntity, if i0 == lo - 1 then p else i0);
    }

    /** The exchange that ends a round whose scans did not meet. `p` itself never changes. */
    method Exchange(f: Compare<V>, lo: nat, hi: nat, p: nat, ghost i0: int, ghost j0: int, i: nat, j: nat,
                    pivot0: nat, pivotEntity0: nat) returns (pivot: nat, pivotEntity: nat)
      requires Valid() && pivot0 < |rows| && pivotEntity0 == rows[pivot0].entity
      requires Scanned(f, rows, lo, hi, i0, j0, rows[pivot0]) && PivotAt(rows, lo, hi, i0, j0, p, pivot0, rows[pivot0])
      requires Stopped(f, rows, lo, hi, p, i0, j0, i, j, rows[pivot0]) && i < j
      requires Cmp(f, rows[pivot0], rows[pivot0]) == 0
      modifies this`records, this`rows, entities, values
      ensures Valid() && Rearranged(old(rows), rows, lo, hi) && FlagsKept(population, old(records), records)
      ensures Scanned(f, rows, lo, hi, i, j, old(rows)[pivot0])
      ensures PivotAt(rows, lo, hi, i, j, p, pivot, old(rows)[pivot0]) && pivotEntity == old(rows)[pivot0].entity
    {
      ExchangeRearranges(rows, i, j, lo, hi);
      SwapRows(i, j);
      pivot, pivotEntity := pivot0, pivotEntity0;
      if p == i {
        pivot, pivotEntity := j, entities[j];
      } else if p == j {
        pivot, pivotEntity := i, entities[i];
      }
      Exchanged(f, old(rows), rows, lo, hi, p, pivot0, pivot, i0, j0, i, j, old(rows)[pivot0]);
    }

    /** Splits rows `lo..hi` at the returned `j`: no row up to `j` is after the pivot row and no
        row past `j` before it, where the pivot row is the one first found in the middle. */
    method Partition(f: Compare<V>, lo: nat, hi: nat) returns (j: int)
      requires Valid() && Reflexive(f) && lo < hi < |rows|
      modifies this`records, this`rows, this`calls, entities, values
      ensures Valid() && Rearranged(old(rows), rows, lo, hi) && FlagsKept(population, old(records), records)
      ensures Met(f, rows, lo, hi, j, old(rows)[(hi + lo) / 2])
      ensures hi - lo + 2 <= calls - old(calls) <= hi - lo + 3
    {
      // Rows fit the row mask, so the sum is no larger than an int32_t holds.
      assert hi + lo <= 0x7FFF_FFFF;
      var p := (hi + lo) / 2;
      var pivot, pivotEntity := p, entities[p];
      ghost var pv := rows[p];
      var i := lo - 1;
      j := hi + 1;
      while true
        invariant Valid() && Rearranged(old(rows), rows, lo, hi) && FlagsKept(population, old(records), records)
        invariant Scanned(f, rows, lo, hi, i, j, pv) && PivotAt(rows, lo, hi, i, j, p, pivot, pv)
        invariant pivotEntity == pv.entity
        invariant calls == old(calls) + (i - (lo - 1)) + (hi + 1 - j)
        decreases j - i
      {
        ghost var i0, j0 := i, j;
        i, j := Scan(f, lo, hi, p, i, j, pivot, pivotEntity);
        if i >= j {
          ScansMeet(f, rows, lo, hi, p, pivot, i0, j0, i, j, pv);
          return;
        }
        pivot, pivotEntity := Exchange(f, lo, hi, p, i0, j0, i, j, pivot, pivotEntity);
      }
    }

    /** Quicksort of rows `lo..hi`. */
    method Sort(f: Compare<V>, lo: nat, hi: int)
      requires Valid() && TotalPreorder(f) && lo <= hi + 1 <= |rows|
      modifies this`records, this`rows, this`calls, entities, values
      ensures Valid() && SortedFrom(f, old(rows), rows, lo, hi)
      ensures FlagsKept(population, old(records), records)
      ensures calls - old(calls) <= Budget(hi - lo + 1)
      decreases hi - lo + 1
    {
      if hi - lo < 1 {
        return;
      }
      PreorderReflexive(f);
      ghost var pv := rows[(hi + lo) / 2];
      var p := Partition(f, lo, hi);
      ghost var split, records1, calls1 := rows, records, calls;
      Sort(f, lo, p);
      ghost var left, records2, calls2 := rows, records, calls;
      LeftSorted(f, old(rows), split, left, lo, p, hi, pv);
      FlagsKeptTwice(population, old(records), records1, records2);
      var q := p + 1;
      Sort(f, q, hi);
      RightSorted(f, old(rows), left, rows, lo, p, q, hi, pv);
      FlagsKeptTwice(population, old(records), records2, records);
      BudgetSplit(lo, p, hi, calls1 - old(calls), calls2 - calls1, calls - calls2);
    }
  }
}
