/** The paged sparse set behind every sparse component: a dense array of ids, alive ones
    first, and pages that map an index to its dense position and hold its payload. */
module SparseSets {

  const PAGE_SIZE := 64
  const INDEX_LIMIT := 0x1_0000_0000

  /** An id without its generation. */
  function Index(id: nat): (i: nat)
    ensures i < INDEX_LIMIT
  {
    id % INDEX_LIMIT
  }

  lemma IndexOfIndex(e: nat)
    requires e < INDEX_LIMIT
    ensures Index(e) == e
  {}

  // ----- pages

  datatype Page<V> = NoPage | Page(sparse: seq<nat>, data: seq<V>)

  /** Pages are absent or full-sized. */
  ghost predicate Paged<V>(pages: seq<Page<V>>) {
    forall p :: 0 <= p < |pages| && pages[p].Page? ==> |pages[p].sparse| == |pages[p].data| == PAGE_SIZE
  }

  predicate HasPage<V>(pages: seq<Page<V>>, i: nat) {
    i / PAGE_SIZE < |pages| && pages[i / PAGE_SIZE].Page?
  }

  /** The dense position of index `i`; zero when it was never paired. */
  function Slot<V>(pages: seq<Page<V>>, i: nat): (k: nat)
    requires Paged(pages)
  {
    if HasPage(pages, i) then pages[i / PAGE_SIZE].sparse[i % PAGE_SIZE] else 0
  }

  function Datum<V>(pages: seq<Page<V>>, i: nat, zero: V): (v: V)
    requires Paged(pages)
  {
    if HasPage(pages, i) then pages[i / PAGE_SIZE].data[i % PAGE_SIZE] else zero
  }

  function Filled<V>(v: V): (s: seq<V>)
    ensures |s| == PAGE_SIZE && forall o :: 0 <= o < PAGE_SIZE ==> s[o] == v
  {
    seq(PAGE_SIZE, o => v)
  }

  /** The pages once the page of `i` exists. A new page is all zero, so it pairs nothing. */
  function WithPage<V>(pages: seq<Page<V>>, i: nat, zero: V): (r: seq<Page<V>>)
    requires Paged(pages)
    ensures Paged(r) && HasPage(r, i)
    ensures forall j: nat :: Slot(r, j) == Slot(pages, j)
    ensures forall j: nat :: Datum(r, j, zero) == Datum(pages, j, zero)
    ensures HasPage(pages, i) ==> r == pages
  {
    var p := i / PAGE_SIZE;
    if HasPage(pages, i) then pages
    else
      var grown := if p < |pages| then pages else pages + seq(p + 1 - |pages|, o => NoPage);
      grown[p := Page(Filled(0), Filled(zero))]
  }

  function SetSlot<V(!new)>(pages: seq<Page<V>>, i: nat, k: nat): (r: seq<Page<V>>)
    requires Paged(pages) && HasPage(pages, i)
    ensures Paged(r)
    ensures forall j: nat :: HasPage(r, j) == HasPage(pages, j)
    ensures forall j: nat :: Slot(r, j) == if j == i then k else Slot(pages, j)
    ensures forall j: nat, zero :: Datum(r, j, zero) == Datum(pages, j, zero)
  {
    var p := i / PAGE_SIZE;
    pages[p := pages[p].(sparse := pages[p].sparse[i % PAGE_SIZE := k])]
  }

  function SetDatum<V(!new)>(pages: seq<Page<V>>, i: nat, v: V): (r: seq<Page<V>>)
    requires Paged(pages) && HasPage(pages, i)
    ensures Paged(r)
    ensures forall j: nat :: HasPage(r, j) == HasPage(pages, j)
    ensures forall j: nat :: Slot(r, j) == Slot(pages, j)
    ensures forall j: nat, zero :: Datum(r, j, zero) == if j == i then v else Datum(pages, j, zero)
  {
    var p := i / PAGE_SIZE;
    pages[p := pages[p].(data := pages[p].data[i % PAGE_SIZE := v])]
  }

  // ----- what a dense array and its pages stand for

  predicate Alive<V>(pages: seq<Page<V>>, count: nat, i: nat)
    requires Paged(pages)
  {
    0 < Slot(pages, i) < count
  }

  /** Every dense position and the slot of its id point at each other. */
  ghost predicate Links<V>(dense: seq<nat>, pages: seq<Page<V>>, count: nat) {
    && Paged(pages)
    && 1 <= count <= |dense|
    && (forall k :: 1 <= k < |dense| ==> Slot(pages, Index(dense[k])) == k)
    && (forall i: nat :: i < INDEX_LIMIT && Slot(pages, i) != 0 ==>
          Slot(pages, i) < |dense| && Index(dense[Slot(pages, i)]) == i)
  }

  /** Payloads of indices that are not alive are zero. */
  ghost predicate Zeroed<V>(pages: seq<Page<V>>, count: nat, zero: V)
    requires Paged(pages)
  {
    forall i: nat :: i < INDEX_LIMIT && !Alive(pages, count, i) ==> Datum(pages, i, zero) == zero
  }

  ghost function AliveSet<V>(pages: seq<Page<V>>, count: nat): (s: set<nat>)
    requires Paged(pages)
  {
    set i: nat | i < INDEX_LIMIT && Alive(pages, count, i)
  }

  ghost function AliveData<V>(pages: seq<Page<V>>, count: nat, zero: V): (m: map<nat, V>)
    requires Paged(pages)
  {
    map i: nat | i < INDEX_LIMIT && Alive(pages, count, i) :: Datum(pages, i, zero)
  }

  function Indices(ids: seq<nat>): (s: set<nat>) {
    set a | 0 <= a < |ids| :: Index(ids[a])
  }

  /** `s` without position `k`, which its last element fills. */
  function SwapRemoved(s: seq<nat>, k: nat): (r: seq<nat>)
    requires k < |s|
    ensures |r| == |s| - 1
  {
    var last := |s| - 1;
    if k == last then s[..last] else s[k := s[last]][..last]
  }

  lemma SwapRemovedPrefix(s: seq<nat>, k: nat, count: nat)
    requires 1 <= k < count <= |s|
    ensures SwapRemoved(s[1..count], k - 1) == s[k := s[count - 1]][count - 1 := s[k]][1..count - 1]
  {}

  lemma {:induction false} DistinctIndices(ids: seq<nat>)
    requires forall a, b :: 0 <= a < b < |ids| ==> Index(ids[a]) != Index(ids[b])
    ensures |Indices(ids)| == |ids|
  {
    if ids != [] {
      var last := |ids| - 1;
      DistinctIndices(ids[..last]);
      assert Indices(ids) == Indices(ids[..last]) + {Index(ids[last])};
    }
  }

  /** The alive prefix of the dense array lists every member exactly once. */
  lemma DensePrefix<V>(dense: seq<nat>, pages: seq<Page<V>>, count: nat)
    requires Links(dense, pages, count)
    ensures AliveSet(pages, count) == Indices(dense[1..count])
    ensures |AliveSet(pages, count)| == count - 1
  {
    var ids := dense[1..count];
    forall i | i in AliveSet(pages, count) ensures i in Indices(ids) {
      assert Index(ids[Slot(pages, i) - 1]) == i;
    }
    forall i | i in Indices(ids) ensures i in AliveSet(pages, count) {
      var a :| 0 <= a < |ids| && Index(ids[a]) == i;
      assert Slot(pages, Index(dense[a + 1])) == a + 1;
    }
    forall a, b | 0 <= a < b < |ids| ensures Index(ids[a]) != Index(ids[b]) {
      assert Slot(pages, Index(dense[a + 1])) == a + 1;
      assert Slot(pages, Index(dense[b + 1])) == b + 1;
    }
    DistinctIndices(ids);
  }

  /** Only the liveness of `i` changed; payloads did not. */
  ghost predicate SameBut<V>(pages: seq<Page<V>>, count: nat, pages': seq<Page<V>>, count': nat, zero: V, i: nat)
    requires Paged(pages) && Paged(pages')
  {
    forall j: nat :: j < INDEX_LIMIT && j != i ==>
      Alive(pages', count', j) == Alive(pages, count, j) && Datum(pages', j, zero) == Datum(pages, j, zero)
  }

  lemma BecameAlive<V>(pages: seq<Page<V>>, count: nat, pages': seq<Page<V>>, count': nat, zero: V, i: nat)
    requires Paged(pages) && Paged(pages') && i < INDEX_LIMIT
    requires SameBut(pages, count, pages', count', zero, i) && Alive(pages', count', i)
    ensures AliveSet(pages', count') == AliveSet(pages, count) + {i}
    ensures Zeroed(pages, count, zero) ==> Zeroed(pages', count', zero)
    ensures AliveData(pages', count', zero) == AliveData(pages, count, zero)[i := Datum(pages', i, zero)]
  {}

  lemma BecameDead<V>(pages: seq<Page<V>>, count: nat, pages': seq<Page<V>>, count': nat, zero: V, i: nat)
    requires Paged(pages) && Paged(pages') && i < INDEX_LIMIT
    requires SameBut(pages, count, pages', count', zero, i) && !Alive(pages', count', i)
    requires Datum(pages', i, zero) == zero
    ensures AliveSet(pages', count') == AliveSet(pages, count) - {i}
    ensures Zeroed(pages, count, zero) ==> Zeroed(pages', count', zero)
    ensures AliveData(pages', count', zero) == AliveData(pages, count, zero) - {i}
  {}

  /** What pairing a new index writes: it takes the position after the alive ids, and the unused
      id that was there, if any, goes to the end. */
  ghost predicate NewlyPaired<V>(dense: seq<nat>, pages: seq<Page<V>>, count: nat,
                                 dense': seq<nat>, pages': seq<Page<V>>, count': nat, id: nat)
    requires Paged(pages) && Paged(pages')
  {
    && 1 <= count <= |dense|
    && count' == count + 1
    && dense' == (if count < |dense| then dense + [dense[count]] else dense + [0])[count := id]
    && forall j: nat :: Slot(pages', j) ==
         if j == Index(id) then count
         else if count < |dense| && j == Index(dense[count]) then |dense|
         else Slot(pages, j)
  }

  lemma NewlyPairedLinks<V>(dense': seq<nat>, pages': seq<Page<V>>, count': nat,
                            dense: seq<nat>, pages: seq<Page<V>>, count: nat, zero: V, id: nat)
    requires Links(dense, pages, count) && Paged(pages') && Slot(pages, Index(id)) == 0
    requires NewlyPaired(dense, pages, count, dense', pages', count', id)
    requires forall j: nat :: Datum(pages', j, zero) == Datum(pages, j, zero)
    ensures Links(dense', pages', count')
    ensures SameBut(pages, count, pages', count', zero, Index(id)) && Alive(pages', count', Index(id))
  {}

  ghost predicate AllZero<V>(m: map<nat, V>, zero: V) {
    forall i :: i in m ==> m[i] == zero
  }

  /** With no slot left, payloads are zeroed exactly when every alive one was zero. */
  lemma ClearedPages<V>(pages: seq<Page<V>>, count: nat, pages': seq<Page<V>>, zero: V)
    requires Paged(pages) && Paged(pages')
    requires forall j: nat :: Slot(pages', j) == 0 && Datum(pages', j, zero) == Datum(pages, j, zero)
    ensures AliveSet(pages', 1) == {} && AliveData(pages', 1, zero) == map[]
    ensures Zeroed(pages, count, zero) ==>
              (Zeroed(pages', 1, zero) <==> AllZero(AliveData(pages, count, zero), zero))
  {
    var data := AliveData(pages, count, zero);
    if Zeroed(pages, count, zero) && AllZero(data, zero) {
      forall i: nat | i < INDEX_LIMIT ensures Datum(pages', i, zero) == zero {
        if Alive(pages, count, i) {
          assert i in data;
        }
      }
    }
    if Zeroed(pages', 1, zero) {
      forall i | i in data ensures data[i] == zero {
        assert !Alive(pages', 1, i);
      }
    }
  }

  // ----- shrinking

  /** Page `p` holds an alive index. */
  ghost predicate PageAlive<V>(pages: seq<Page<V>>, count: nat, p: nat)
    requires Paged(pages)
  {
    exists j: nat :: j / PAGE_SIZE == p && Alive(pages, count, j)
  }

  /** No paired but dead index shares its page with an alive one. */
  ghost predicate NoStaleSlot<V>(pages: seq<Page<V>>, count: nat)
    requires Paged(pages)
  {
    forall i: nat :: i < INDEX_LIMIT && count <= Slot(pages, i) ==> !PageAlive(pages, count, i / PAGE_SIZE)
  }

  lemma SamePageAlive<V>(pages: seq<Page<V>>, pages': seq<Page<V>>, count: nat, p: nat)
    requires Paged(pages) && Paged(pages') && p < |pages| && p < |pages'| && pages[p] == pages'[p]
    ensures PageAlive(pages, count, p) <==> PageAlive(pages', count, p)
  {
    forall j: nat | j / PAGE_SIZE == p ensures Alive(pages, count, j) <==> Alive(pages', count, j) {}
  }

  /** The pages `Shrink` leaves, from what it did page by page. */
  lemma ShrunkPages<V>(pages: seq<Page<V>>, count: nat, pages': seq<Page<V>>, zero: V)
    requires Paged(pages) && |pages'| <= |pages|
    requires forall q :: 0 <= q < |pages'| ==>
               pages'[q] == if PageAlive(pages, count, q) then pages[q] else NoPage
    requires forall q :: |pages'| <= q < |pages| ==> !PageAlive(pages, count, q)
    ensures Paged(pages') && PagesShrunk(pages, count, pages', zero)
  {}

  /** Pages without an alive index are gone, the others are as they were. */
  ghost predicate PagesShrunk<V>(pages: seq<Page<V>>, count: nat, pages': seq<Page<V>>, zero: V)
    requires Paged(pages) && Paged(pages')
  {
    && (forall j: nat :: Slot(pages', j) ==
          if PageAlive(pages, count, j / PAGE_SIZE) then Slot(pages, j) else 0)
    && (forall j: nat :: Datum(pages', j, zero) ==
          if PageAlive(pages, count, j / PAGE_SIZE) then Datum(pages, j, zero) else zero)
  }

  /** Dropping the dead pages keeps the members and their payloads. */
  lemma ShrinkKeeps<V>(pages: seq<Page<V>>, count: nat, pages': seq<Page<V>>, zero: V)
    requires Paged(pages) && Paged(pages') && PagesShrunk(pages, count, pages', zero)
    ensures AliveSet(pages', count) == AliveSet(pages, count)
    ensures AliveData(pages', count, zero) == AliveData(pages, count, zero)
    ensures Zeroed(pages, count, zero) ==> Zeroed(pages', count, zero)
  {
    forall i: nat
      ensures Alive(pages', count, i) <==> Alive(pages, count, i)
      ensures Alive(pages, count, i) ==> Datum(pages', i, zero) == Datum(pages, i, zero)
    {
      if Alive(pages, count, i) {
        assert PageAlive(pages, count, i / PAGE_SIZE);
      }
    }
  }

  /** Dropping the dead part of the dense array as well leaves the two arrays linked exactly
      when no paired but dead index shares its page with an alive one. */
  lemma ShrinkLinks<V>(dense: seq<nat>, pages: seq<Page<V>>, count: nat, pages': seq<Page<V>>, zero: V)
    requires Links(dense, pages, count) && Paged(pages') && PagesShrunk(pages, count, pages', zero)
    ensures Links(dense[..count], pages', count) <==> NoStaleSlot(pages, count)
  {
    var dense' := dense[..count];
    if NoStaleSlot(pages, count) {
      forall k | 1 <= k < |dense'| ensures Slot(pages', Index(dense'[k])) == k {
        assert dense'[k] == dense[k] && Alive(pages, count, Index(dense[k]));
        assert PageAlive(pages, count, Index(dense[k]) / PAGE_SIZE);
      }
      forall i: nat | i < INDEX_LIMIT && Slot(pages', i) != 0
        ensures Slot(pages', i) < |dense'| && Index(dense'[Slot(pages', i)]) == i
      {
        assert Slot(pages', i) == Slot(pages, i);
      }
    } else {
      var i: nat :| i < INDEX_LIMIT && count <= Slot(pages, i) && PageAlive(pages, count, i / PAGE_SIZE);
      assert Slot(pages', i) >= |dense'|;
    }
  }

  class SparseSet<V(0, !new)> {
    var dense: seq<nat>
    var pages: seq<Page<V>>
    var count: nat
    const zero: V

    ghost predicate Linked()
      reads this
    {
      Links(dense, pages, count)
    }

    ghost predicate Valid()
      reads this
    {
      Linked() && Zeroed(pages, count, zero)
    }

    /** The alive ids in iteration order. */
    ghost function Ids(): (s: seq<nat>)
      reads this
      requires 1 <= count <= |dense|
    {
      dense[1..count]
    }

    /** The alive indices. */
    ghost function Members(): (s: set<nat>)
      reads this
      requires Paged(pages)
    {
      AliveSet(pages, count)
    }

    /** The payload of every alive index. */
    ghost function Contents(): (m: map<nat, V>)
      reads this
      requires Paged(pages)
    {
      AliveData(pages, count, zero)
    }

    constructor (zero: V)
      ensures Valid() && Ids() == [] && Contents() == map[] && Members() == {} && this.zero == zero
      ensures |dense| == 1 && forall j: nat :: Slot(pages, j) == 0
    {
      this.zero := zero;
      dense, pages, count := [0], [], 1;
    }

    /** Membership asks for the index alone; the generation of `id` is not compared. */
    method Has(id: nat) returns (r: bool)
      requires Paged(pages)
      ensures r <==> Index(id) in Members()
    {
      var i := Index(id);
      if !HasPage(pages, i) {
        return false;
      }
      var k := Slot(pages, i);
      r := k != 0 && k < count;
    }

    method Count() returns (n: nat)
      requires Linked()
      ensures n == |Members()| == |Ids()|
    {
      n := count - 1;
      DensePrefix(dense, pages, count);
    }

    /** Pairs dense position `k` with `id`. */
    method AssignIndex(id: nat, k: nat)
      requires Paged(pages) && HasPage(pages, Index(id)) && k < |dense|
      modifies this`dense, this`pages
      ensures dense == old(dense)[k := id]
      ensures Paged(pages)
      ensures forall j: nat :: HasPage(pages, j) == old(HasPage(pages, j))
      ensures forall j: nat :: Slot(pages, j) == if j == Index(id) then k else old(Slot(pages, j))
      ensures forall j: nat :: Datum(pages, j, zero) == old(Datum(pages, j, zero))
    {
      pages := SetSlot(pages, Index(id), k);
      dense := dense[k := id];
    }

    /** Exchanges two dense positions, keeping slots and positions linked. */
    method SwapDense(a: nat, b: nat)
      requires Linked() && 1 <= a < |dense| && 1 <= b < |dense|
      modifies this`dense, this`pages
      ensures Linked()
      ensures dense == old(dense)[a := old(dense)[b]][b := old(dense)[a]]
      ensures forall j: nat :: HasPage(pages, j) == old(HasPage(pages, j))
      ensures forall j: nat :: Slot(pages, j) ==
                if j == Index(old(dense)[a]) then b
                else if j == Index(old(dense)[b]) then a
                else old(Slot(pages, j))
      ensures forall j: nat :: Datum(pages, j, zero) == old(Datum(pages, j, zero))
    {
      var idA, idB := dense[a], dense[b];
      assert Slot(pages, Index(idA)) == a && Slot(pages, Index(idB)) == b;
      // The page of `idB` exists, so no page is added while the page of `idA` is held.
      assert HasPage(pages, Index(idA)) && HasPage(pages, Index(idB));
      AssignIndex(idA, b);
      AssignIndex(idB, a);
    }

    /** Brings a paired index back to life at the first position past the alive ids. */
    method Revive(id: nat)
      requires Linked() && HasPage(pages, Index(id)) && count <= Slot(pages, Index(id))
      modifies this
      ensures Linked() && Ids() == old(Ids()) + [id]
      ensures SameBut(old(pages), old(count), pages, count, zero, Index(id)) && Alive(pages, count, Index(id))
      ensures Datum(pages, Index(id), zero) == old(Datum(pages, Index(id), zero))
      ensures |dense| == |old(dense)| && forall j: nat :: Slot(pages, j) == 0 <==> old(Slot(pages, j)) == 0
    {
      SwapDense(Slot(pages, Index(id)), count);
      dense := dense[count := id];
      count := count + 1;
    }

    /** Pairs an index that was never paired, on a page made for it if need be; an unused id in
        its way moves to the end. */
    method PairNew(id: nat)
      requires Paged(pages) && Slot(pages, Index(id)) == 0 && 1 <= count <= |dense|
      requires Linked() || count == |dense|
      modifies this
      ensures Paged(pages) && NewlyPaired(old(dense), old(pages), old(count), dense, pages, count, id)
      ensures forall j: nat :: Datum(pages, j, zero) == old(Datum(pages, j, zero))
    {
      pages := WithPage(pages, Index(id), zero);
      dense := dense + [0];
      var last, c := |dense| - 1, count;
      count := count + 1;
      if c < last {
        var unused := dense[c];
        assert Slot(pages, Index(unused)) == c;
        AssignIndex(unused, last);
      }
      AssignIndex(id, c);
    }

    /** Makes `id` alive. Its dense position is the first one past the alive ids, whether its
        index is new or comes back; an index alive already keeps its old id. */
    method Ensure(id: nat) returns (isNew: bool)
      requires Linked()
      modifies this
      ensures Linked()
      ensures isNew <==> Index(id) !in old(Members())
      ensures Ids() == if isNew then old(Ids()) + [id] else old(Ids())
      ensures Members() == old(Members()) + {Index(id)}
      ensures old(Valid()) ==>
                Valid() && Contents() == if isNew then old(Contents())[Index(id) := zero] else old(Contents())
      ensures |dense| == |old(dense)| + if old(Slot(pages, Index(id))) == 0 then 1 else 0
      ensures forall j: nat :: j != Index(id) ==> (Slot(pages, j) == 0 <==> old(Slot(pages, j)) == 0)
    {
      var i := Index(id);
      var k := Slot(pages, i);
      isNew := k == 0 || k >= count;
      if k == 0 {
        PairNew(id);
        NewlyPairedLinks(dense, pages, count, old(dense), old(pages), old(count), zero, id);
      } else if k >= count {
        Revive(id);
      }
      if isNew {
        BecameAlive(old(pages), old(count), pages, count, zero, i);
      }
    }

    /** Takes `id` out of the alive ids; the last alive id fills the gap. The result says whether
        the index was ever paired, not whether it was alive. */
    method Remove(id: nat) returns (paired: bool)
      requires Linked()
      modifies this
      ensures Linked() && (old(Valid()) ==> Valid())
      ensures Members() == old(Members()) - {Index(id)}
      ensures Contents() == old(Contents()) - {Index(id)}
      ensures paired <==> old(Slot(pages, Index(id))) != 0
      ensures Ids() == if Index(id) in old(Members())
                       then SwapRemoved(old(Ids()), old(Slot(pages, Index(id))) - 1)
                       else old(Ids())
      ensures |dense| == |old(dense)| && forall j: nat :: Slot(pages, j) == 0 <==> old(Slot(pages, j)) == 0
    {
      var i := Index(id);
      if !HasPage(pages, i) {
        return false;
      }
      var k := Slot(pages, i);
      if k == 0 {
        return false;
      }
      ghost var ids := if k < count then SwapRemoved(Ids(), k - 1) else Ids();
      assert i in Members() <==> k < count;
      if k < count {
        Retire(k);
      }
      assert Ids() == ids;
      pages := SetDatum(pages, i, zero);
      BecameDead(old(pages), old(count), pages, count, zero, i);
      return true;
    }

    /** Moves dense position `k` behind the alive ids. */
    method Retire(k: nat)
      requires Linked() && 1 <= k < count
      modifies this
      ensures Linked() && Ids() == SwapRemoved(old(Ids()), k - 1)
      ensures SameBut(old(pages), old(count), pages, count, zero, Index(old(dense)[k]))
      ensures !Alive(pages, count, Index(old(dense)[k]))
      ensures HasPage(pages, Index(old(dense)[k]))
      ensures |dense| == |old(dense)| && forall j: nat :: Slot(pages, j) == 0 <==> old(Slot(pages, j)) == 0
    {
      SwapRemovedPrefix(dense, k, count);
      if k != count - 1 {
        SwapDense(k, count - 1);
      }
      count := count - 1;
    }

    /** A write through the pointer that `flecs_sparse_get` returns. */
    method Write(id: nat, v: V) returns (ok: bool)
      requires Linked()
      modifies this`pages
      ensures Linked() && (old(Valid()) ==> Valid())
      ensures ok <==> Index(id) in old(Members())
      ensures Contents() == if ok then old(Contents())[Index(id) := v] else old(Contents())
      ensures Members() == old(Members())
    {
      var i := Index(id);
      ok := HasPage(pages, i) && 0 < Slot(pages, i) < count;
      if ok {
        pages := SetDatum(pages, i, v);
      }
    }

    /** Empties the set. Payloads stay behind. */
    method Clear()
      requires Linked()
      modifies this
      ensures Linked() && Ids() == [] && Members() == {} && Contents() == map[]
      ensures old(Valid()) ==> (Valid() <==> AllZero(old(Contents()), zero))
    {
      for p := 0 to |pages|
        invariant dense == old(dense) && count == old(count)
        invariant Paged(pages) && |pages| == |old(pages)|
        invariant forall j: nat :: Slot(pages, j) == if j / PAGE_SIZE < p then 0 else Slot(old(pages), j)
        invariant forall j: nat :: Datum(pages, j, zero) == Datum(old(pages), j, zero)
      {
        if pages[p].Page? {
          pages := pages[p := pages[p].(sparse := Filled(0))];
        }
      }
      dense := dense[..1];
      count := 1;
      ClearedPages(old(pages), old(count), pages, zero);
    }

    /** Frees the pages without alive indices and the dead part of the dense array. */
    method Shrink()
      requires Linked()
      modifies this
      ensures Paged(pages) && PagesShrunk(old(pages), old(count), pages, zero)
      ensures count == old(count) && dense == old(dense)[..count]
      ensures Ids() == old(Ids()) && Members() == old(Members()) && Contents() == old(Contents())
      ensures Linked() <==> old(NoStaleSlot(pages, count))
      ensures old(Valid()) ==> (Valid() <==> old(NoStaleSlot(pages, count)))
    {
      var last := -1;
      for p := 0 to |pages|
        invariant dense == old(dense) && count == old(count)
        invariant Paged(pages) && |pages| == |old(pages)|
        invariant -1 <= last < p
        invariant forall q :: 0 <= q < p ==>
                    pages[q] == if PageAlive(old(pages), count, q) then old(pages)[q] else NoPage
        invariant forall q :: p <= q < |pages| ==> pages[q] == old(pages)[q]
        invariant forall q :: last < q < p ==> !PageAlive(old(pages), count, q)
      {
        if pages[p].NoPage? {
          assert !PageAlive(old(pages), count, p);
          continue;
        }
        var hasAlive := PageHasAlive(p);
        SamePageAlive(pages, old(pages), count, p);
        if hasAlive {
          last := p;
        } else {
          pages := pages[p := NoPage];
        }
      }
      pages := pages[..last + 1];
      ShrunkPages(old(pages), count, pages, zero);
      dense := dense[..count];
      ShrinkKeeps(old(pages), count, pages, zero);
      ShrinkLinks(old(dense), old(pages), count, pages, zero);
    }

    method PageHasAlive(p: nat) returns (r: bool)
      requires Paged(pages) && p < |pages| && pages[p].Page?
      ensures r <==> PageAlive(pages, count, p)
    {
      for o := 0 to PAGE_SIZE
        invariant forall j: nat :: p * PAGE_SIZE <= j < p * PAGE_SIZE + o ==> !Alive(pages, count, j)
      {
        if 0 < Slot(pages, p * PAGE_SIZE + o) < count {
          assert Alive(pages, count, p * PAGE_SIZE + o);
          return true;
        }
      }
      return false;
    }
  }

  /** A set with 1 in it. */
  method WithOne() returns (s: SparseSet<int>)
    ensures fresh(s) && s.Linked() && s.Ids() == [1] && s.Members() == {1}
    ensures |s.dense| == 2 && forall j: nat :: j != 1 ==> Slot(s.pages, j) == 0
  {
    s := new SparseSet<int>(0);
    IndexOfIndex(1);
    var _ := s.Ensure(1);
  }

  /** A set with 1 and 2 in it. */
  method WithTwo() returns (s: SparseSet<int>)
    ensures fresh(s) && s.Linked() && s.Ids() == [1, 2] && s.Members() == {1, 2}
    ensures |s.dense| == 3 && Slot(s.pages, 2) == 2 && Slot(s.pages, 3) == 0
  {
    s := WithOne();
    IndexOfIndex(2);
    var _ := s.Ensure(2);
    SlotOfSecond(s.dense, s.pages, s.count, 1, 2);
  }

  lemma SlotOfSecond<V>(dense: seq<nat>, pages: seq<Page<V>>, count: nat, a: nat, b: nat)
    requires Links(dense, pages, count) && dense[1..count] == [a, b] && b < INDEX_LIMIT
    ensures Slot(pages, b) == 2
  {
    assert dense[2] == dense[1..count][1] == b;
    IndexOfIndex(b);
  }

  /** A set with 1 alive and 2 removed, on the same page. */
  method WithStaleSlot() returns (s: SparseSet<int>)
    ensures fresh(s) && s.Linked() && s.Ids() == [1] && 1 in s.Members() && 2 !in s.Members()
    ensures Slot(s.pages, 2) == 2 && Slot(s.pages, 3) == 0
  {
    s := WithTwo();
    IndexOfIndex(2);
    var _ := s.Remove(2);
    SlotOfDead(s.dense, s.pages, s.count, 1, 2);
  }

  /** In a set of one alive and one dead id, the slot of the dead one is past the alive one's. */
  lemma SlotOfDead<V>(dense: seq<nat>, pages: seq<Page<V>>, count: nat, a: nat, b: nat)
    requires Links(dense, pages, count) && |dense| == 3 && b < INDEX_LIMIT && a < INDEX_LIMIT && a != b
    requires dense[1..count] == [a] && Slot(pages, b) != 0
    ensures Slot(pages, b) == 2
  {
    assert dense[1] == dense[1..count][0] == a;
    IndexOfIndex(a);
  }

  /** After a shrink that leaves a stale slot, inserting one id can bring a removed id back:
      2 was removed and never inserted again, yet it is a member. */
  method ShrinkResurrects() returns (before: bool, after: bool)
    ensures !before && after
  {
    var s := WithStaleSlot();
    before := s.Has(2);
    assert PageAlive(s.pages, s.count, 2 / PAGE_SIZE) by { assert Alive(s.pages, s.count, 1); }
    s.Shrink();
    s.PairNew(3);  // what `Ensure` does with an index that was never paired
    after := s.Has(2);
  }
}
