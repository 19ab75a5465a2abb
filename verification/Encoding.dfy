/** The packed row word of an entity record, entity generations and pair ids. */
module Encoding {
  import opened Bits

  // ----- the row word: 28 bits of row below 4 entity flags

  const ROW_BITS := 28
  const DONT_FRAGMENT_BIT := 28
  const DONT_FRAGMENT := 0x1000_0000
  const NOT_DONT_FRAGMENT := 0xEFFF_FFFF

  const ROW_MASK := 0x0FFF_FFFF
  const ROW_FLAGS_MASK := 0xF000_0000

  function RecordToRow(w: nat): (row: nat) { And(w, ROW_MASK) }

  function RecordToRowFlags(w: nat): (flags: nat) { And(w, ROW_FLAGS_MASK) }

  function RowToRecord(row: nat, flags: nat): (w: nat) { Or(row, flags) }

  predicate HasDontFragment(w: nat) { And(w, DONT_FRAGMENT) != 0 }

  function SetDontFragment(w: nat): (r: nat) { Or(w, DONT_FRAGMENT) }

  function ClearDontFragment(w: nat): (r: nat) { And(w, NOT_DONT_FRAGMENT) }

  lemma Pow28()
    ensures Pow2(14) == 0x4000 && Pow2(28) == 0x1000_0000
  {
    assert Pow2(8) == 256;
    assert Pow2(14) == 64 * Pow2(8);
    assert Pow2(20) == 64 * Pow2(14);
    assert Pow2(26) == 64 * Pow2(20);
  }

  lemma RowMaskBit(b: nat)
    ensures Bit(ROW_MASK, b) <==> b < ROW_BITS
  {
    Pow28();
    MaskBit(ROW_BITS, b);
  }

  lemma OneBit(k: nat, b: nat)
    ensures Bit(Shl(1, k), b) <==> b == k
  {
    ShlBit(1, k, b);
    if b > k {
      assert Bit(1, b - k) <==> Bit(0, b - k - 1);
      ZeroBit(b - k - 1);
    }
  }

  lemma RowIsLow(w: nat)
    ensures RecordToRow(w) == Low(w, ROW_BITS) <= ROW_MASK
  {
    Pow28();
    forall b: nat ensures Bit(RecordToRow(w), b) <==> Bit(Low(w, ROW_BITS), b) {
      AndBit(w, ROW_MASK, b);
      RowMaskBit(b);
      LowBit(w, ROW_BITS, b);
    }
    SameBits(RecordToRow(w), Low(w, ROW_BITS));
  }

  lemma FlagsBit(w: nat, b: nat)
    ensures Bit(RecordToRowFlags(w), b) <==> ROW_BITS <= b < 32 && Bit(w, b)
  {
    AndBit(w, ROW_FLAGS_MASK, b);
    RowMaskBit(b);
    Pow28();
    assert Pow2(32) == 16 * Pow2(28);
    LowOfSmall(ROW_MASK, 32);
    NotBit(ROW_MASK, 32, b);
  }

  /** Words agreeing below bit 28 hold the same row. */
  lemma SameRow(w: nat, v: nat)
    requires forall b: nat :: b < ROW_BITS ==> (Bit(w, b) <==> Bit(v, b))
    ensures RecordToRow(w) == RecordToRow(v)
  {
    RowIsLow(w);
    RowIsLow(v);
    forall b: nat ensures Bit(Low(w, ROW_BITS), b) <==> Bit(Low(v, ROW_BITS), b) {
      LowBit(w, ROW_BITS, b);
      LowBit(v, ROW_BITS, b);
    }
    SameBits(Low(w, ROW_BITS), Low(v, ROW_BITS));
  }

  /** Moving a record to another row: the word built from the row and the flag bits
      of a word decodes to exactly that row and those flags. */
  lemma RowWordRoundTrip(row: nat, w: nat)
    requires row <= ROW_MASK
    ensures var r := RowToRecord(row, RecordToRowFlags(w));
            RecordToRow(r) == row && RecordToRowFlags(r) == RecordToRowFlags(w)
  {
    var r := RowToRecord(row, RecordToRowFlags(w));
    Pow28();
    LowOfSmall(row, ROW_BITS);
    forall b: nat
      ensures b < ROW_BITS ==> (Bit(r, b) <==> Bit(row, b))
      ensures Bit(RecordToRowFlags(r), b) <==> Bit(RecordToRowFlags(w), b)
    {
      OrBit(row, RecordToRowFlags(w), b);
      FlagsBit(w, b);
      FlagsBit(r, b);
      LowBit(row, ROW_BITS, b);
    }
    SameRow(r, row);
    RowIsLow(row);
    SameBits(RecordToRowFlags(r), RecordToRowFlags(w));
  }

  lemma DontFragmentMaskBit(b: nat)
    ensures Bit(DONT_FRAGMENT, b) <==> b == DONT_FRAGMENT_BIT
    ensures Bit(NOT_DONT_FRAGMENT, b) <==> b < 32 && b != DONT_FRAGMENT_BIT
  {
    Pow28();
    assert Pow2(32) == 16 * Pow2(28);
    ShlTimes(1, 28);
    OneBit(28, b);
    LowOfSmall(DONT_FRAGMENT, 32);
    NotBit(DONT_FRAGMENT, 32, b);
  }

  lemma HasDontFragmentIsBit(w: nat)
    ensures HasDontFragment(w) <==> Bit(w, DONT_FRAGMENT_BIT)
  {
    var m := And(w, DONT_FRAGMENT);
    AndBit(w, DONT_FRAGMENT, DONT_FRAGMENT_BIT);
    DontFragmentMaskBit(DONT_FRAGMENT_BIT);
    if Bit(w, DONT_FRAGMENT_BIT) {
      ZeroBit(DONT_FRAGMENT_BIT);
    } else {
      forall b: nat ensures Bit(m, b) <==> Bit(0, b) {
        AndBit(w, DONT_FRAGMENT, b);
        DontFragmentMaskBit(b);
        ZeroBit(b);
      }
      SameBits(m, 0);
    }
  }

  /** The DontFragment bit is one of the flag bits. */
  lemma FlagsDecideDontFragment(w: nat, v: nat)
    requires RecordToRowFlags(w) == RecordToRowFlags(v)
    ensures HasDontFragment(w) <==> HasDontFragment(v)
  {
    FlagsBit(w, DONT_FRAGMENT_BIT);
    FlagsBit(v, DONT_FRAGMENT_BIT);
    HasDontFragmentIsBit(w);
    HasDontFragmentIsBit(v);
  }

  lemma DontFragmentWriteBit(w: nat, b: nat)
    ensures Bit(SetDontFragment(w), b) <==> Bit(w, b) || b == DONT_FRAGMENT_BIT
    ensures Bit(ClearDontFragment(w), b) <==> Bit(w, b) && b != DONT_FRAGMENT_BIT && b < 32
  {
    DontFragmentMaskBit(b);
    OrBit(w, DONT_FRAGMENT, b);
    AndBit(w, NOT_DONT_FRAGMENT, b);
  }

  /** The words agree on every bit but the DontFragment bit. */
  ghost predicate SameOtherBits(w: nat, v: nat) {
    forall b: nat :: b < 32 && b != DONT_FRAGMENT_BIT ==> (Bit(v, b) <==> Bit(w, b))
  }

  /** What the engine's two writes to a record word do: the bit is set or cleared,
      the row is kept, and so is every other bit of the word. */
  lemma DontFragmentWrites(w: nat)
    ensures HasDontFragment(SetDontFragment(w)) && !HasDontFragment(ClearDontFragment(w))
    ensures RecordToRow(SetDontFragment(w)) == RecordToRow(ClearDontFragment(w)) == RecordToRow(w)
    ensures forall b: nat :: b < 32 && b != DONT_FRAGMENT_BIT ==>
              (Bit(SetDontFragment(w), b) <==> Bit(w, b)) && (Bit(ClearDontFragment(w), b) <==> Bit(w, b))
  {
    forall b: nat
      ensures Bit(SetDontFragment(w), b) <==> Bit(w, b) || b == DONT_FRAGMENT_BIT
      ensures Bit(ClearDontFragment(w), b) <==> Bit(w, b) && b != DONT_FRAGMENT_BIT && b < 32
    {
      DontFragmentWriteBit(w, b);
    }
    HasDontFragmentIsBit(SetDontFragment(w));
    HasDontFragmentIsBit(ClearDontFragment(w));
    SameRow(SetDontFragment(w), w);
    SameRow(ClearDontFragment(w), w);
  }

  lemma SetTwice(w: nat)
    ensures SetDontFragment(SetDontFragment(w)) == SetDontFragment(w)
  {
    forall b: nat ensures Bit(SetDontFragment(SetDontFragment(w)), b) <==> Bit(SetDontFragment(w), b) {
      DontFragmentWriteBit(SetDontFragment(w), b);
      DontFragmentWriteBit(w, b);
    }
    SameBits(SetDontFragment(SetDontFragment(w)), SetDontFragment(w));
  }

  /** The word after the given writes: `true` sets the DontFragment bit, `false` clears it. */
  function Written(w: nat, writes: seq<bool>): (r: nat) {
    if writes == [] then w
    else
      var v := Written(w, writes[..|writes| - 1]);
      if writes[|writes| - 1] then SetDontFragment(v) else ClearDontFragment(v)
  }

  /** Over any sequence of sets and clears the decoded row and the other three entity
      flags never change, and the DontFragment bit is the last write. */
  lemma {:induction false} WritesKeepRowAndFlags(w: nat, writes: seq<bool>)
    ensures RecordToRow(Written(w, writes)) == RecordToRow(w)
    ensures forall b: nat :: b < 32 && b != DONT_FRAGMENT_BIT ==> (Bit(Written(w, writes), b) <==> Bit(w, b))
    ensures writes != [] ==> (HasDontFragment(Written(w, writes)) <==> writes[|writes| - 1])
  {
    if writes != [] {
      WritesKeepRowAndFlags(w, writes[..|writes| - 1]);
      DontFragmentWrites(Written(w, writes[..|writes| - 1]));
    }
  }

  // ----- generations: bits 32..47 of an entity handle

  const GENERATION_MASK := 0xFFFF_0000_0000
  const NOT_GENERATION_MASK := 0xFFFF_0000_FFFF_FFFF

  function Generation(e: nat): (g: nat) { Shr(And(e, GENERATION_MASK), 32) }

  function GenerationInc(e: nat): (r: nat) {
    Or(And(e, NOT_GENERATION_MASK), Shl(And(0xFFFF, Generation(e) + 1), 32))
  }

  /** The handle after `k` recycles of its index. */
  function Recycled(e: nat, k: nat): (r: nat) {
    if k == 0 then e else GenerationInc(Recycled(e, k - 1))
  }

  lemma Pow32()
    ensures Pow2(16) == 0x1_0000 && Pow2(32) == 0x1_0000_0000 && Pow2(64) == 0x1_0000_0000_0000_0000
  {
    Pow28();
    assert Pow2(16) == 4 * Pow2(14);
    assert Pow2(32) == 16 * Pow2(28);
    assert Pow2(40) == 256 * Pow2(32);
    assert Pow2(48) == 256 * Pow2(40);
    assert Pow2(56) == 256 * Pow2(48);
    assert Pow2(64) == 256 * Pow2(56);
  }

  lemma GenerationMaskBit(b: nat)
    ensures Bit(GENERATION_MASK, b) <==> 32 <= b < 48
  {
    Pow32();
    ShlTimes(0xFFFF, 32);
    ShlBit(0xFFFF, 32, b);
    if 32 <= b {
      MaskBit(16, b - 32);
    }
  }

  lemma NotGenerationMaskBit(b: nat)
    ensures Bit(NOT_GENERATION_MASK, b) <==> b < 64 && !(32 <= b < 48)
  {
    Pow32();
    LowOfSmall(GENERATION_MASK, 64);
    NotBit(GENERATION_MASK, 64, b);
    GenerationMaskBit(b);
  }

  lemma CutTo16(x: nat)
    ensures And(0xFFFF, x) == Low(x, 16) == x % 0x1_0000
  {
    Pow32();
    forall b: nat ensures Bit(And(0xFFFF, x), b) <==> Bit(Low(x, 16), b) {
      AndBit(0xFFFF, x, b);
      MaskBit(16, b);
      LowBit(x, 16, b);
    }
    SameBits(And(0xFFFF, x), Low(x, 16));
    LowIsMod16(x);
  }

  lemma Mod16(x: nat, q: nat, r: nat)
    requires x == r + 0x1_0000 * q && r < 0x1_0000
    ensures x % 0x1_0000 == r
  {}

  lemma LowIsMod16(x: nat)
    ensures Low(x, 16) == x % 0x1_0000
  {
    var q := Shr(x, 16);
    assert Pow2(16) == 0x1_0000 && Shl(q, 16) == 0x1_0000 * q by {
      Pow32();
      ShlTimes(q, 16);
    }
    Split(x, 16);
    Mod16(x, q, Low(x, 16));
  }

  lemma GenerationIsField(e: nat)
    ensures Generation(e) == Low(Shr(e, 32), 16) < 0x1_0000
  {
    CutTo16(Shr(e, 32));
    forall b: nat ensures Bit(Generation(e), b) <==> Bit(Low(Shr(e, 32), 16), b) {
      ShrBit(And(e, GENERATION_MASK), 32, b);
      AndBit(e, GENERATION_MASK, b + 32);
      GenerationMaskBit(b + 32);
      LowBit(Shr(e, 32), 16, b);
      ShrBit(e, 32, b);
    }
    SameBits(Generation(e), Low(Shr(e, 32), 16));
  }

  lemma GenerationIncBit(e: nat, b: nat)
    ensures Bit(GenerationInc(e), b) <==>
            if 32 <= b < 48 then Bit(Generation(e) + 1, b - 32) else b < 64 && Bit(e, b)
  {
    var next := And(0xFFFF, Generation(e) + 1);
    OrBit(And(e, NOT_GENERATION_MASK), Shl(next, 32), b);
    AndBit(e, NOT_GENERATION_MASK, b);
    NotGenerationMaskBit(b);
    ShlBit(next, 32, b);
    CutTo16(Generation(e) + 1);
    if 32 <= b {
      LowBit(Generation(e) + 1, 16, b - 32);
    }
  }

  lemma NextGenerationBit(e: nat, b: nat)
    ensures Bit(Generation(GenerationInc(e)), b) <==> Bit(Low(Generation(e) + 1, 16), b)
  {
    var r := GenerationInc(e);
    GenerationIsField(r);
    LowBit(Shr(r, 32), 16, b);
    ShrBit(r, 32, b);
    GenerationIncBit(e, b + 32);
    LowBit(Generation(e) + 1, 16, b);
  }

  lemma NextGeneration(e: nat)
    ensures Generation(GenerationInc(e)) == (Generation(e) + 1) % 0x1_0000
  {
    forall b: nat ensures Bit(Generation(GenerationInc(e)), b) <==> Bit(Low(Generation(e) + 1, 16), b) {
      NextGenerationBit(e, b);
    }
    SameBits(Generation(GenerationInc(e)), Low(Generation(e) + 1, 16));
    CutTo16(Generation(e) + 1);
  }

  /** `k` steps of a 16-bit counter. */
  function Counted(g: nat, k: nat): (r: nat) {
    if k == 0 then g else (Counted(g, k - 1) + 1) % 0x1_0000
  }

  lemma {:induction false} CountedIsMod(g: nat, k: nat)
    requires g < 0x1_0000
    ensures Counted(g, k) == (g + k) % 0x1_0000
  {
    if k > 0 {
      CountedIsMod(g, k - 1);
    }
  }

  lemma CounterReturns(g: nat, k: nat)
    requires g < 0x1_0000
    ensures Counted(g, k) == g <==> k % 0x1_0000 == 0
  {
    CountedIsMod(g, k);
    var q, r := k / 0x1_0000, k % 0x1_0000;
    if g + r < 0x1_0000 {
      Remainder(g + k, q, g + r);
    } else {
      Remainder(g + k, q + 1, g + r - 0x1_0000);
    }
  }

  lemma Remainder(n: nat, q: nat, r: nat)
    requires n == 0x1_0000 * q + r && r < 0x1_0000
    ensures n % 0x1_0000 == r
  {}

  lemma GenerationBound(e: nat)
    ensures Generation(e) < 0x1_0000
  {
    GenerationIsField(e);
  }

  /** Recycles count the generation up, modulo 65536 ... */
  lemma {:induction false} RecycledGeneration(e: nat, k: nat)
    ensures Generation(Recycled(e, k)) == Counted(Generation(e), k)
  {
    if k > 0 {
      RecycledGeneration(e, k - 1);
      NextGeneration(Recycled(e, k - 1));
    }
  }

  /** ... and move no other bit of the handle. */
  lemma {:induction false} RecycledKeepsBit(e: nat, k: nat, b: nat)
    requires b < 64 && !(32 <= b < 48)
    ensures Bit(Recycled(e, k), b) <==> Bit(e, b)
  {
    if k > 0 {
      RecycledKeepsBit(e, k - 1, b);
      GenerationIncBit(Recycled(e, k - 1), b);
    }
  }

  lemma GenerationBit(e: nat, b: nat)
    requires 32 <= b < 48
    ensures Bit(e, b) <==> Bit(Generation(e), b - 32)
  {
    GenerationIsField(e);
    LowBit(Shr(e, 32), 16, b - 32);
    ShrBit(e, 32, b - 32);
  }

  /** Handles are 64-bit words, and recycling keeps them so. */
  lemma HighBit(e: nat, k: nat, b: nat)
    requires e < Pow2(64) && 64 <= b
    ensures !Bit(Recycled(e, k), b)
  {
    if k == 0 {
      LowOfSmall(e, 64);
      LowBit(e, 64, b);
    } else {
      GenerationIncBit(Recycled(e, k - 1), b);
    }
  }

  lemma SameGenerationBit(e: nat, k: nat, b: nat)
    requires e < Pow2(64) && Generation(Recycled(e, k)) == Generation(e)
    ensures Bit(Recycled(e, k), b) <==> Bit(e, b)
  {
    if 64 <= b {
      HighBit(e, k, b);
      HighBit(e, 0, b);
    } else if 32 <= b < 48 {
      GenerationBit(e, b);
      GenerationBit(Recycled(e, k), b);
    } else {
      RecycledKeepsBit(e, k, b);
    }
  }

  /** A handle comes back after `k` recycles of its index exactly when `k` is a
      multiple of 65536: a stale handle differs through any 1..65535 recycles. */
  lemma HandleReturns(e: nat, k: nat)
    requires e < Pow2(64)
    ensures Recycled(e, k) == e <==> k % 0x1_0000 == 0
  {
    RecycledGeneration(e, k);
    GenerationBound(e);
    CounterReturns(Generation(e), k);
    if k % 0x1_0000 == 0 {
      forall b: nat ensures Bit(Recycled(e, k), b) <==> Bit(e, b) {
        SameGenerationBit(e, k, b);
      }
      SameBits(Recycled(e, k), e);
    }
  }

  // ----- pairs: the id flags above 28 bits of relationship above 32 bits of target

  const ID_FLAGS_MASK := 0xF000_0000_0000_0000
  const COMPONENT_MASK := 0x0FFF_FFFF_FFFF_FFFF
  const MAX_COMPONENT_ID := 0x0FFF_FFFF

  function Comb(lo: nat, hi: nat): (r: nat) { Low(Shl(hi, 32), 64) + Low(lo, 32) }

  /** `ecs_pair` and `ecs_value_pair`: only the tag differs. */
  function Pair(tag: nat, rel: nat, tgt: nat): (id: nat) { Or(tag, Comb(tgt, rel)) }

  function PairFirst(id: nat): (rel: nat) { Low(Shr(And(id, COMPONENT_MASK), 32), 32) }

  function PairSecond(id: nat): (tgt: nat) { Low(id, 32) }

  /** The tag holds id flags only. */
  predicate IsTag(tag: nat) { And(tag, ID_FLAGS_MASK) == tag }

  /** `0xFFull << 60` keeps four of its eight bits in a 64-bit word, so ids up to
      28 bits long, not 24, are free of the id flags. */
  lemma IdFlagsMaskWord()
    ensures Low(Shl(0xFF, 60), 64) == ID_FLAGS_MASK
  {
    forall b: nat ensures Bit(Low(Shl(0xFF, 60), 64), b) <==> Bit(ID_FLAGS_MASK, b) {
      LowBit(Shl(0xFF, 60), 64, b);
      ShlBit(0xFF, 60, b);
      ComponentMaskBit(b);
      if 60 <= b {
        assert Pow2(8) == 0x100;
        MaskBit(8, b - 60);
      }
    }
    SameBits(Low(Shl(0xFF, 60), 64), ID_FLAGS_MASK);
  }

  lemma ComponentMaskBit(b: nat)
    ensures Bit(COMPONENT_MASK, b) <==> b < 60
    ensures Bit(ID_FLAGS_MASK, b) <==> 60 <= b < 64
  {
    Pow32();
    assert Pow2(60) == 16 * Pow2(56) && Pow2(64) == 16 * Pow2(60);
    MaskBit(60, b);
    LowOfSmall(COMPONENT_MASK, 64);
    NotBit(COMPONENT_MASK, 64, b);
  }

  lemma {:induction false} SumBit(x: nat, y: nat, k: nat, b: nat)
    requires y < Pow2(k)
    ensures Bit(Shl(x, k) + y, b) <==> if b < k then Bit(y, b) else Bit(x, b - k)
    decreases k
  {
    if k > 0 && b > 0 {
      assert (Shl(x, k) + y) / 2 == Shl(x, k - 1) + y / 2;
      SumBit(x, y / 2, k - 1, b - 1);
    }
  }

  lemma CombBit(lo: nat, hi: nat, b: nat)
    ensures Bit(Comb(lo, hi), b) <==> if b < 32 then Bit(lo, b) else b < 64 && Bit(hi, b - 32)
  {
    forall c: nat ensures Bit(Low(Shl(hi, 32), 64), c) <==> Bit(Shl(Low(hi, 32), 32), c) {
      LowBit(Shl(hi, 32), 64, c);
      ShlBit(hi, 32, c);
      ShlBit(Low(hi, 32), 32, c);
      if 32 <= c {
        LowBit(hi, 32, c - 32);
      }
    }
    SameBits(Low(Shl(hi, 32), 64), Shl(Low(hi, 32), 32));
    SumBit(Low(hi, 32), Low(lo, 32), 32, b);
    LowBit(lo, 32, b);
    if 32 <= b {
      LowBit(hi, 32, b - 32);
    }
  }

  lemma TagBit(tag: nat, b: nat)
    requires IsTag(tag)
    ensures Bit(tag, b) ==> 60 <= b < 64
  {
    AndBit(tag, ID_FLAGS_MASK, b);
    ComponentMaskBit(b);
  }

  lemma PairFirstBit(tag: nat, rel: nat, tgt: nat, b: nat)
    requires IsTag(tag)
    ensures Bit(PairFirst(Pair(tag, rel, tgt)), b) <==> Bit(Low(rel, ROW_BITS), b)
  {
    var id := Pair(tag, rel, tgt);
    LowBit(Shr(And(id, COMPONENT_MASK), 32), 32, b);
    ShrBit(And(id, COMPONENT_MASK), 32, b);
    AndBit(id, COMPONENT_MASK, b + 32);
    ComponentMaskBit(b + 32);
    OrBit(tag, Comb(tgt, rel), b + 32);
    TagBit(tag, b + 32);
    CombBit(tgt, rel, b + 32);
    LowBit(rel, ROW_BITS, b);
  }

  lemma PairSecondBit(tag: nat, rel: nat, tgt: nat, b: nat)
    requires IsTag(tag)
    ensures Bit(PairSecond(Pair(tag, rel, tgt)), b) <==> Bit(Low(tgt, 32), b)
  {
    LowBit(Pair(tag, rel, tgt), 32, b);
    OrBit(tag, Comb(tgt, rel), b);
    TagBit(tag, b);
    CombBit(tgt, rel, b);
    LowBit(tgt, 32, b);
  }

  lemma PairParts(tag: nat, rel: nat, tgt: nat)
    requires IsTag(tag)
    ensures PairFirst(Pair(tag, rel, tgt)) == Low(rel, ROW_BITS)
    ensures PairSecond(Pair(tag, rel, tgt)) == Low(tgt, 32)
  {
    var first, second := PairFirst(Pair(tag, rel, tgt)), PairSecond(Pair(tag, rel, tgt));
    forall b: nat
      ensures Bit(first, b) <==> Bit(Low(rel, ROW_BITS), b)
      ensures Bit(second, b) <==> Bit(Low(tgt, 32), b)
    {
      PairFirstBit(tag, rel, tgt, b);
      PairSecondBit(tag, rel, tgt, b);
    }
    SameBits(first, Low(rel, ROW_BITS));
    SameBits(second, Low(tgt, 32));
  }

  /** The target always comes back without its generation; the relationship does so
      exactly when its 32-bit index is a possible component id. */
  lemma PairRoundTrip(tag: nat, rel: nat, tgt: nat)
    requires IsTag(tag)
    ensures PairSecond(Pair(tag, rel, tgt)) == Low(tgt, 32)
    ensures PairFirst(Pair(tag, rel, tgt)) == Low(rel, 32) <==> Low(rel, 32) <= MAX_COMPONENT_ID
  {
    PairParts(tag, rel, tgt);
    Pow28();
    if Low(rel, 32) <= MAX_COMPONENT_ID {
      LowOfSmall(Low(rel, 32), 28);
      forall b: nat ensures Bit(Low(rel, 28), b) <==> Bit(Low(rel, 32), b) {
        LowBit(rel, 28, b);
        LowBit(rel, 32, b);
        LowBit(Low(rel, 32), 28, b);
      }
      SameBits(Low(rel, 28), Low(rel, 32));
    }
  }

  lemma CombDropsGenerations(lo: nat, hi: nat, lo': nat, hi': nat)
    requires Low(lo, 32) == Low(lo', 32) && Low(hi, 32) == Low(hi', 32)
    ensures Comb(lo, hi) == Comb(lo', hi')
  {
    forall b: nat ensures Bit(Comb(lo, hi), b) <==> Bit(Comb(lo', hi'), b) {
      CombBit(lo, hi, b);
      CombBit(lo', hi', b);
      if b < 32 {
        LowBit(lo, 32, b);
        LowBit(lo', 32, b);
      } else {
        LowBit(hi, 32, b - 32);
        LowBit(hi', 32, b - 32);
      }
    }
    SameBits(Comb(lo, hi), Comb(lo', hi'));
  }

  /** Under one tag, pairs of possible component ids are equal exactly for equal parts. */
  lemma PairInjective(tag: nat, rel: nat, tgt: nat, rel': nat, tgt': nat)
    requires IsTag(tag)
    requires Low(rel, 32) <= MAX_COMPONENT_ID && Low(rel', 32) <= MAX_COMPONENT_ID
    ensures Pair(tag, rel, tgt) == Pair(tag, rel', tgt') <==>
            Low(rel, 32) == Low(rel', 32) && Low(tgt, 32) == Low(tgt', 32)
  {
    PairRoundTrip(tag, rel, tgt);
    PairRoundTrip(tag, rel', tgt');
    if Low(rel, 32) == Low(rel', 32) && Low(tgt, 32) == Low(tgt', 32) {
      CombDropsGenerations(tgt, rel, tgt', rel');
    }
  }

  const PAIR_TAG := 0x8000_0000_0000_0000

  lemma PairTagBit(b: nat)
    ensures Bit(PAIR_TAG, b) <==> b == 63
  {
    Pow32();
    assert Pow2(64) == 2 * Pow2(63);
    ShlTimes(1, 63);
    OneBit(63, b);
  }

  lemma CollidingBit(rel: nat, tgt: nat, b: nat)
    requires rel <= MAX_COMPONENT_ID
    ensures Bit(Pair(PAIR_TAG, 0x8000_0000 + rel, tgt), b) <==> Bit(Pair(PAIR_TAG, rel, tgt), b)
  {
    OrBit(PAIR_TAG, Comb(tgt, 0x8000_0000 + rel), b);
    OrBit(PAIR_TAG, Comb(tgt, rel), b);
    PairTagBit(b);
    CombBit(tgt, 0x8000_0000 + rel, b);
    CombBit(tgt, rel, b);
    if 32 <= b < 63 {
      Pow32();
      assert Pow2(32) == 2 * Pow2(31);
      ShlTimes(1, 31);
      SumBit(1, rel, 31, b - 32);
    }
  }

  /** Past that limit pairing is not injective: bit 31 of the relationship lands on the
      pair flag itself and vanishes into it. */
  lemma PairCollides(rel: nat, tgt: nat)
    requires rel <= MAX_COMPONENT_ID
    ensures Pair(PAIR_TAG, 0x8000_0000 + rel, tgt) == Pair(PAIR_TAG, rel, tgt)
  {
    var a, c := Pair(PAIR_TAG, 0x8000_0000 + rel, tgt), Pair(PAIR_TAG, rel, tgt);
    forall b: nat ensures Bit(a, b) <==> Bit(c, b) {
      CollidingBit(rel, tgt, b);
    }
    SameBits(a, c);
  }
}
