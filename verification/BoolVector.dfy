// BoolVector: ranges of single bits, handled byte by byte with masks and lookup tables.

module BoolVectors {
  import opened Bits

  // ---- Bytes ----

  function Weight(i: nat): bv8
    requires i < 8
  {
    match i
    case 0 => 0x01 case 1 => 0x02 case 2 => 0x04 case 3 => 0x08
    case 4 => 0x10 case 5 => 0x20 case 6 => 0x40 case _ => 0x80
  }

  function Bit(b: bv8, i: nat): bool
    requires i < 8
  {
    Hit(b, Weight(i))
  }

  function Hit(b: bv8, w: bv8): bool { b & w != 0 }

  /** (1 << n) - 1: the bits below n. */
  function Low(n: nat): bv8
    requires n < 8
  {
    (1 << n) - 1
  }

  lemma LowBit(n: nat, i: nat)
    requires n < 8 && i < 8
    ensures Bit(Low(n), i) <==> i < n
  {
    assert n == 0 || n == 1 || n == 2 || n == 3 || n == 4 || n == 5 || n == 6 || n == 7;
    assert i == 0 || i == 1 || i == 2 || i == 3 || i == 4 || i == 5 || i == 6 || i == 7;
  }

  function And(a: bv8, b: bv8): bv8 { a & b }

  function Or(a: bv8, b: bv8): bv8 { a | b }

  function Not(a: bv8): bv8 { !a }

  predicate OneBit(w: bv8) {
    w == 0x01 || w == 0x02 || w == 0x04 || w == 0x08 || w == 0x10 || w == 0x20 || w == 0x40 || w == 0x80
  }

  lemma MaskWeight(a: bv8, b: bv8, w: bv8)
    requires OneBit(w)
    ensures Hit(And(a, b), w) <==> Hit(a, w) && Hit(b, w)
    ensures Hit(Or(a, b), w) <==> Hit(a, w) || Hit(b, w)
    ensures Hit(Not(a), w) <==> !Hit(a, w)
  {
  }

  lemma WeightIsOne(i: nat)
    requires i < 8
    ensures OneBit(Weight(i))
  {
  }

  /** The operators work bit by bit. */
  lemma MaskBit(a: bv8, b: bv8, i: nat)
    requires i < 8
    ensures Bit(And(a, b), i) <==> Bit(a, i) && Bit(b, i)
    ensures Bit(Or(a, b), i) <==> Bit(a, i) || Bit(b, i)
    ensures Bit(Not(a), i) <==> !Bit(a, i)
  {
    hide Weight, Hit, And, Or, Not, OneBit;
    WeightIsOne(i);
    MaskWeight(a, b, Weight(i));
  }

  lemma ConstBit(i: nat)
    requires i < 8
    ensures Bit(0xFF, i) && !Bit(0, i)
  {
  }

  function ByteBits(b: bv8): (r: Bits)
    ensures |r| == 8
  {
    [Bit(b, 0), Bit(b, 1), Bit(b, 2), Bit(b, 3), Bit(b, 4), Bit(b, 5), Bit(b, 6), Bit(b, 7)]
  }

  function If(x: bool, p: nat): nat { if x then p else 0 }

  /** The number of a byte, which indexes the tables. */
  lemma ByteNumber(b: bv8)
    ensures b as int == If(Bit(b, 0), 1) + If(Bit(b, 1), 2) + If(Bit(b, 2), 4) + If(Bit(b, 3), 8)
      + If(Bit(b, 4), 16) + If(Bit(b, 5), 32) + If(Bit(b, 6), 64) + If(Bit(b, 7), 128)
  {
  }

  /** The number whose bits are b, the lowest first. */
  function Number(b: Bits): (n: nat)
    ensures n < Pow2(|b|)
  {
    if b == [] then 0 else Number(b[..|b| - 1]) + If(b[|b| - 1], Pow2(|b| - 1))
  }

  lemma NumberSnoc(b: Bits, x: bool, p: nat)
    requires p == Pow2(|b|)
    ensures Number(b + [x]) == Number(b) + If(x, p)
    ensures Pow2(|b + [x]|) == 2 * p
  {
    assert (b + [x])[..|b|] == b;
  }

  lemma EightBits(a: bool, b: bool, c: bool, d: bool, e: bool, f: bool, g: bool, h: bool)
    ensures Number([a, b, c, d, e, f, g, h])
         == If(a, 1) + If(b, 2) + If(c, 4) + If(d, 8) + If(e, 16) + If(f, 32) + If(g, 64) + If(h, 128)
  {
    hide *;
    Grouped(a, b, c, d, e, f, g, h);
    NoNumber();
    NumberSnoc([], a, 1);
    NumberSnoc([] + [a], b, 2);
    NumberSnoc([] + [a] + [b], c, 4);
    NumberSnoc([] + [a] + [b] + [c], d, 8);
    NumberSnoc([] + [a] + [b] + [c] + [d], e, 16);
    NumberSnoc([] + [a] + [b] + [c] + [d] + [e], f, 32);
    NumberSnoc([] + [a] + [b] + [c] + [d] + [e] + [f], g, 64);
    NumberSnoc([] + [a] + [b] + [c] + [d] + [e] + [f] + [g], h, 128);
  }

  lemma NoNumber()
    ensures Number([]) == 0 && Pow2(0) == 1
  {
  }

  lemma Grouped(a: bool, b: bool, c: bool, d: bool, e: bool, f: bool, g: bool, h: bool)
    ensures [] + [a] + [b] + [c] + [d] + [e] + [f] + [g] + [h] == [a, b, c, d, e, f, g, h]
  {
  }

  lemma ByteIndex(b: bv8)
    ensures b as int == Number(ByteBits(b))
  {
    hide Bit, Number, Weight, If;
    ByteNumber(b);
    EightBits(Bit(b, 0), Bit(b, 1), Bit(b, 2), Bit(b, 3), Bit(b, 4), Bit(b, 5), Bit(b, 6), Bit(b, 7));
  }

  // ---- Tables ----

  const NOT_FOUND: nat := 0xFFFF_FFFF                   // uint32_t(-1)
  const NO_BIT: nat := 0xFFFF_FFFF_FFFF_FFFF            // uint64_t(-1)

  /** s_first_set_table for numbers of k bits, as it is written out: each row repeats the one before. */
  function FirstSetTable(k: nat): (t: seq<nat>)
    ensures |t| == Pow2(k)
  {
    if k == 0 then [NOT_FOUND] else FirstSetTable(k - 1) + [k - 1] + FirstSetTable(k - 1)[1..]
  }

  /** s_pop_count_table: each row is the one before and the same with one more. */
  function PopCountTable(k: nat): (t: seq<nat>)
    ensures |t| == Pow2(k)
  {
    if k == 0 then [0]
    else
      var t := PopCountTable(k - 1);
      t + seq(|t|, i requires 0 <= i < |t| => t[i] + 1)
  }

  /** Index of the lowest bit that is set. */
  function Lowest(b: Bits): nat {
    if b == [] then NOT_FOUND
    else
      var r := Lowest(b[..|b| - 1]);
      if r != NOT_FOUND then r else if b[|b| - 1] then |b| - 1 else NOT_FOUND
  }

  function SetBits(b: Bits): nat {
    if b == [] then 0 else SetBits(b[..|b| - 1]) + if b[|b| - 1] then 1 else 0
  }

  lemma {:induction false} NoBits(b: Bits)
    requires |b| < NOT_FOUND
    ensures Number(b) == 0 <==> Lowest(b) == NOT_FOUND
  {
    if b != [] {
      var front := b[..|b| - 1];
      NoBits(front);
      assert b == front + [b[|b| - 1]];
    }
  }

  /** The tables hold what they are named after. */
  lemma {:induction false} FirstSetRight(b: Bits)
    requires |b| < NOT_FOUND
    ensures FirstSetTable(|b|)[Number(b)] == Lowest(b)
  {
    if b != [] {
      var front := b[..|b| - 1];
      FirstSetRight(front);
      NoBits(front);
    }
  }

  lemma {:induction false} PopCountRight(b: Bits)
    ensures PopCountTable(|b|)[Number(b)] == SetBits(b)
  {
    if b != [] {
      PopCountRight(b[..|b| - 1]);
    }
  }

  lemma {:induction false} LowestIs(b: Bits)
    requires |b| < NOT_FOUND
    ensures Lowest(b) < |b| ==> b[Lowest(b)]
    ensures Lowest(b) < |b| || Lowest(b) == NOT_FOUND
    ensures forall j :: 0 <= j < |b| && j < Lowest(b) ==> !b[j]
  {
    if b != [] {
      LowestIs(b[..|b| - 1]);
    }
  }

  /** What the tables say about a byte. */
  lemma TableByte(b: bv8)
    ensures b as int < |FirstSetTable(8)| == |PopCountTable(8)|
    ensures FirstSetTable(8)[b as int] == Lowest(ByteBits(b)) && PopCountTable(8)[b as int] == SetBits(ByteBits(b))
  {
    hide FirstSetTable, PopCountTable, ByteBits, Lowest, SetBits;
    ByteIndex(b);
    FirstSetRight(ByteBits(b));
    PopCountRight(ByteBits(b));
  }

  lemma BitOfByte(b: bv8, i: nat)
    requires i < 8
    ensures ByteBits(b)[i] == Bit(b, i)
  {
    hide Bit;
  }

  // ---- Bits of a byte array ----

  /** Bit i of the memory. */
  function BitAt(m: seq<bv8>, i: nat): bool {
    if i / 8 < |m| then Bit(m[i / 8], i % 8) else false
  }

  /** How many of the bits [lo, hi) are set. */
  function Count(m: seq<bv8>, lo: nat, hi: nat): nat
    decreases hi
  {
    if hi <= lo then 0 else Count(m, lo, hi - 1) + if BitAt(m, hi - 1) then 1 else 0
  }

  lemma {:induction false} CountSplit(m: seq<bv8>, lo: nat, mid: nat, hi: nat)
    requires lo <= mid <= hi
    ensures Count(m, lo, hi) == Count(m, lo, mid) + Count(m, mid, hi)
    decreases hi
  {
    if mid < hi {
      hide BitAt;
      CountSplit(m, lo, mid, hi - 1);
    }
  }

  /** `calcAndByRange` and `calcOrByRange`: comparing the count decides whether all or any bits are set. */
  lemma {:induction false} CountDecides(m: seq<bv8>, lo: nat, hi: nat)
    requires lo <= hi
    ensures Count(m, lo, hi) <= hi - lo
    ensures Count(m, lo, hi) == hi - lo <==> forall i :: lo <= i < hi ==> BitAt(m, i)
    ensures Count(m, lo, hi) > 0 <==> exists i :: lo <= i < hi && BitAt(m, i)
    decreases hi
  {
    hide BitAt;
    if lo < hi {
      CountDecides(m, lo, hi - 1);
    }
  }

  /** Byte c is the part [lo, hi) of byte k of the memory. */
  ghost predicate PartOf(m: seq<bv8>, k: nat, c: bv8, lo: nat, hi: nat) {
    k < |m| && lo <= hi <= 8 && forall j: nat :: j < 8 ==> (Bit(c, j) <==> lo <= j < hi && Bit(m[k], j))
  }

  lemma PartBit(m: seq<bv8>, k: nat, c: bv8, lo: nat, hi: nat, j: nat)
    requires PartOf(m, k, c, lo, hi) && j < 8
    ensures ByteBits(c)[j] <==> lo <= j < hi && BitAt(m, 8 * k + j)
  {
    BitOfByte(c, j);
    InByte(k, j);
    hide Bit, ByteBits;
  }

  /** The set bits of a masked byte are those of its range. */
  lemma {:induction false} CountByte(m: seq<bv8>, k: nat, c: bv8, lo: nat, hi: nat, n: nat)
    requires PartOf(m, k, c, lo, hi) && n <= 8
    ensures SetBits(ByteBits(c)[..n]) == Count(m, 8 * k + lo,
        if n <= lo then 8 * k + lo else if n < hi then 8 * k + n else 8 * k + hi)
    decreases n
  {
    hide PartOf, ByteBits, BitAt;
    PartBounds(m, k, c, lo, hi);
    if n > 0 {
      CountByte(m, k, c, lo, hi, n - 1);
      assert ByteBits(c)[..n][..n - 1] == ByteBits(c)[..n - 1];
      PartBit(m, k, c, lo, hi, n - 1);
    }
  }

  lemma PartBounds(m: seq<bv8>, k: nat, c: bv8, lo: nat, hi: nat)
    requires PartOf(m, k, c, lo, hi)
    ensures k < |m| && lo <= hi <= 8
  {
  }

  /** The whole byte counted, and the first set bit of its range. */
  lemma PartTables(m: seq<bv8>, k: nat, c: bv8, lo: nat, hi: nat)
    requires PartOf(m, k, c, lo, hi)
    ensures c as int < |FirstSetTable(8)| == |PopCountTable(8)|
    ensures PopCountTable(8)[c as int] == Count(m, 8 * k + lo, 8 * k + hi)
    ensures var r := FirstSetTable(8)[c as int];
            && (r != NOT_FOUND ==> lo <= r < hi && BitAt(m, 8 * k + r))
            && forall i :: 8 * k + lo <= i < 8 * k + hi && i < 8 * k + r ==> !BitAt(m, i)
  {
    hide PartOf, ByteBits, BitAt, FirstSetTable, PopCountTable, Lowest, SetBits, Count;
    PartBounds(m, k, c, lo, hi);
    TableByte(c);
    CountByte(m, k, c, lo, hi, 8);
    assert ByteBits(c)[..8] == ByteBits(c);
    LowestIs(ByteBits(c));
    if lo == 8 { NoCount(m, 8 * k + lo); }
    var r := Lowest(ByteBits(c));
    if r != NOT_FOUND { PartBit(m, k, c, lo, hi, r); }
    forall i | 8 * k + lo <= i < 8 * k + hi && i < 8 * k + r
      ensures !BitAt(m, i)
    {
      var j := i - 8 * k;
      PartBit(m, k, c, lo, hi, j);
      assert !ByteBits(c)[j];
    }
  }

  lemma NoCount(m: seq<bv8>, i: nat)
    ensures Count(m, i, i) == 0
  {
  }

  lemma WholeByte(m: seq<bv8>, k: nat)
    requires k < |m|
    ensures PartOf(m, k, m[k], 0, 8)
  {
  }

  lemma UpperPart(m: seq<bv8>, k: nat, a: nat)
    requires k < |m| && a < 8
    ensures PartOf(m, k, And(m[k], Not(Low(a))), a, 8)
  {
    hide Bit, And, Not, Low;
    forall j: nat | j < 8
      ensures Bit(And(m[k], Not(Low(a))), j) <==> a <= j < 8 && Bit(m[k], j)
    {
      ClearFrom(m[k], a, j);
    }
  }

  lemma LowerPart(m: seq<bv8>, k: nat, c: bv8, lo: nat, b: nat)
    requires PartOf(m, k, c, lo, 8) && lo <= b < 8
    ensures PartOf(m, k, And(c, Low(b)), lo, b)
  {
    hide Bit, And, Low;
    forall j: nat | j < 8
      ensures Bit(And(c, Low(b)), j) <==> lo <= j < b && Bit(m[k], j)
    {
      ClearFrom(c, b, j);
    }
  }

  lemma InByte(k: nat, j: nat)
    requires j < 8
    ensures (8 * k + j) / 8 == k && (8 * k + j) % 8 == j
  {
  }

  lemma ByteOf(i: nat)
    ensures i == 8 * (i / 8) + i % 8
  {
  }

  // ---- Masked bytes ----

  /** The bytes that `setBitByRange` writes at the ends of a range. */
  lemma SetInside(w: bv8, a: nat, b: nat, j: nat)
    requires a < 8 && b < 8 && j < 8
    ensures Bit(Or(w, And(Not(Low(a)), Low(b))), j) <==> (a <= j < b) || Bit(w, j)
  {
    hide *;
    MaskBit(w, And(Not(Low(a)), Low(b)), j);
    MaskBit(Not(Low(a)), Low(b), j);
    MaskBit(Low(a), Low(a), j);
    LowBit(a, j);
    LowBit(b, j);
  }

  lemma SetFrom(w: bv8, a: nat, j: nat)
    requires a < 8 && j < 8
    ensures Bit(Or(And(w, Low(a)), Not(Low(a))), j) <==> a <= j || Bit(w, j)
  {
    hide *;
    MaskBit(And(w, Low(a)), Not(Low(a)), j);
    MaskBit(w, Low(a), j);
    MaskBit(Low(a), Low(a), j);
    LowBit(a, j);
  }

  lemma SetUpTo(w: bv8, b: nat, j: nat)
    requires b < 8 && j < 8
    ensures Bit(Or(Low(b), And(w, Not(Low(b)))), j) <==> j < b || Bit(w, j)
  {
    hide *;
    MaskBit(Low(b), And(w, Not(Low(b))), j);
    MaskBit(w, Not(Low(b)), j);
    MaskBit(Low(b), Low(b), j);
    LowBit(b, j);
  }

  /** And those of `clearBitByRange`. */
  lemma ClearInside(w: bv8, a: nat, b: nat, j: nat)
    requires a < 8 && b < 8 && j < 8
    ensures Bit(And(w, Not(And(Not(Low(a)), Low(b)))), j) <==> !(a <= j < b) && Bit(w, j)
  {
    hide *;
    MaskBit(w, Not(And(Not(Low(a)), Low(b))), j);
    MaskBit(And(Not(Low(a)), Low(b)), Low(a), j);
    MaskBit(Not(Low(a)), Low(b), j);
    MaskBit(Low(a), Low(a), j);
    LowBit(a, j);
    LowBit(b, j);
  }

  lemma ClearFrom(w: bv8, a: nat, j: nat)
    requires a < 8 && j < 8
    ensures Bit(And(w, Low(a)), j) <==> j < a && Bit(w, j)
    ensures Bit(And(w, Not(Low(a))), j) <==> a <= j && Bit(w, j)
  {
    hide *;
    MaskBit(w, Low(a), j);
    MaskBit(w, Not(Low(a)), j);
    MaskBit(Low(a), Low(a), j);
    LowBit(a, j);
  }

  // ---- Ranges ----

  /** Bit j of byte k is in the range from bit a of byte x on. */
  predicate Behind(k: nat, j: nat, x: nat, a: nat) { x < k || (x == k && a <= j) }

  lemma Order(k: nat, j: nat, x: nat, a: nat)
    requires j < 8 && a < 8
    ensures 8 * x + a <= 8 * k + j <==> Behind(k, j, x, a)
  {
  }

  /** Every bit of the range has value v, and every other bit is as it was. */
  ghost predicate RangeBecomes(was: seq<bv8>, now: seq<bv8>, bgn: nat, end: nat, v: bool) {
    && |now| == |was|
    && forall i: nat :: i / 8 < |was| ==> BitAt(now, i) == if bgn <= i < end then v else BitAt(was, i)
  }

  /** The same, byte by byte. */
  ghost predicate ByteBecomes(w: bv8, n: bv8, k: nat, bgn: nat, end: nat, v: bool) {
    forall j: nat :: j < 8 ==>
      (Bit(n, j) <==> if Behind(k, j, bgn / 8, bgn % 8) && !Behind(k, j, end / 8, end % 8) then v else Bit(w, j))
  }

  lemma BytesBecome(was: seq<bv8>, now: seq<bv8>, bgn: nat, end: nat, v: bool)
    requires |now| == |was| && forall k :: 0 <= k < |was| ==> ByteBecomes(was[k], now[k], k, bgn, end, v)
    ensures RangeBecomes(was, now, bgn, end, v)
  {
    ByteOf(bgn);
    ByteOf(end);
    hide Bit, Behind;
    forall i: nat | i / 8 < |was|
      ensures BitAt(now, i) == if bgn <= i < end then v else BitAt(was, i)
    {
      ByteOf(i);
      Order(i / 8, i % 8, bgn / 8, bgn % 8);
      Order(i / 8, i % 8, end / 8, end % 8);
      assert ByteBecomes(was[i / 8], now[i / 8], i / 8, bgn, end, v);
    }
  }

  /** What `setBitByRange` leaves in byte k. */
  function SetByte(w: bv8, k: nat, bgn: nat, end: nat): bv8 {
    var x, y := bgn / 8, end / 8;
    if x == y && k == x then Or(w, And(Not(Low(bgn % 8)), Low(end % 8)))
    else if k == x && x < y then Or(And(w, Low(bgn % 8)), Not(Low(bgn % 8)))
    else if k == y && x < y then Or(Low(end % 8), And(w, Not(Low(end % 8))))
    else if x < k < y then 0xFF
    else w
  }

  function ClearByte(w: bv8, k: nat, bgn: nat, end: nat): bv8 {
    var x, y := bgn / 8, end / 8;
    if x == y && k == x then And(w, Not(And(Not(Low(bgn % 8)), Low(end % 8))))
    else if k == x && x < y then And(w, Low(bgn % 8))
    else if k == y && x < y then And(w, Not(Low(end % 8)))
    else if x < k < y then 0
    else w
  }

  lemma SetByteRight(w: bv8, k: nat, bgn: nat, end: nat)
    requires bgn / 8 <= end / 8
    ensures ByteBecomes(w, SetByte(w, k, bgn, end), k, bgn, end, true)
  {
    hide Bit, Low, And, Or, Not;
    forall j: nat | j < 8
      ensures Bit(SetByte(w, k, bgn, end), j) <==>
        (Behind(k, j, bgn / 8, bgn % 8) && !Behind(k, j, end / 8, end % 8)) || Bit(w, j)
    {
      SetInside(w, bgn % 8, end % 8, j);
      SetFrom(w, bgn % 8, j);
      SetUpTo(w, end % 8, j);
      ConstBit(j);
    }
  }

  lemma ClearByteRight(w: bv8, k: nat, bgn: nat, end: nat)
    requires bgn / 8 <= end / 8
    ensures ByteBecomes(w, ClearByte(w, k, bgn, end), k, bgn, end, false)
  {
    hide Bit, Low, And, Or, Not;
    forall j: nat | j < 8
      ensures Bit(ClearByte(w, k, bgn, end), j) <==>
        !(Behind(k, j, bgn / 8, bgn % 8) && !Behind(k, j, end / 8, end % 8)) && Bit(w, j)
    {
      ClearInside(w, bgn % 8, end % 8, j);
      ClearFrom(w, bgn % 8, j);
      ClearFrom(w, end % 8, j);
      ConstBit(j);
    }
  }

  class BoolVector {
    const cont: array<bv8>      // m_cont
    const used: nat             // m_bits_used

    /** The scans look at one byte behind the last used one. */
    ghost predicate Valid()
      reads cont
    {
      used / 8 + 1 < cont.Length && used < NO_BIT
    }

    constructor (cont: array<bv8>, used: nat)
      requires used / 8 + 1 < cont.Length && used < NO_BIT
      ensures Valid() && this.cont == cont && this.used == used
    {
      this.cont, this.used := cont, used;
    }

    /** Sets the bits [bgn, end) and no other, or reports a range that is empty or not in use. */
    method SetBitByRange(bgn: nat, end: nat) returns (s: int)
      requires Valid()
      modifies cont
      ensures s == if bgn < end <= used then 0 else -1
      ensures s == 0 ==> RangeBecomes(old(cont[..]), cont[..], bgn, end, true)
      ensures s != 0 ==> cont[..] == old(cont[..])
    {
      hide Low, And, Or, Not, RangeBecomes, ByteBecomes;
      if bgn >= end || end > used { return -1; }
      ghost var was := cont[..];
      InOrder(bgn, end, used);
      var bgnBit, bgnByte := bgn % 8, bgn / 8;
      var preMask: bv8 := Low(bgnBit);
      var bgnMask: bv8 := Not(preMask);
      var bgnCont := cont[bgnByte];
      var endBit, endByte := end % 8, end / 8;
      var endMask: bv8 := Low(endBit);
      var postMask: bv8 := Not(endMask);
      var endCont := cont[endByte];
      if bgnByte == endByte {
        cont[bgnByte] := Or(cont[bgnByte], And(bgnMask, endMask));
      } else {
        cont[bgnByte] := Or(And(bgnCont, preMask), bgnMask);
        while bgnByte < endByte
          invariant bgn / 8 <= bgnByte <= endByte
          invariant forall k :: 0 <= k < cont.Length && k <= bgnByte && k < endByte ==>
              cont[k] == SetByte(was[k], k, bgn, end)
          invariant forall k :: 0 <= k < cont.Length && k > bgnByte ==> cont[k] == was[k]
        {
          bgnByte := bgnByte + 1;
          cont[bgnByte] := 0xFF;
        }
        cont[endByte] := Or(endMask, And(endCont, postMask));
      }
      SetDone(was, cont[..], bgn, end);
      s := 0;
    }

    method ClearBitByRange(bgn: nat, end: nat) returns (s: int)
      requires Valid()
      modifies cont
      ensures s == if bgn < end <= used then 0 else -1
      ensures s == 0 ==> RangeBecomes(old(cont[..]), cont[..], bgn, end, false)
      ensures s != 0 ==> cont[..] == old(cont[..])
    {
      hide Low, And, Or, Not, RangeBecomes, ByteBecomes;
      if bgn >= end || end > used { return -1; }
      ghost var was := cont[..];
      InOrder(bgn, end, used);
      var bgnBit, bgnByte := bgn % 8, bgn / 8;
      var preMask: bv8 := Low(bgnBit);
      var bgnMask: bv8 := Not(preMask);
      var bgnCont := cont[bgnByte];
      var endBit, endByte := end % 8, end / 8;
      var endMask: bv8 := Low(endBit);
      var postMask: bv8 := Not(endMask);
      var endCont := cont[endByte];
      if bgnByte == endByte {
        cont[bgnByte] := And(cont[bgnByte], Not(And(bgnMask, endMask)));
      } else {
        cont[bgnByte] := And(bgnCont, preMask);
        while bgnByte < endByte
          invariant bgn / 8 <= bgnByte <= endByte
          invariant forall k :: 0 <= k < cont.Length && k <= bgnByte && k < endByte ==>
              cont[k] == ClearByte(was[k], k, bgn, end)
          invariant forall k :: 0 <= k < cont.Length && k > bgnByte ==> cont[k] == was[k]
        {
          bgnByte := bgnByte + 1;
          cont[bgnByte] := 0;
        }
        cont[bgnByte] := And(endCont, postMask);
      }
      ClearDone(was, cont[..], bgn, end);
      s := 0;
    }

    /** Number of set bits in [bgn, end); without an end, up to the last bit in use. */
    method GetPopCount(bgn: nat, end0: nat) returns (pop: nat)
      requires Valid() && bgn <= End(end0) && End(end0) / 8 < cont.Length
      ensures pop == Count(cont[..], bgn, End(end0))
    {
      hide And, Not, Low, PartOf, Count, FirstSetTable, PopCountTable, Bit;
      pop := 0;
      ghost var m := cont[..];
      ghost var lo: nat := bgn % 8;
      var bgnBit, bgnByte := bgn % 8, bgn / 8;
      var bgnMask: bv8 := Not(Low(bgnBit));
      var end := End(end0);
      var endBit, endByte := end % 8, end / 8;
      var endMask: bv8 := Low(endBit);
      ByteOf(bgn);
      ByteOf(end);
      var c: bv8 := And(cont[bgnByte], bgnMask);
      UpperPart(m, bgnByte, bgnBit);
      NoCount(m, bgn);
      while bgnByte < endByte
        invariant bgn / 8 <= bgnByte <= endByte && PartOf(m, bgnByte, c, lo, 8)
        invariant bgn <= 8 * bgnByte + lo && (bgnByte == bgn / 8 || lo == 0) && (bgnByte == bgn / 8 ==> lo == bgn % 8)
        invariant pop == Count(m, bgn, 8 * bgnByte + lo)
      {
        PartTables(m, bgnByte, c, lo, 8);
        CountSplit(m, bgn, 8 * bgnByte + lo, 8 * bgnByte + 8);
        pop := pop + PopCountTable(8)[c as int];
        bgnByte := bgnByte + 1;
        c := cont[bgnByte];
        WholeByte(m, bgnByte);
        lo := 0;
      }
      LowerPart(m, bgnByte, c, lo, endBit);
      c := And(c, endMask);
      PartTables(m, bgnByte, c, lo, endBit);
      CountSplit(m, bgn, 8 * bgnByte + lo, end);
      pop := pop + PopCountTable(8)[c as int];
    }

    function End(end: nat): nat { if end != NO_BIT then end else used }

    /** The first set bit from bi on, uint64_t(-1) when no bit in use is set there. */
    method GetNextSetBit(bi: nat) returns (got: nat)
      requires Valid() && bi <= used
      ensures got != NO_BIT ==> bi <= got < used && BitAt(cont[..], got)
      ensures forall i :: bi <= i < used && i < got ==> !BitAt(cont[..], i)
    {
      hide And, Not, Low, PartOf, FirstSetTable, PopCountTable, Bit, BitAt;
      ghost var m := cont[..];
      ghost var lo: nat := bi % 8;
      var bitBgn, byteIdx := bi % 8, bi / 8;
      var gotIdx := byteIdx * 8;
      var bcont: bv8 := And(cont[byteIdx], Not(Low(bitBgn)));
      var gotBit := 0;
      var bitUsed, byteUsed := used % 8, used / 8;
      ByteOf(bi);
      ByteOf(used);
      UpperPart(m, byteIdx, bitBgn);
      while true
        invariant bi / 8 <= byteIdx <= byteUsed && gotIdx == 8 * byteIdx && PartOf(m, byteIdx, bcont, lo, 8)
        invariant bi <= 8 * byteIdx + lo && lo < 8
        invariant forall i :: bi <= i < 8 * byteIdx + lo ==> !BitAt(m, i)
        decreases byteUsed - byteIdx
      {
        PartTables(m, byteIdx, bcont, lo, 8);
        gotBit := FirstSetTable(8)[bcont as int];
        if gotBit != NOT_FOUND {
          gotIdx := gotIdx + gotBit;
          break;
        }
        gotIdx := gotIdx + 8;
        byteIdx := byteIdx + 1;
        bcont := cont[byteIdx];
        WholeByte(m, byteIdx);
        lo := 0;
        if byteIdx > byteUsed { break; }
      }
      got := if byteIdx < byteUsed || (byteIdx == byteUsed && gotBit < bitUsed) then gotIdx else NO_BIT;
    }
  }

  lemma InOrder(bgn: nat, end: nat, used: nat)
    requires bgn < end <= used
    ensures bgn / 8 <= end / 8 <= used / 8
  {
  }

  lemma SetDone(was: seq<bv8>, now: seq<bv8>, bgn: nat, end: nat)
    requires |now| == |was| && bgn / 8 <= end / 8
    requires forall k :: 0 <= k < |was| ==> now[k] == SetByte(was[k], k, bgn, end)
    ensures RangeBecomes(was, now, bgn, end, true)
  {
    hide SetByte, ByteBecomes, RangeBecomes;
    forall k | 0 <= k < |was|
      ensures ByteBecomes(was[k], now[k], k, bgn, end, true)
    {
      SetByteRight(was[k], k, bgn, end);
    }
    BytesBecome(was, now, bgn, end, true);
  }

  lemma ClearDone(was: seq<bv8>, now: seq<bv8>, bgn: nat, end: nat)
    requires |now| == |was| && bgn / 8 <= end / 8
    requires forall k :: 0 <= k < |was| ==> now[k] == ClearByte(was[k], k, bgn, end)
    ensures RangeBecomes(was, now, bgn, end, false)
  {
    hide ClearByte, ByteBecomes, RangeBecomes;
    forall k | 0 <= k < |was|
      ensures ByteBecomes(was[k], now[k], k, bgn, end, false)
    {
      ClearByteRight(was[k], k, bgn, end);
    }
    BytesBecome(was, now, bgn, end, false);
  }
}
