// BitVector: values of up to 32 bits, packed into memory that is read and written in 64-bit words.
//
// The memory is modelled bit by bit.  On a little-endian machine bit k of the word at byte address a
// is bit 8 * a + k of the memory, so a word is a run of 64 bits.

module BitVectors {
  import opened Bytes
  import opened Bits

  const UNIT: nat := 64

  // ---- 64-bit words ----

  function And(a: Bits, b: Bits): (c: Bits)
    requires |a| == |b|
    ensures |c| == |a|
  {
    seq(|a|, i requires 0 <= i < |a| => a[i] && b[i])
  }

  function Or(a: Bits, b: Bits): (c: Bits)
    requires |a| == |b|
    ensures |c| == |a|
  {
    seq(|a|, i requires 0 <= i < |a| => a[i] || b[i])
  }

  function Not(a: Bits): (c: Bits)
    ensures |c| == |a|
  {
    seq(|a|, i requires 0 <= i < |a| => !a[i])
  }

  function Shl(a: Bits, k: nat): (c: Bits)
    ensures |c| == |a|
  {
    seq(|a|, i requires 0 <= i < |a| => i >= k && a[i - k])
  }

  function Shr(a: Bits, k: nat): (c: Bits)
    ensures |c| == |a|
  {
    seq(|a|, i requires 0 <= i < |a| => i + k < |a| && a[i + k])
  }

  /** (1 << w) - 1. */
  function Mask(w: nat): (c: Bits)
    ensures |c| == UNIT
  {
    seq(UNIT, i => i < w)
  }

  lemma {:induction false} FromBitsZeros(b: Bits, n: nat)
    ensures FromBits(b + Zeros(n)) == FromBits(b)
  {
    if b == [] {
      if n > 0 {
        FromBitsZeros([], n - 1);
        assert [] + Zeros(n) == Zeros(n) && Zeros(n)[1..] == Zeros(n - 1) == [] + Zeros(n - 1);
      }
    } else {
      FromBitsZeros(b[1..], n);
      assert (b + Zeros(n))[1..] == b[1..] + Zeros(n);
    }
  }

  lemma {:induction false} ToBitsPrefix(n: nat, w: nat, x: nat)
    requires w <= x
    ensures ToBits(n, x)[..w] == ToBits(n, w)
  {
    if w > 0 { ToBitsPrefix(n / 2, w - 1, x - 1); }
  }

  lemma {:induction false} ToBitsZero(w: nat)
    ensures ToBits(0, w) == Zeros(w)
  {
    if w > 0 { ToBitsZero(w - 1); }
  }

  /** `getBitUnit`: where the word for bit bi begins, and the bit's index in it.  A value that would
      cross the end of its word is reached through the word four bytes further. */
  function UnitOf(bi: nat, w: nat): (nat, nat)
    requires w <= 32
  {
    var unit, idx := bi / 64 * 64, bi % 64;
    if idx + w > 64 then (unit + 32, idx - 32) else (unit, idx)
  }

  /** The word of a value inside a capacity of whole bytes ends at most seven bytes behind it. */
  lemma UnitSlack(bi: nat, w: nat, cap: nat)
    requires 0 < w <= 32 && bi + w <= cap && cap % 8 == 0
    ensures UnitOf(bi, w).0 + UNIT <= cap + 56
    ensures UnitOf(bi, w).0 + UnitOf(bi, w).1 == bi && UnitOf(bi, w).1 + w <= UNIT
  {
    UnitSlackIn(bi / 64, bi % 64, cap / 8, w);
  }

  lemma UnitSlackIn(q: nat, r: nat, e: nat, w: nat)
    requires 0 < w <= 32 && r < 64 && 64 * q + r + w <= 8 * e
    ensures r + w > 64 ==> 64 * q + 32 + 64 <= 8 * e + 56
    ensures r + w <= 64 ==> 64 * q + 64 <= 8 * e + 56
  {
  }

  /** The low w bits of a value, as a word. */
  function Low(val: nat, w: nat): (v: Bits)
    ensures |v| == UNIT
  {
    And(ToBits(val, UNIT), Mask(w))
  }

  lemma LowBits(val: nat, w: nat)
    requires w <= UNIT
    ensures Low(val, w) == ToBits(val, w) + Zeros(UNIT - w)
  {
    ToBitsPrefix(val, w, UNIT);
    var t := ToBits(val, UNIT);
    assert forall i :: 0 <= i < w ==> t[i] == t[..w][i];
  }

  /** Clearing w bits of a word and putting a value there. */
  lemma SetInWord(u: Bits, uidx: nat, w: nat, val: nat)
    requires |u| == UNIT && uidx + w <= UNIT
    ensures Or(And(u, Not(Shl(Mask(w), uidx))), Shl(Low(val, w), uidx)) == u[..uidx] + ToBits(val, w) + u[uidx + w..]
  {
    LowBits(val, w);
    hide Low, ToBits;
  }

  /** Setting the bits of a value in a word. */
  lemma OrInWord(u: Bits, uidx: nat, w: nat, val: nat)
    requires |u| == UNIT && uidx + w <= UNIT
    ensures Or(u, Shl(Low(val, w), uidx)) == u[..uidx] + Or(u[uidx..uidx + w], ToBits(val, w)) + u[uidx + w..]
  {
    LowBits(val, w);
    hide Low, ToBits;
  }

  lemma ClearInWord(u: Bits, n: nat)
    requires |u| == UNIT && n <= UNIT
    ensures And(u, Not(Mask(n))) == Zeros(n) + u[n..]
  {
  }

  lemma SubSlice(m: Bits, a: nat, n: nat, i: nat, j: nat)
    requires a + n <= |m| && i <= j <= n
    ensures m[a..a + n][i..j] == m[a + i..a + j]
  {
    var l, r := m[a..a + n][i..j], m[a + i..a + j];
    assert |l| == |r| && forall k :: 0 <= k < |l| ==> l[k] == r[k];
  }

  lemma GetFromWord(u: Bits, uidx: nat, w: nat)
    requires |u| == UNIT && uidx + w <= UNIT
    ensures FromBits(Shr(And(u, Shl(Mask(w), uidx)), uidx)) == FromBits(u[uidx..uidx + w])
  {
    hide FromBits;
    FromBitsZeros(u[uidx..uidx + w], UNIT - w);
    assert Shr(And(u, Shl(Mask(w), uidx)), uidx) == u[uidx..uidx + w] + Zeros(UNIT - w);
  }

  lemma WordOf(m: Bits, pos: nat, uidx: nat, w: nat)
    requires pos + UNIT <= |m| && uidx + w <= UNIT
    ensures var u := m[pos..pos + UNIT];
            FromBits(Shr(And(u, Shl(Mask(w), uidx)), uidx)) == FromBits(m[pos + uidx..pos + uidx + w])
  {
    hide Shr, And, Shl, Mask, FromBits;
    GetFromWord(m[pos..pos + UNIT], uidx, w);
    SubSlice(m, pos, UNIT, uidx, uidx + w);
  }

  /** Memory with the bits b at a position. */
  function Put(m: Bits, pos: nat, b: Bits): (r: Bits)
    requires pos + |b| <= |m|
    ensures |r| == |m|
  {
    m[..pos] + b + m[pos + |b|..]
  }

  /** Rewriting only part of a word rewrites only that part of the memory. */
  lemma PutInWord(m: Bits, pos: nat, uidx: nat, b: Bits)
    requires pos + UNIT <= |m| && uidx + |b| <= UNIT
    ensures var u := m[pos..pos + UNIT];
            Put(m, pos, u[..uidx] + b + u[uidx + |b|..]) == Put(m, pos + uidx, b)
  {
    var u := m[pos..pos + UNIT];
    var l, r := Put(m, pos, u[..uidx] + b + u[uidx + |b|..]), Put(m, pos + uidx, b);
    forall k | 0 <= k < |m|
      ensures l[k] == r[k]
    {
    }
  }

  // ---- Appending in memory of any content ----

  /** Memory in which the bits b are set in addition, at a position. */
  function PutOr(m: Bits, pos: nat, b: Bits): (r: Bits)
    requires pos + |b| <= |m|
    ensures |r| == |m|
  {
    Put(m, pos, Or(m[pos..pos + |b|], b))
  }

  /** Over zeros that is putting them there. */
  lemma PutOrZeros(m: Bits, pos: nat, b: Bits)
    requires pos + |b| <= |m| && forall k :: pos <= k < pos + |b| ==> !m[k]
    ensures PutOr(m, pos, b) == Put(m, pos, b)
  {
    assert Or(m[pos..pos + |b|], b) == b;
  }

  /** Where the word begins that a bit lies in. */
  function WordAt(bit: nat): (r: nat)
    ensures r <= bit < r + UNIT
  {
    bit / UNIT * UNIT
  }

  lemma WordSlack(bit: nat, cap: nat)
    requires bit < cap && cap % 8 == 0
    ensures WordAt(bit) + UNIT <= cap + 56
  {
    assert cap == 8 * (cap / 8) && UNIT * (bit / UNIT) < 8 * (cap / 8);
  }

  /** Bits that are cleared when a word is opened: no more than the vector still has. */
  function OpenBits(cap: nat, next64: nat): (n: nat)
    requires next64 < cap
    ensures n <= UNIT && next64 + n <= cap
  {
    if next64 + UNIT <= cap then UNIT else cap - next64
  }

  /** The memory and the next word after `append` has made room for a value. */
  function OpenMem(m: Bits, at: nat, cap: nat, used: nat, w: nat, next64: nat): (r: (Bits, nat))
    requires at + cap <= |m| && used + w <= cap
    ensures |r.0| == |m|
  {
    if used + w <= next64 then (m, next64)
    else (Put(m, at + WordAt(next64), Zeros(OpenBits(cap, next64))), next64 + UNIT)
  }

  /** The memory and the next word after `append`, whatever the memory held before. */
  function AppendMem(m: Bits, at: nat, cap: nat, used: nat, w: nat, next64: nat, val: nat): (r: (Bits, nat))
    requires at + cap <= |m| && used + w <= cap
    ensures |r.0| == |m|
  {
    var (o, next) := OpenMem(m, at, cap, used, w, next64);
    (PutOr(o, at + used, ToBits(val, w)), next)
  }

  lemma NoBits(val: nat)
    ensures Cut(val, 0) == 0
  {
  }

  lemma ElementInMem(m: Bits, at: nat, vals: seq<nat>, w: nat, i: nat)
    requires i < |vals| && at + Total(w, |vals|) <= |m| && m[at..at + Total(w, |vals|)] == Pack(vals, w)
    ensures Total(w, i) + w <= Total(w, |vals|)
    ensures FromBits(m[at + Total(w, i)..at + Total(w, i) + w]) == Cut(vals[i], w)
  {
    hide *;
    ElementFits(w, i, |vals|);
    PackLength(vals, w);
    PackElement(vals, w, i);
    ElementIs(Pack(vals, w), i, w);
    SubSlice(m, at, Total(w, |vals|), Total(w, i), Total(w, i) + w);
  }

  lemma ElementIs(b: Bits, i: nat, w: nat)
    requires Total(w, i) + w <= |b|
    ensures Element(b, i, w) == FromBits(b[Total(w, i)..Total(w, i) + w])
  {
    hide FromBits, Total;
  }

  // ---- A vector in memory ----

  /** Bits [at, at + cap) of the memory belong to a vector of the packed values: they stand at the
      front, and behind them everything is zero as far as the next word to be opened. */
  ghost predicate Holds(m: Bits, at: nat, cap: nat, next64: nat, vals: seq<nat>, w: nat) {
    && 0 < w <= 32 && at % 8 == 0 && cap % 8 == 0 && next64 % UNIT == 0
    && at + cap + 56 <= |m| && Total(w, |vals|) <= cap && Total(w, |vals|) <= next64
    && m[at..at + Total(w, |vals|)] == Pack(vals, w)
    && forall k :: at + Total(w, |vals|) <= k < at + next64 && k < at + cap ==> !m[k]
  }

  /** The memories differ at most in bits [lo, hi). */
  ghost predicate OnlyIn(m: Bits, r: Bits, lo: nat, hi: nat) {
    |m| == |r| && forall k :: 0 <= k < |m| && !(lo <= k < hi) ==> m[k] == r[k]
  }

  lemma PutOnlyIn(m: Bits, pos: nat, b: Bits, lo: nat, hi: nat)
    requires lo <= pos && pos + |b| <= hi && pos + |b| <= |m|
    ensures OnlyIn(m, Put(m, pos, b), lo, hi)
  {
  }

  lemma OnlyInTrans(a: Bits, b: Bits, c: Bits, lo: nat, hi: nat)
    requires OnlyIn(a, b, lo, hi) && OnlyIn(b, c, lo, hi)
    ensures OnlyIn(a, c, lo, hi)
  {
  }

  lemma HoldsFacts(m: Bits, at: nat, cap: nat, next64: nat, vals: seq<nat>, w: nat)
    requires Holds(m, at, cap, next64, vals, w)
    ensures 0 < w <= 32 && at % 8 == 0 && cap % 8 == 0 && next64 % UNIT == 0
    ensures at + cap + 56 <= |m| && Total(w, |vals|) <= cap && Total(w, |vals|) <= next64
  {
  }

  lemma HoldsBounds(m: Bits, at: nat, cap: nat, next64: nat, vals: seq<nat>, w: nat)
    requires Holds(m, at, cap, next64, vals, w)
    ensures 0 < w <= 32 && at + cap + 56 <= |m| && Total(w, |vals|) <= cap && Total(w, |vals|) <= next64
  {
  }

  lemma PutSlice(m: Bits, at: nat, used: nat, off: nat, b: Bits)
    requires off + |b| <= used && at + used <= |m|
    ensures var u := m[at..at + used]; Put(m, at + off, b)[at..at + used] == u[..off] + b + u[off + |b|..]
  {
    var u, r := m[at..at + used], Put(m, at + off, b);
    assert r == m[..at] + (u[..off] + b + u[off + |b|..]) + m[at + used..];
  }

  lemma HoldsSet(m: Bits, at: nat, cap: nat, next64: nat, vals: seq<nat>, w: nat, i: nat, val: nat)
    requires Holds(m, at, cap, next64, vals, w) && i < |vals|
    ensures Total(w, i) + w <= Total(w, |vals|) && Holds(Put(m, at + Total(w, i), ToBits(val, w)), at, cap, next64,
        vals[i := val], w)
  {
    hide *;
    HoldsFacts(m, at, cap, next64, vals, w);
    PackUpdate(vals, w, i, val);
    var used, r := Total(w, |vals|), Put(m, at + Total(w, i), ToBits(val, w));
    PutSlice(m, at, used, Total(w, i), ToBits(val, w));
    PutOnlyIn(m, at + Total(w, i), ToBits(val, w), at, at + used);
    SlicePacked(m, at, cap, next64, vals, w);
    HoldsSame(m, r, at, cap, next64, vals, vals[i := val], w);
  }

  lemma SlicePacked(m: Bits, at: nat, cap: nat, next64: nat, vals: seq<nat>, w: nat)
    requires Holds(m, at, cap, next64, vals, w)
    ensures m[at..at + Total(w, |vals|)] == Pack(vals, w)
  {
  }

  lemma HoldsSame(m: Bits, r: Bits, at: nat, cap: nat, next64: nat, vals: seq<nat>, vs: seq<nat>, w: nat)
    requires Holds(m, at, cap, next64, vals, w) && |vs| == |vals|
    requires OnlyIn(m, r, at, at + Total(w, |vals|)) && r[at..at + Total(w, |vals|)] == Pack(vs, w)
    ensures Holds(r, at, cap, next64, vs, w)
  {
    hide Pack;
  }

  lemma SliceKept(m: Bits, r: Bits, lo: nat, hi: nat, a: nat, b: nat)
    requires OnlyIn(m, r, lo, hi) && a <= b <= lo && b <= |m|
    ensures |r| == |m| && r[a..b] == m[a..b]
  {
  }

  /** Clearing the next word keeps the values and leaves room for one more. */
  lemma HoldsGrown(m: Bits, r: Bits, at: nat, cap: nat, next64: nat, vals: seq<nat>, w: nat)
    requires Holds(m, at, cap, next64, vals, w) && next64 < cap
    requires r == Put(m, at + next64, Zeros(OpenBits(cap, next64)))
    ensures Holds(r, at, cap, next64 + UNIT, vals, w) && OnlyIn(m, r, at, at + cap)
  {
    var n := OpenBits(cap, next64);
    PutOnlyIn(m, at + next64, Zeros(n), at + next64, at + cap);
    SliceKept(m, r, at + next64, at + cap, at, at + Total(w, |vals|));
    assert forall k :: at + next64 <= k < at + next64 + n ==> !r[k];
    hide Pack, Total, Put, Zeros;
  }

  lemma HoldsOpen(m: Bits, at: nat, cap: nat, next64: nat, vals: seq<nat>, w: nat)
    requires Holds(m, at, cap, next64, vals, w) && Total(w, |vals|) + w <= cap
    ensures var (r, next) := OpenMem(m, at, cap, Total(w, |vals|), w, next64);
            Holds(r, at, cap, next, vals, w) && Total(w, |vals|) + w <= next && OnlyIn(m, r, at, at + cap)
  {
    hide Pack, Total, Put, Holds;
    HoldsFacts(m, at, cap, next64, vals, w);
    if Total(w, |vals|) + w > next64 {
      assert WordAt(next64) == next64;
      HoldsGrown(m, Put(m, at + next64, Zeros(OpenBits(cap, next64))), at, cap, next64, vals, w);
    }
  }

  lemma HoldsAppend(m: Bits, at: nat, cap: nat, next64: nat, vals: seq<nat>, w: nat, val: nat)
    requires Holds(m, at, cap, next64, vals, w) && Total(w, |vals|) + w <= cap && Total(w, |vals|) + w <= next64
    ensures Holds(PutOr(m, at + Total(w, |vals|), ToBits(val, w)), at, cap, next64, vals + [val], w)
    ensures OnlyIn(m, PutOr(m, at + Total(w, |vals|), ToBits(val, w)), at, at + cap)
  {
    hide *;
    HoldsFacts(m, at, cap, next64, vals, w);
    SlicePacked(m, at, cap, next64, vals, w);
    ZerosAhead(m, at, cap, next64, vals, w);
    PackSnoc(vals, val, w);
    PutOrZeros(m, at + Total(w, |vals|), ToBits(val, w));
    PutOnlyIn(m, at + Total(w, |vals|), ToBits(val, w), at, at + cap);
    AppendAt(m, at, cap, next64, Total(w, |vals|), Pack(vals, w), vals + [val], w, val);
  }

  lemma AppendAt(m: Bits, at: nat, cap: nat, next64: nat, used: nat, p: Bits, vs: seq<nat>, w: nat, val: nat)
    requires 0 < w <= 32 && at % 8 == 0 && cap % 8 == 0 && next64 % UNIT == 0
    requires at + cap + 56 <= |m| && Total(w, |vs|) == used + w <= cap && used + w <= next64
    requires forall k :: at + used <= k < at + next64 && k < at + cap ==> !m[k]
    requires m[at..at + used] == p && Pack(vs, w) == p + ToBits(val, w)
    ensures Holds(Put(m, at + used, ToBits(val, w)), at, cap, next64, vs, w)
  {
    hide *;
    PutBehind(m, at, used, ToBits(val, w));
    PutOnlyIn(m, at + used, ToBits(val, w), at, at + used + w);
    HoldsMade(m, Put(m, at + used, ToBits(val, w)), at, cap, next64, used, vs, w);
  }

  lemma ZerosAhead(m: Bits, at: nat, cap: nat, next64: nat, vals: seq<nat>, w: nat)
    requires Holds(m, at, cap, next64, vals, w)
    ensures forall k :: at + Total(w, |vals|) <= k < at + next64 && k < at + cap ==> !m[k]
  {
  }

  /** A vector that grew by one value over zeros. */
  lemma HoldsMade(m: Bits, r: Bits, at: nat, cap: nat, next64: nat, used: nat, vs: seq<nat>, w: nat)
    requires 0 < w <= 32 && at % 8 == 0 && cap % 8 == 0 && next64 % UNIT == 0
    requires at + cap + 56 <= |m| && Total(w, |vs|) == used + w <= cap && used + w <= next64
    requires forall k :: at + used <= k < at + next64 && k < at + cap ==> !m[k]
    requires OnlyIn(m, r, at, at + used + w) && r[at..at + (used + w)] == Pack(vs, w)
    ensures Holds(r, at, cap, next64, vs, w)
  {
    hide Pack;
  }

  lemma PutBehind(m: Bits, at: nat, used: nat, b: Bits)
    requires at + used + |b| <= |m|
    ensures Put(m, at + used, b)[at..at + (used + |b|)] == m[at..at + used] + b
  {
  }

  lemma PutOrNothing(m: Bits, pos: nat, n: nat)
    requires pos + n <= |m|
    ensures PutOr(m, pos, Zeros(n)) == m
  {
  }

  /** Appending to a vector that holds its values, with zeros as far as the next word, gives one that
      holds one more. */
  lemma HoldsAppendMem(m: Bits, at: nat, cap: nat, next64: nat, vals: seq<nat>, w: nat, val: nat)
    requires Holds(m, at, cap, next64, vals, w) && Total(w, |vals|) + w <= cap
    ensures at + cap <= |m|
    ensures var (r, next) := AppendMem(m, at, cap, Total(w, |vals|), w, next64, val);
            Holds(r, at, cap, next, vals + [val], w) && OnlyIn(m, r, at, at + cap)
  {
    hide Holds, Pack, Put, PutOr, OnlyIn, ToBits, Total, OpenMem;
    HoldsBounds(m, at, cap, next64, vals, w);
    var (o, next) := OpenMem(m, at, cap, Total(w, |vals|), w, next64);
    HoldsOpen(m, at, cap, next64, vals, w);
    HoldsAppend(o, at, cap, next, vals, w, val);
    OnlyInTrans(m, o, PutOr(o, at + Total(w, |vals|), ToBits(val, w)), at, at + cap);
  }

  lemma OpenMemOnlyIn(m: Bits, at: nat, cap: nat, used: nat, w: nat, next64: nat)
    requires at + cap <= |m| && used + w <= cap
    ensures OnlyIn(m, OpenMem(m, at, cap, used, w, next64).0, at, at + cap)
  {
    if used + w > next64 {
      PutOnlyIn(m, at + WordAt(next64), Zeros(OpenBits(cap, next64)), at, at + cap);
    }
  }

  lemma PutOrOnlyIn(m: Bits, pos: nat, b: Bits, lo: nat, hi: nat)
    requires lo <= pos && pos + |b| <= hi && pos + |b| <= |m|
    ensures OnlyIn(m, PutOr(m, pos, b), lo, hi)
  {
    hide Put, Or, OnlyIn;
    PutOnlyIn(m, pos, Or(m[pos..pos + |b|], b), lo, hi);
  }

  /** Appending changes the vector's own bits only, whatever they were. */
  lemma AppendMemOnlyIn(m: Bits, at: nat, cap: nat, used: nat, w: nat, next64: nat, val: nat)
    requires at + cap <= |m| && used + w <= cap
    ensures OnlyIn(m, AppendMem(m, at, cap, used, w, next64, val).0, at, at + cap)
  {
    hide ToBits, OpenMem, PutOr, OnlyIn;
    var (o, next) := OpenMem(m, at, cap, used, w, next64);
    OpenMemOnlyIn(m, at, cap, used, w, next64);
    PutOrOnlyIn(o, at + used, ToBits(val, w), at, at + cap);
    OnlyInTrans(m, o, PutOr(o, at + used, ToBits(val, w)), at, at + cap);
  }

  /** Where `init2read` expects the next word to begin, with the arguments in the order it passes them. */
  function NextAfterRead(used: nat): nat
    requires used > 0
  {
    CalcAlignBegin(64, used) + 64
  }

  class BitVector {
    const mem: array<bool>     // memory around m_cont
    const at: nat              // first bit of m_cont
    const w: nat               // m_mask_size
    var cap: nat               // m_bits_cap
    var used: nat              // m_bits_used
    var elems: nat             // m_elem_used
    var next64: nat            // m_next_64bit
    ghost var vals: seq<nat>

    constructor (mem: array<bool>, at: nat, w: nat)
      ensures this.mem == mem && this.at == at && this.w == w
    {
      this.mem, this.at, this.w := mem, at, w;
      cap, used, elems, next64, vals := 0, 0, 0, 0, [];
    }

    /** A vector of no bits (the levels of a column that is never repeated) keeps nothing. */
    ghost predicate Valid()
      reads this, mem
    {
      ValidIn(mem[..])
    }

    /** The vector as it would be valid in memory m. */
    ghost predicate ValidIn(m: Bits)
      reads this
    {
      if w == 0 then used == elems == 0
      else elems == |vals| && used == Total(w, elems) && Holds(m, at, cap, next64, vals, w)
    }

    ghost predicate Filled()
      reads this, mem
    {
      elems == |vals| && used == Total(w, elems) && Holds(mem[..], at, cap, next64, vals, w)
    }

    /** Bits that belong to the vector. */
    function Span(): nat
      reads this
    {
      if w == 0 then 0 else cap
    }

    /** One more value fits. */
    predicate Room()
      reads this
    {
      w == 0 || used + w <= cap
    }

    /** The vector was opened on some memory and has been given the values `vals`, whatever its bits are. */
    ghost predicate Open()
      reads this, mem
    {
      w == 0 ||
      (0 < w <= 32 && at % 8 == 0 && cap % 8 == 0 && at + cap + 56 <= mem.Length
      && elems == |vals| && used == Total(w, elems) <= cap)
    }

    /** What reading needs. */
    ghost predicate Readable()
      reads this, mem
    {
      Open() && (w > 0 ==> mem[at..at + used] == Pack(vals, w))
    }

    /** `init2write`: clears its `len` bytes. */
    method Init2Write(len: nat)
      requires w <= 32 && at % 8 == 0 && at + 8 * len + 56 <= mem.Length
      modifies this, mem
      ensures Valid() && vals == [] && used == elems == 0
      ensures w > 0 ==> cap == 8 * len && next64 == 0 && mem[..] == Put(old(mem[..]), at, Zeros(8 * len))
      ensures w == 0 ==> mem[..] == old(mem[..])
      ensures OnlyIn(old(mem[..]), mem[..], at, at + 8 * len)
    {
      used, elems, vals := 0, 0, [];
      if w > 0 {
        forall i | at <= i < at + 8 * len { mem[i] := false; }
        cap, next64 := 8 * len, 0;
        assert mem[..][at..at + 0] == [];
      }
    }

    /** `init2read`: the bytes hold `elnum` packed values already; refused when they cannot.  With no values
        the source divides by zero, which is a failure here. */
    method Init2Read(elnum: nat, len: nat, ghost vs: seq<nat>) returns (ok: bool)
      requires w <= 32 && at % 8 == 0 && at + 8 * len + 56 <= mem.Length
      requires |vs| == elnum && (Total(w, elnum) <= 8 * len ==> Pack(vs, w) <= mem[at..])
      modifies this
      ensures ok <==> w == 0 || (elnum > 0 && Total(w, elnum) <= 8 * len)
      ensures ok ==> Readable() && vals == vs
      ensures w > 0 ==> cap == 8 * len
      ensures ok && w > 0 ==> next64 == NextAfterRead(used)
      ensures !ok ==> used == old(used) && elems == old(elems) && next64 == old(next64)
    {
      hide Pack, Total;
      vals := vs;
      PackLength(vs, w);
      UsedIs(w, elnum);
      if w > 0 { cap := 8 * len; }
      var bused := w * elnum;
      ok := bused <= 8 * len && (w == 0 || elnum > 0);
      if w > 0 && ok {
        used, elems := bused, elnum;
        next64 := CalcAlignBegin(64, used) + 64;
        assert mem[at..at + used] == mem[at..][..used];
      }
    }

    /** `copyContent`: the bytes in use of another vector, and its counters; refused when that one is larger. */
    method CopyContent(src: BitVector) returns (ok: bool)
      requires w == src.w && Open() && src.Readable() && mem != src.mem
      modifies this`used, this`elems, this`next64, this`vals, mem
      ensures ok <==> w == 0 || src.cap <= cap
      ensures ok && w > 0 ==> Readable() && vals == src.vals && used == src.used && next64 == src.next64
      ensures ok && w > 0 ==>
                var n := 8 * BytesUsed(used);
                src.at + n <= src.mem.Length && at + n <= mem.Length
                && mem[..] == Put(old(mem[..]), at, src.mem[src.at..src.at + n])
      ensures !ok ==> used == old(used) && elems == old(elems) && next64 == old(next64) && vals == old(vals)
      ensures !ok || w == 0 ==> mem[..] == old(mem[..])
      ensures OnlyIn(old(mem[..]), mem[..], at, at + Span())
    {
      hide Pack, Total, Put, OnlyIn, BytesUsed;
      ok := w == 0 || src.cap <= cap;
      Unchanged(mem[..], at, at + Span());
      if w > 0 && ok {
        InBytes(src.used, src.cap);
        CopyBits(src, 8 * BytesUsed(src.used));
        PutIs(old(mem[..]), mem[..], at, src.mem[..], src.at, 8 * BytesUsed(src.used), src.used);
        assert mem[..][at..at + src.used] == mem[at..at + src.used];
        assert src.mem[..][src.at..src.at + src.used] == src.mem[src.at..src.at + src.used];
        used, elems, next64, vals := src.used, src.elems, src.next64, src.vals;
      }
    }

    /** memcpy of n bits. */
    method CopyBits(src: BitVector, n: nat)
      requires mem != src.mem && at + n <= mem.Length && src.at + n <= src.mem.Length
      modifies mem
      ensures mem[..] == Put(old(mem[..]), at, src.mem[src.at..src.at + n])
    {
      forall i | at <= i < at + n { mem[i] := src.mem[src.at + (i - at)]; }
    }

    method StoreWord(pos: nat, u: Bits)
      requires |u| == UNIT && pos + UNIT <= mem.Length
      modifies mem
      ensures mem[..] == Put(old(mem[..]), pos, u)
    {
      forall i | pos <= i < pos + UNIT { mem[i] := u[i - pos]; }
    }

    /** `getByBit`. */
    method GetByBit(bi: nat) returns (val: nat)
      requires 0 < w <= 32 && cap % 8 == 0 && bi + w <= cap && at + cap + 56 <= mem.Length
      ensures val == FromBits(mem[..][at + bi..at + bi + w])
    {
      UnitSlack(bi, w, cap);
      var (ubgn, uidx) := UnitOf(bi, w);
      val := GetInUnit(ubgn, uidx);
    }

    method GetInUnit(ubgn: nat, uidx: nat) returns (val: nat)
      requires at + ubgn + UNIT <= mem.Length && uidx + w <= UNIT
      ensures val == FromBits(mem[..][at + (ubgn + uidx)..at + (ubgn + uidx) + w])
    {
      hide Shr, And, Shl, Mask, FromBits;
      var u := mem[..][at + ubgn..at + ubgn + UNIT];
      WordOf(mem[..], at + ubgn, uidx, w);
      val := FromBits(Shr(And(u, Shl(Mask(w), uidx)), uidx));
    }

    /** `get`: the i-th value, cut to w bits when it was stored. */
    method Get(i: nat) returns (val: nat)
      requires Readable() && i < |vals|
      ensures val == Cut(vals[i], w)
    {
      hide Pack, FromBits, Pow2, Cut;
      if w == 0 {
        val := 0;
        NoBits(vals[i]);
      } else {
        assert mem[..][at..at + used] == mem[at..at + used];
        ElementInMem(mem[..], at, vals, w, i);
        val := GetByBit(Total(w, i));
      }
    }

    /** `setByBit`: only the w bits from bit bi on change. */
    method SetByBit(bi: nat, val: nat)
      requires 0 < w <= 32 && cap % 8 == 0 && bi + w <= cap && at + cap + 56 <= mem.Length
      modifies mem
      ensures mem[..] == Put(old(mem[..]), at + bi, ToBits(val, w))
    {
      UnitSlack(bi, w, cap);
      var (ubgn, uidx) := UnitOf(bi, w);
      SetInUnit(ubgn, uidx, val);
    }

    method SetInUnit(ubgn: nat, uidx: nat, val: nat)
      requires at + ubgn + UNIT <= mem.Length && uidx + w <= UNIT
      modifies mem
      ensures mem[..] == Put(old(mem[..]), at + (ubgn + uidx), ToBits(val, w))
    {
      hide Shr, And, Or, Not, Shl, Mask, Low, Put, ToBits;
      var u := mem[..][at + ubgn..at + ubgn + UNIT];
      SetInWord(u, uidx, w, val);
      PutInWord(mem[..], at + ubgn, uidx, ToBits(val, w));
      u := And(u, Not(Shl(Mask(w), uidx)));
      u := Or(u, Shl(Low(val, w), uidx));
      StoreWord(at + ubgn, u);
    }

    method SetValue(i: nat, val: nat)
      requires Filled() && i < |vals|
      modifies this`vals, mem
      ensures Filled() && vals == old(vals)[i := val]
      ensures OnlyIn(old(mem[..]), mem[..], at, at + cap)
    {
      hide Holds, Pack, Put, OnlyIn, ToBits;
      HoldsFacts(mem[..], at, cap, next64, vals, w);
      HoldsSet(mem[..], at, cap, next64, vals, w, i, val);
      PutOnlyIn(mem[..], at + Total(w, i), ToBits(val, w), at, at + cap);
      SetByBit(Total(w, i), val);
      vals := vals[i := val];
    }

    /** The start of `append`: opens the next word when the value would not fit into those opened so far. */
    method OpenUnit()
      requires w > 0 && Open() && used + w <= cap
      modifies this`next64, mem
      ensures (mem[..], next64) == OpenMem(old(mem[..]), at, cap, used, w, old(next64))
    {
      hide Put, Total;
      if used + w > next64 {
        ClearUnit();
        next64 := next64 + UNIT;
      }
    }

    method ClearUnit()
      requires next64 < cap && cap % 8 == 0 && at + cap + 56 <= mem.Length
      modifies mem
      ensures mem[..] == Put(old(mem[..]), at + WordAt(next64), Zeros(OpenBits(cap, next64)))
    {
      hide And, Not, Mask, Put, Zeros, WordAt;
      WordSlack(next64, cap);
      var pos := at + WordAt(next64);
      if next64 + UNIT <= cap {
        StoreWord(pos, Zeros(UNIT));
      } else {
        var myLast := cap - next64;
        var u := mem[..][pos..pos + UNIT];
        ClearInWord(u, myLast);
        PutInWord(mem[..], pos, 0, Zeros(myLast));
        assert u[..0] + Zeros(myLast) == Zeros(myLast);
        u := And(u, Not(Mask(myLast)));
        StoreWord(pos, u);
      }
    }

    /** `appendNotZero`: sets the bits of the value. */
    method AppendNotZero(val: nat)
      requires w > 0 && Open() && used + w <= cap
      modifies mem
      ensures mem[..] == PutOr(old(mem[..]), at + used, ToBits(val, w))
    {
      hide Pack, Put, ToBits, Or, Shl, Low, UnitOf, Total;
      UnitSlack(used, w, cap);
      var (ubgn, uidx) := UnitOf(used, w);
      var u := mem[..][at + ubgn..at + ubgn + UNIT];
      OrInWord(u, uidx, w, val);
      SubSlice(mem[..], at + ubgn, UNIT, uidx, uidx + w);
      PutInWord(mem[..], at + ubgn, uidx, Or(u[uidx..uidx + w], ToBits(val, w)));
      u := Or(u, Shl(Low(val, w), uidx));
      StoreWord(at + ubgn, u);
    }

    method AppendValue(val: nat)
      requires w > 0 && Open() && used + w <= cap
      modifies this`used, this`elems, this`next64, this`vals, mem
      ensures Open() && vals == old(vals) + [val]
      ensures (mem[..], next64) == AppendMem(old(mem[..]), at, cap, old(used), w, old(next64), val)
    {
      hide Pack, Put, PutOr, OpenMem, ToBits;
      OpenUnit();
      if val != 0 {
        AppendNotZero(val);
      } else {
        ToBitsZero(w);
        PutOrNothing(mem[..], at + used, w);
      }
      PackSnoc(vals, val, w);
      elems := elems + 1;
      used := used + w;
      vals := vals + [val];
    }

    /** `append`: adds one value, cut to w bits, and changes nothing outside the vector.  What becomes of
        memory that does not hold the values, or no zeros behind them, is `AppendMem`. */
    method Append(val: nat)
      requires Valid() || Open()
      requires Room()
      modifies this`used, this`elems, this`next64, this`vals, mem
      ensures Open() && vals == old(vals) + [val]
      ensures old(Valid()) ==> Valid()
      ensures w > 0 ==>
        (mem[..], next64) == AppendMem(old(mem[..]), at, cap, old(used), w, old(next64), val)
      ensures OnlyIn(old(mem[..]), mem[..], at, at + Span())
    {
      hide Holds, OnlyIn, AppendMem;
      if w == 0 {
        vals := vals + [val];
        Unchanged(mem[..], at, at);
      } else {
        ValidOpens(this);
        AppendMemOnlyIn(mem[..], at, cap, used, w, next64, val);
        if Valid() {
          HoldsAppendMem(mem[..], at, cap, next64, vals, w, val);
        }
        AppendValue(val);
      }
    }

    /** `set`: the i-th value changes and no other, and nothing outside the vector. */
    method Set(i: nat, val: nat)
      requires Valid() && i < |vals|
      modifies this`vals, mem
      ensures Valid() && vals == old(vals)[i := val]
      ensures OnlyIn(old(mem[..]), mem[..], at, at + Span())
    {
      hide Holds, OnlyIn;
      if w == 0 {
        vals := vals[i := val];
        Unchanged(mem[..], at, at);
      } else {
        SetValue(i, val);
      }
    }
  }

  lemma UsedIs(w: nat, n: nat)
    ensures Total(w, n) == w * n && (w > 0 && n > 0 ==> w * n > 0) && (w == 0 ==> w * n == 0)
  {
    TotalIs(w, n);
  }

  /** What was copied is there, and nothing else has changed. */
  lemma PutIs(m: Bits, r: Bits, at: nat, b: Bits, from: nat, n: nat, used: nat)
    requires used <= n && at + n <= |m| && from + n <= |b| && r == Put(m, at, b[from..from + n])
    ensures r[at..at + used] == b[from..from + used]
    ensures forall hi :: at + n <= hi ==> OnlyIn(m, r, at, hi)
  {
    var x, y := r[at..at + used], b[from..from + used];
    forall k | 0 <= k < used
      ensures x[k] == y[k]
    {
      assert r[at + k] == b[from..from + n][k];
    }
  }

  lemma InBytes(used: nat, cap: nat)
    requires used <= cap && cap % 8 == 0
    ensures used <= 8 * BytesUsed(used) <= cap
  {
  }

  lemma ValidOpens(bv: BitVector)
    ensures bv.Valid() && bv.w > 0 ==> bv.Open()
  {
  }

  lemma Unchanged(m: Bits, lo: nat, hi: nat)
    ensures OnlyIn(m, m, lo, hi)
  {
  }

  lemma PackSnoc(vals: seq<nat>, val: nat, w: nat)
    ensures Pack(vals + [val], w) == Pack(vals, w) + ToBits(val, w)
    ensures Total(w, |vals| + 1) == Total(w, |vals|) + w
  {
    assert (vals + [val])[..|vals|] == vals;
  }

  lemma {:induction false} PackUpdate(vals: seq<nat>, w: nat, i: nat, val: nat)
    requires i < |vals|
    ensures Total(w, i) + w <= Total(w, |vals|) == |Pack(vals, w)|
    ensures Pack(vals[i := val], w) == Pack(vals, w)[..Total(w, i)] + ToBits(val, w) + Pack(vals, w)[Total(w, i) + w..]
  {
    hide Pack, ToBits;
    var a, b := vals[..i], vals[i + 1..];
    ElementFits(w, i, |vals|);
    PackLength(vals, w);
    PackLength(a, w);
    PackSnoc(a, vals[i], w);
    PackSnoc(a, val, w);
    PackConcat(a + [vals[i]], b, w);
    PackConcat(a + [val], b, w);
    assert vals == a + [vals[i]] + b && vals[i := val] == a + [val] + b;
    Middle(Pack(a, w), ToBits(vals[i], w), Pack(b, w));
  }

  lemma Middle(x: Bits, y: Bits, z: Bits)
    ensures (x + y + z)[..|x|] == x && (x + y + z)[|x| + |y|..] == z
  {
  }
}
