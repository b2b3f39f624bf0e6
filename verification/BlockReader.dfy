// ColumnItemArray as a block that was loaded: its two vectors are opened for reading on the block's memory.

module BlockReaders {
  import opened Wrappers
  import opened Bytes
  import opened Bits
  import opened BitVectors
  import opened Records
  import opened CabFormat
  import opened CabImage
  import opened CabWriter
  import opened CabReader

  /** The n values of w bits that a bit string begins with. */
  function Unpacked(b: Bits, w: nat, n: nat): (vs: seq<nat>)
    requires Total(w, n) <= |b|
    ensures |vs| == n
  {
    seq(n, i requires 0 <= i < n => ElementFits(w, i, n); Element(b, i, w))
  }

  lemma UnpackedFront(b: Bits, w: nat, n: nat)
    requires n > 0 && Total(w, n) <= |b|
    ensures Unpacked(b, w, n) == Unpacked(b, w, n - 1) + [FromBits(b[Total(w, n - 1)..Total(w, n)])]
  {
    hide FromBits;
  }

  lemma PackOneMore(vs: seq<nat>, front: Bits, last: Bits, w: nat)
    requires Pack(vs, w) == front && |last| == w
    ensures Pack(vs + [FromBits(last)], w) == front + last
  {
    hide *;
    ToFromBits(last);
    PackLast(vs, FromBits(last), w);
  }

  /** Unpacking and packing give the bits back. */
  lemma {:induction false} PackUnpacked(b: Bits, w: nat, n: nat)
    requires Total(w, n) <= |b|
    ensures Pack(Unpacked(b, w, n), w) == b[..Total(w, n)]
  {
    if n > 0 {
      hide *;
      ElementFits(w, n - 1, n);
      PackUnpacked(b, w, n - 1);
      UnpackedFront(b, w, n);
      SliceFront(b, Total(w, n - 1), Total(w, n));
      PackOneMore(Unpacked(b, w, n - 1), b[..Total(w, n - 1)], b[Total(w, n - 1)..Total(w, n)], w);
    }
  }

  lemma SliceFront<T>(b: seq<T>, i: nat, j: nat)
    requires i <= j <= |b|
    ensures b[..j] == b[..i] + b[i..j]
  {
  }

  lemma {:induction false} BitsOfConcat(a: Bytes, b: Bytes)
    ensures BitsOf(a + b) == BitsOf(a) + BitsOf(b)
  {
    hide ToBits;
    if a == [] {
      assert a + b == b;
    } else {
      BitsOfConcat(a[1..], b);
      assert (a + b)[1..] == a[1..] + b;
    }
  }

  /** Bytes i to j of a memory are its bits 8 i to 8 j. */
  lemma BitsOfSlice(o: Bytes, i: nat, j: nat)
    requires i <= j <= |o|
    ensures BitsOf(o)[8 * i..8 * j] == BitsOf(o[i..j])
  {
    hide BitsOf;
    SliceFront(o, i, j);
    BitsOfConcat(o[..j], o[j..]);
    BitsOfConcat(o[..i], o[i..j]);
    assert o == o[..j] + o[j..];
    MiddleBits(BitsOf(o[..i]), BitsOf(o[i..j]), BitsOf(o[j..]));
  }

  lemma MiddleBits(x: Bits, y: Bits, z: Bits)
    ensures (x + y + z)[|x|..|x| + |y|] == y
  {
  }

  /** A vector over the bytes from `off` on, opened for reading. */
  method OpenVector(m: array<bool>, content: Bytes, off: nat, w: nat, num: nat) returns (bv: BitVector)
    requires w <= 32 && num > 0 && off + SegBytes(w, num) <= |content|
    requires m.Length == 8 * |content| + 56 && BitsOf(content) <= m[..]
    ensures fresh(bv) && bv.mem == m && bv.w == w && bv.Readable() && bv.vals == LevelsIn(content, off, w, num)
  {
    hide BitsOf, Pack, SegBytes, LevelsIn, BitVector.Readable, Total;
    bv := new BitVector(m, 8 * off, w);
    LevelsOnMem(m[..], content, off, w, num);
    assert m[8 * off..] == m[..][8 * off..];
    var ok := bv.Init2Read(num, SegBytes(w, num), LevelsIn(content, off, w, num));
  }

  class BlockReader {
    const meta: Meta
    const typ: BlockType           // m_type
    const itemNum: nat             // m_item_num
    const content: Bytes           // m_buffer, as bytes
    const mem: array<bool>         // m_buffer, as bits
    const reps: BitVector          // m_reps
    const defs: BitVector          // m_defs

    /** The block's bytes hold its two vectors, as every block does that is not trivial. */
    static predicate Holds(meta: Meta, typ: BlockType, num: nat, content: Bytes) {
      && meta.RepWidth() <= 32 && meta.DefWidth() <= 32
      && (typ != Trivial ==> num > 0 && SegBytes(meta.RepWidth(), num) + SegBytes(meta.DefWidth(), num) <= |content|)
    }

    ghost predicate Valid()
      reads this, mem, reps, defs
    {
      && Holds(meta, typ, itemNum, content) && reps.mem == mem && defs.mem == mem
      && (typ != Trivial ==>
            && VectorOf(reps, 0, meta.RepWidth())
            && VectorOf(defs, SegBytes(meta.RepWidth(), itemNum), meta.DefWidth()))
    }

    /** A vector that was opened on the bytes from `off` on. */
    ghost predicate VectorOf(bv: BitVector, off: nat, w: nat)
      reads this, bv, bv.mem
    {
      off + SegBytes(w, itemNum) <= |content| && bv.w == w && bv.Readable() &&
          bv.vals == LevelsIn(content, off, w, itemNum)
    }

    /** The constructor and `init2read`. */
    constructor (meta: Meta, typ: BlockType, num: nat, content: Bytes)
      requires Holds(meta, typ, num, content)
      ensures Valid() && this.meta == meta && this.typ == typ && itemNum == num && this.content == content
    {
      hide BitsOf, Pack, BitVector.Readable, SegBytes, Unpacked, Meta.RepWidth, Meta.DefWidth, LevelsIn;
      this.meta, this.typ, itemNum, this.content := meta, typ, num, content;
      var rw, dw, bits := meta.RepWidth(), meta.DefWidth(), BitsOf(content);
      var m := new bool[|bits| + 56](i => 0 <= i < |bits| && bits[i]);
      var r := new BitVector(m, 0, rw);
      var d := new BitVector(m, 8 * SegBytes(rw, num), dw);
      if typ != Trivial {
        assert bits <= m[..];
        r := OpenVector(m, content, 0, rw, num);
        d := OpenVector(m, content, SegBytes(rw, num), dw, num);
      }
      mem, reps, defs := m, r, d;
    }

    /** `read`: item idx of the block, and the repetition level of the item behind it. */
    method Read(idx: nat) returns (it: Option<Item>, nrep: nat)
      requires Valid()
      ensures it == if idx < itemNum then Some(ReadAt(meta, typ, itemNum, content, idx)) else None
      ensures nrep == if idx + 1 < itemNum then ReadAt(meta, typ, itemNum, content, idx + 1).rep else 0
    {
      hide BitVector.Readable, SegBytes, LevelsIn, LevelAt, ReadValue, Meta.RepWidth, Meta.DefWidth, ReptType.Decode;
      it, nrep := None, 0;
      if idx < itemNum {
        var rlen := SegBytes(meta.RepWidth(), itemNum);
        var vat := rlen + SegBytes(meta.DefWidth(), itemNum);
        var rep, def, val := 0, 0, None;
        if typ != Trivial {
          rep := GetLevel(reps, 0, meta.RepWidth(), idx);
          def := GetLevel(defs, rlen, meta.DefWidth(), idx);
          if idx + 1 < itemNum {
            nrep := GetLevel(reps, 0, meta.RepWidth(), idx + 1);
          }
          if typ == Crucial && def == meta.MaxDef() {
            val := ReadValue(meta.dt, content[vat..], itemNum, idx);
          }
        }
        it := Some(Item(meta.Rept().Decode(rep), def, val));
        if idx + 1 < itemNum { nrep := meta.Rept().Decode(nrep); }
      }
    }

    method GetLevel(bv: BitVector, off: nat, w: nat, idx: nat) returns (lev: nat)
      requires VectorOf(bv, off, w) && idx < itemNum
      ensures lev == LevelAt(content, off, itemNum, w, idx)
    {
      hide BitVector.Readable;
      lev := bv.Get(idx);
      LevelRead(content, off, itemNum, w, idx);
    }
  }

  /** The values packed into the bytes from `off` on. */
  function LevelsIn(content: Bytes, off: nat, w: nat, num: nat): (vs: seq<nat>)
    requires off + SegBytes(w, num) <= |content|
    ensures |vs| == num
  {
    Unpacked(BitsOf(content[off..off + SegBytes(w, num)]), w, num)
  }

  lemma LevelRead(content: Bytes, off: nat, num: nat, w: nat, i: nat)
    requires off + SegBytes(w, num) <= |content| && i < num
    ensures Cut(LevelsIn(content, off, w, num)[i], w) == LevelAt(content, off, num, w, i)
  {
    hide BitsOf, FromBits, Pow2, Cut;
    ElementFits(w, i, num);
    CutSmall(LevelAt(content, off, num, w, i), w);
  }

  /** Memory that begins with the content's bits holds the packed values. */
  lemma LevelsOnMem(m: Bits, content: Bytes, off: nat, w: nat, num: nat)
    requires off + SegBytes(w, num) <= |content| && BitsOf(content) <= m
    ensures Total(w, num) <= 8 * SegBytes(w, num)
    ensures Pack(LevelsIn(content, off, w, num), w) <= m[8 * off..]
  {
    hide BitsOf, Pack, Unpacked;
    var b := BitsOf(content[off..off + SegBytes(w, num)]);
    BitsOfSlice(content, off, off + SegBytes(w, num));
    PackUnpacked(b, w, num);
    assert m[8 * off..][..Total(w, num)] == b[..Total(w, num)];
  }

  /** Every block that a writer leaves in a file can be opened, and unless it is silent `read` returns the items
      that were written. */
  lemma PublishedReads(m: Meta, bgn: nat, its: seq<Item>, tail: bool)
    requires AllFit(m, its) && Writable(m.dt, Vals(its)) && m.RepWidth() <= 32 && m.DefWidth() <= 32
    ensures var b := Published(m, bgn, its, tail);
            && BlockReader.Holds(m, b.info.GetType(), b.info.itemNum, b.content)
            && (!Silent(its, tail) ==> b.info.itemNum == |its| && forall i :: 0 <= i < |its| ==>
                  ReadAt(m, b.info.GetType(), |its|, b.content, i) == its[i])
  {
    hide ReadAt, RepBytes, DefBytes, Values, Meta.RepWidth, Meta.DefWidth, SegBytes;
    CountedFacts(m, bgn, its);
    StoredSome(m, bgn, its, tail);
    BlockBack(m, bgn, its, tail);
    hide Counted, Silent, AllFit, Writable;
    var b := Published(m, bgn, its, tail);
    if !Silent(its, tail) {
      forall i | 0 <= i < |its|
        ensures ReadAt(m, b.info.GetType(), |its|, b.content, i) == its[i]
      {
        assert BlockItems(m, b)[i] == its[i];
      }
    }
  }
}
