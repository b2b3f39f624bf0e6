// ColumnItemArray: one unit of a block, with its two bit vectors side by side in one buffer, and its
// value array.

module ColumnItems {
  import opened Wrappers
  import opened Bytes
  import opened Bits
  import opened BitVectors
  import opened Records
  import opened CabFormat
  import opened CabImage

  // ---- Value arrays ----

  /** The part of a value array that has one place for every item: offsets of texts, or the values. */
  function FixedPart(dt: DataType, vals: seq<Option<Bytes>>, base: nat): Bytes {
    if dt.Text? then OffsetBytes(dt, vals, base) else ValueBytes(dt, vals)
  }

  function Unit(dt: DataType): nat {
    match dt
    case Fixed(nil) => |nil|
    case Text => OFF
  }

  ghost predicate AllHold(dt: DataType, vals: seq<Option<Bytes>>) {
    forall i :: 0 <= i < |vals| && vals[i].Some? ==> dt.Holds(vals[i].value)
  }

  lemma FixedLength(dt: DataType, vals: seq<Option<Bytes>>, base: nat)
    requires AllHold(dt, vals)
    ensures |FixedPart(dt, vals, base)| == Unit(dt) * |vals|
  {
    match dt
    case Fixed(nil) => FixedPlaces(nil, vals);
    case Text =>
  }

  /** The place of an item without value. */
  function NilPlace(dt: DataType): (b: Bytes)
    ensures |b| == Unit(dt)
  {
    match dt
    case Fixed(nil) => nil
    case Text => Store(INVALID_OFF, OFF)
  }

  /** n places that no item has used yet. */
  function Fill(dt: DataType, n: nat): Bytes {
    if n == 0 then [] else NilPlace(dt) + Fill(dt, n - 1)
  }

  /** The place that item `v` takes when `off` bytes of values come before it. */
  function PlaceBytes(dt: DataType, v: Option<Bytes>, off: nat): Bytes {
    match v
    case None => NilPlace(dt)
    case Some(b) => if dt.Text? then Store(off, OFF) else b
  }

  lemma FixedSnoc(dt: DataType, vals: seq<Option<Bytes>>, base: nat, v: Option<Bytes>)
    ensures FixedPart(dt, vals + [v], base)
         == FixedPart(dt, vals, base) + PlaceBytes(dt, v, base + |ValueBytes(dt, vals)|)
    ensures ValueBytes(dt, vals + [v]) == ValueBytes(dt, vals) + dt.Place(v)
  {
    hide OffsetBytes, ValueBytes, Store;
    ValueSnoc(dt, vals, v);
    match dt
    case Text => TextSnoc(vals, base, v);
    case Fixed(nil) =>
  }

  lemma ValueSnoc(dt: DataType, vals: seq<Option<Bytes>>, v: Option<Bytes>)
    ensures ValueBytes(dt, vals + [v]) == ValueBytes(dt, vals) + dt.Place(v)
  {
    assert (vals + [v])[..|vals|] == vals;
  }

  lemma TextSnoc(vals: seq<Option<Bytes>>, base: nat, v: Option<Bytes>)
    ensures OffsetBytes(Text, vals + [v], base)
         == OffsetBytes(Text, vals, base) + PlaceBytes(Text, v, base + |ValueBytes(Text, vals)|)
  {
    hide Table, Store, ValueBytes;
    var all := vals + [v];
    assert all[..|all| - 1] == vals;
    var off := if v.None? then INVALID_OFF else base + |ValueBytes(Text, vals)|;
    assert OffsetsFrom(Text, all, base) == OffsetsFrom(Text, vals, base) + [off];
    TableSnoc(OffsetsFrom(Text, vals, base), off, OFF);
  }

  lemma TableSnoc(ns: seq<nat>, n: nat, w: nat)
    ensures Table(ns + [n], w) == Table(ns, w) + Store(n, w)
  {
    assert (ns + [n])[..|ns|] == ns;
  }

  /** `memcpy` of b to a position. */
  method Copy(a: array<Byte>, pos: nat, b: Bytes)
    requires pos + |b| <= a.Length
    modifies a
    ensures a[..] == old(a[..pos]) + b + old(a[pos + |b|..])
  {
    forall i | pos <= i < pos + |b| { a[i] := b[i - pos]; }
  }

  class ValueArray {
    const dt: DataType
    const cap: nat                // m_val_cap
    const fix: array<Byte>        // m_cont_bgn
    var num: nat                  // m_val_num
    var curOff: nat               // m_cur_off
    var bufs: seq<Bytes>          // m_buf_vec, the bytes in use of each
    ghost const base: nat         // what setBeginOffset was given
    ghost var vals: seq<Option<Bytes>>

    /** What the fixed part holds once `written` items are in front. */
    ghost predicate Laid(content: Bytes, written: seq<Option<Bytes>>)
    {
      |written| <= cap && content == FixedPart(dt, written, base) + Fill(dt, cap - |written|)
    }

    ghost predicate Valid()
      reads this, fix
    {
      && num == |vals| <= cap && AllHold(dt, vals)
      && Laid(fix[..], vals)
      && (dt.Text? ==> bufs != [] && Concat(bufs) == ValueBytes(dt, vals) && curOff == base + |ValueBytes(dt, vals)|)
    }

    /** `init2write`, and `setBeginOffset(base)` before it. */
    constructor (dt: DataType, cap: nat, base: nat)
      ensures Valid() && vals == [] && fresh(fix)
      ensures this.dt == dt && this.cap == cap && this.base == base
    {
      this.dt, this.cap, this.base := dt, cap, base;
      num, curOff, bufs, vals := 0, base, [[]], [];
      fix := new Byte[|Fill(dt, cap)|](i requires 0 <= i < |Fill(dt, cap)| => Fill(dt, cap)[i]);
      new;
      assert fix[..] == Fill(dt, cap);
      OneEmpty();
    }

    /** `writeNull`: the place was filled in advance. */
    method WriteNull() returns (ok: bool)
      requires Valid()
      modifies this
      ensures Valid() && ok == (|old(vals)| < cap)
      ensures vals == if ok then old(vals) + [None] else old(vals)
    {
      hide FixedPart, Fill, ValueBytes, Concat;
      ok := num != cap;
      if ok {
        FixedSnoc(dt, vals, base, None);
        FillNext(dt, cap - num);
        Regroup(FixedPart(dt, vals, base), NilPlace(dt), Fill(dt, cap - num - 1));
        NoneAdded();
        num := num + 1;
        vals := vals + [None];
      }
    }

    /** `writeText` and `writeBinVal` of value v.  `room` tells whether the current value buffer has
        enough bytes left; otherwise the next one is taken. */
    method WriteValue(v: Bytes, room: bool) returns (ok: bool)
      requires Valid() && dt.Holds(v)
      modifies this, fix
      ensures Valid() && ok == (|old(vals)| < cap)
      ensures vals == if ok then old(vals) + [Some(v)] else old(vals)
    {
      hide FixedPart, Fill, ValueBytes, Concat, DataType.Holds;
      ok := num != cap;
      if ok {
        FixedSnoc(dt, vals, base, Some(v));
        var p := if dt.Text? then Store(curOff, OFF) else v;
        PlaceLength(v);
        WritePlace(p, v);
        num := num + 1;
        if dt.Text? {
          if !room { NewBuffer(); }
          ConcatSnoc(bufs, v);
          bufs := bufs[..|bufs| - 1] + [bufs[|bufs| - 1] + v];
          curOff := curOff + |v|;
        }
        vals := vals + [Some(v)];
      }
    }

    lemma NoneAdded()
      requires Valid()
      ensures dt.Text? ==> ValueBytes(dt, vals + [None]) == ValueBytes(dt, vals)
    {
      assert (vals + [None])[..|vals|] == vals;
    }

    lemma PlaceLength(v: Bytes)
      requires dt.Holds(v)
      ensures dt.Fixed? ==> |v| == Unit(dt)
    {
    }

    /** The next place of the fixed part. */
    method WritePlace(p: Bytes, ghost v: Bytes)
      requires Valid() && num < cap && |p| == Unit(dt)
      requires p == PlaceBytes(dt, Some(v), base + |ValueBytes(dt, vals)|)
      modifies fix
      ensures Laid(fix[..], vals + [Some(v)])
    {
      hide FixedPart, Fill, ValueBytes, PlaceBytes, NilPlace, Unit;
      FixedSnoc(dt, vals, base, Some(v));
      FillNext(dt, cap - num);
      FixedLength(dt, vals, base);
      ghost var x, y := FixedPart(dt, vals, base), Fill(dt, cap - num - 1);
      var pos := Unit(dt) * num;
      Regroup(x, NilPlace(dt), y);
      assert fix[..] == x + NilPlace(dt) + y && pos == |x|;
      Replace(x, NilPlace(dt), y);
      assert fix[..pos] == fix[..][..pos] && fix[pos + |p|..] == fix[..][pos + |p|..];
      Copy(fix, pos, p);
    }

    method NewBuffer()
      modifies this`bufs
      ensures bufs == old(bufs) + [[]] && Concat(bufs) == Concat(old(bufs))
    {
      bufs := bufs + [[]];
      assert bufs[..|bufs| - 1] == old(bufs);
    }
  }

  lemma FillNext(dt: DataType, n: nat)
    requires n > 0
    ensures Fill(dt, n) == NilPlace(dt) + Fill(dt, n - 1)
  {
  }

  lemma Regroup(x: Bytes, y: Bytes, z: Bytes)
    ensures x + (y + z) == x + y + z
  {
  }

  lemma Replace(x: Bytes, y: Bytes, z: Bytes)
    ensures (x + y + z)[..|x|] == x && (x + y + z)[|x| + |y|..] == z
  {
  }

  // ---- A unit of items ----

  /** `CalcBytesUsed` bytes from the vector's first bit on: what is copied when it is merged. */
  function Content(bv: BitVector): Bytes
    reads bv, bv.mem
  {
    if bv.at + 8 * BytesUsed(bv.used) <= bv.mem.Length then Octets(bv.mem[bv.at..bv.at + 8 * BytesUsed(bv.used)])
        else []
  }

  lemma OneEmpty()
    ensures Concat([[]]) == []
  {
    var one: seq<Bytes> := [[]];
    assert one[..0] == [];
  }

  lemma ConcatSnoc(bufs: seq<Bytes>, v: Bytes)
    requires bufs != []
    ensures Concat(bufs[..|bufs| - 1] + [bufs[|bufs| - 1] + v]) == Concat(bufs) + v
  {
    hide Concat;
    var front, last := bufs[..|bufs| - 1], bufs[|bufs| - 1];
    ConcatLast(front, last + v);
    ConcatLast(front, last);
    assert bufs == front + [last];
    Regroup(Concat(front), last, v);
  }

  lemma ConcatLast(front: seq<Bytes>, b: Bytes)
    ensures Concat(front + [b]) == Concat(front) + b
  {
    assert (front + [b])[..|front|] == front;
  }

  // ---- A unit of items ----

  /** Changes elsewhere in the memory leave a vector as it is. */
  lemma VectorFrame(bv: BitVector, m: Bits, r: Bits, lo: nat, hi: nat)
    requires bv.ValidIn(m) && OnlyIn(m, r, lo, hi)
    requires bv.w > 0 ==> hi <= bv.at || bv.at + bv.cap <= lo
    ensures bv.ValidIn(r)
  {
    hide Pack;
    if bv.w > 0 {
      var used := Total(bv.w, |bv.vals|);
      assert r[bv.at..bv.at + used] == m[bv.at..bv.at + used];
    }
  }

  /** The vector is the one of n values of w bits at a position of the memory. */
  ghost predicate VectorAt(bv: BitVector, mem: array<bool>, at: nat, w: nat, n: nat)
    reads bv, mem
  {
    && bv.mem == mem && bv.at == at && bv.w == w
    && (w > 0 ==> bv.cap == 8 * SegBytes(w, n))
    && bv.ValidIn(mem[..])
  }

  lemma VectorRoom(bv: BitVector, mem: array<bool>, at: nat, w: nat, n: nat)
    requires VectorAt(bv, mem, at, w, n) && |bv.vals| < n
    ensures bv.Room()
  {
    if w > 0 {
      ElementFits(w, |bv.vals|, n);
    }
  }

  /** What one item adds to a unit: its stored repetition level, its definition level, its value. */
  datatype Cell = Cell(rep: nat, def: nat, val: Option<Bytes>)

  class ColumnItemArray {
    const meta: Meta
    const itemCap: nat            // m_item_cap
    const mem: array<bool>        // m_buffer
    const reps: BitVector         // m_reps
    const defs: BitVector         // m_defs
    const values: ValueArray      // m_values
    var itemNum: nat              // m_item_num

    ghost const Repr: set<object>

    ghost predicate Valid()
      reads this, Repr
    {
      && Repr == {this, mem, reps, defs, values, values.fix} && reps != defs
      && VectorAt(reps, mem, 0, meta.RepWidth(), itemCap)
      && VectorAt(defs, mem, 8 * SegBytes(meta.RepWidth(), itemCap), meta.DefWidth(), itemCap)
      && values.Valid() && values.dt == meta.dt && values.cap == itemCap
      && itemNum == |reps.vals| == |defs.vals| == |values.vals| <= itemCap
    }

    /** The constructor and `init2write`: the buffer is cut into the two vectors and the value array. */
    constructor (meta: Meta, itemCap: nat, base: nat)
      requires meta.RepWidth() <= 32 && meta.DefWidth() <= 32
      ensures Valid() && fresh(Repr) && itemNum == 0
      ensures this.meta == meta && this.itemCap == itemCap && values.base == base
    {
      hide OnlyIn, Holds, SegBytes, ValueArray.Valid, BitVector.ValidIn, Meta.RepWidth, Meta.DefWidth;
      this.meta, this.itemCap, itemNum := meta, itemCap, 0;
      var rw, dw := meta.RepWidth(), meta.DefWidth();
      var rlen, dlen := SegBytes(rw, itemCap), SegBytes(dw, itemCap);
      var m := new bool[8 * (rlen + dlen) + 56];
      var r := new BitVector(m, 0, rw);
      var d := new BitVector(m, 8 * rlen, dw);
      var v := new ValueArray(meta.dt, itemCap, base);
      mem, reps, defs, values := m, r, d, v;
      Repr := {this, m, r, d, v, v.fix};
      r.Init2Write(rlen);
      ghost var before := m[..];
      d.Init2Write(dlen);
      VectorFrame(r, before, m[..], 8 * rlen, 8 * rlen + 8 * dlen);
      new;
    }

    /** `writeRepDef`: one level into each vector, neither disturbing the other. */
    method WriteRepDef(rep: nat, def: nat)
      requires Valid() && itemNum < itemCap
      modifies reps, defs, mem
      ensures VectorAt(reps, mem, 0, meta.RepWidth(), itemCap)
      ensures VectorAt(defs, mem, 8 * SegBytes(meta.RepWidth(), itemCap), meta.DefWidth(), itemCap)
      ensures reps.vals == old(reps.vals) + [rep] && defs.vals == old(defs.vals) + [def]
    {
      hide OnlyIn, Holds, ValueArray.Valid, BitVector.ValidIn, BitVector.Room, Meta.RepWidth, Meta.DefWidth, SegBytes;
      var at := 8 * SegBytes(meta.RepWidth(), itemCap);
      VectorRoom(reps, mem, 0, meta.RepWidth(), itemCap);
      ghost var m0 := mem[..];
      reps.Append(rep);
      VectorFrame(defs, m0, mem[..], 0, reps.Span());
      VectorRoom(defs, mem, at, meta.DefWidth(), itemCap);
      ghost var m1 := mem[..];
      defs.Append(def);
      VectorFrame(reps, m1, mem[..], at, at + defs.Span());
    }

    /** `writeNull`, `writeText` and `writeBinVal`: nothing happens in a full unit. */
    method Write(c: Cell, room: bool) returns (ok: bool)
      requires Valid() && (c.val.Some? ==> meta.dt.Holds(c.val.value))
      modifies Repr
      ensures Valid() && ok == (old(itemNum) < itemCap)
      ensures ok ==> Cells() == old(Cells()) + [c]
      ensures !ok ==> Cells() == old(Cells())
    {
      hide OnlyIn, Holds, SegBytes, ValueArray.Valid, BitVector.ValidIn, VectorAt, DataType.Holds;
      ok := itemNum != itemCap;
      if ok {
        WriteRepDef(c.rep, c.def);
        var written;
        match c.val {
          case None => written := values.WriteNull();
          case Some(v) => written := values.WriteValue(v, room);
        }
        itemNum := itemNum + 1;
        ZipSnoc(old(reps.vals), old(defs.vals), old(values.vals), c);
      }
    }

    ghost function Cells(): (cs: seq<Cell>)
      requires Valid()
      reads this, Repr
      ensures |cs| == itemNum
    {
      Zip(reps.vals, defs.vals, values.vals)
    }
  }

  function Zip(rs: seq<nat>, ds: seq<nat>, vs: seq<Option<Bytes>>): (cs: seq<Cell>)
    requires |rs| == |ds| == |vs|
    ensures |cs| == |rs|
  {
    seq(|rs|, i requires 0 <= i < |rs| => Cell(rs[i], ds[i], vs[i]))
  }

  lemma ZipSnoc(rs: seq<nat>, ds: seq<nat>, vs: seq<Option<Bytes>>, c: Cell)
    requires |rs| == |ds| == |vs|
    ensures Zip(rs + [c.rep], ds + [c.def], vs + [c.val]) == Zip(rs, ds, vs) + [c]
  {
  }
}
