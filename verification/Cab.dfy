// CAB: one block while it is written, in units that are merged when the block is flushed.

module Cabs {
  import opened Wrappers
  import opened Bytes
  import opened Bits
  import opened BitVectors
  import opened Records
  import opened CabFormat
  import opened CabImage
  import opened ColumnItems

  // ---- The segments of a block ----

  /** The members of ColumnItemArray that `mergeSegment` is given. */
  datatype Segment = RepSegment | DefSegment | OffsetSegment | ValueSegment

  function RepsOf(cs: seq<Cell>): (r: seq<nat>)
    ensures |r| == |cs|
  {
    seq(|cs|, i requires 0 <= i < |cs| => cs[i].rep)
  }

  function DefsOf(cs: seq<Cell>): (r: seq<nat>)
    ensures |r| == |cs|
  {
    seq(|cs|, i requires 0 <= i < |cs| => cs[i].def)
  }

  function ValsOf(cs: seq<Cell>): (r: seq<Option<Bytes>>)
    ensures |r| == |cs|
  {
    seq(|cs|, i requires 0 <= i < |cs| => cs[i].val)
  }

  /** Bytes of one segment for the cells, when `base` bytes of values lie before them. */
  function SegmentOf(s: Segment, m: Meta, cs: seq<Cell>, base: nat): Bytes {
    match s
    case RepSegment => PackedBytes(RepsOf(cs), m.RepWidth())
    case DefSegment => PackedBytes(DefsOf(cs), m.DefWidth())
    case OffsetSegment => OffsetBytes(m.dt, ValsOf(cs), base)
    case ValueSegment => ValueBytes(m.dt, ValsOf(cs))
  }

  function ValueLength(m: Meta, cs: seq<Cell>): nat { |ValueBytes(m.dt, ValsOf(cs))| }

  // ---- Segments of adjacent units put together ----

  /** Behind a whole number of bytes, packing goes on as if it had never stopped. */
  lemma PackedConcat(a: seq<nat>, b: seq<nat>, w: nat)
    requires |a| % 8 == 0
    ensures PackedBytes(a + b, w) == PackedBytes(a, w) + PackedBytes(b, w)
  {
    WholePack(a, w);
    PackConcat(a, b, w);
    hide Pack;
    PaddedConcat(Pack(a, w), Pack(b, w));
  }

  lemma WholePack(a: seq<nat>, w: nat)
    requires |a| % 8 == 0
    ensures |Pack(a, w)| % 8 == 0
  {
    PackLength(a, w);
    TotalIs(w, |a|);
    WholeBytes(w, |a|);
  }

  lemma PaddedConcat(x: Bits, y: Bits)
    requires |x| % 8 == 0
    ensures Octets(Padded(x + y)) == Octets(Padded(x)) + Octets(Padded(y))
  {
    PadBehind(x, y);
    hide Octets, Padded;
    OctetsConcat(x, Padded(y));
  }

  lemma PadBehind(x: Bits, y: Bits)
    requires |x| % 8 == 0
    ensures Padded(x) == x && Padded(x + y) == x + Padded(y)
  {
    PadLength(|x|, |y|);
    assert Padded(x + y) == x + Padded(y);
  }

  lemma PadLength(a: nat, b: nat)
    requires a % 8 == 0
    ensures 8 * BytesUsed(a) == a && 8 * BytesUsed(a + b) == a + 8 * BytesUsed(b)
  {
    var k := a / 8;
    assert a == 8 * k;
  }

  lemma WholeBytes(w: nat, n: nat)
    requires n % 8 == 0
    ensures (w * n) % 8 == 0
  {
    var k := n / 8;
    assert w * n == 8 * (w * k) by { assert n == 8 * k; assert w * (8 * k) == 8 * (w * k); }
  }

  lemma {:induction false} ValuesConcat(dt: DataType, a: seq<Option<Bytes>>, b: seq<Option<Bytes>>)
    ensures ValueBytes(dt, a + b) == ValueBytes(dt, a) + ValueBytes(dt, b)
  {
    hide ValueBytes;
    if b == [] {
      assert a + b == a;
      NoValues(dt);
    } else {
      var front, v := b[..|b| - 1], b[|b| - 1];
      ValuesConcat(dt, a, front);
      ValueSnoc(dt, a + front, v);
      ValueSnoc(dt, front, v);
      assert a + b == (a + front) + [v] && b == front + [v];
      Regroup(ValueBytes(dt, a), ValueBytes(dt, front), dt.Place(v));
    }
  }

  lemma NoValues(dt: DataType)
    ensures ValueBytes(dt, []) == []
  {
  }

  /** Offsets of later values count from the values in front of them. */
  lemma {:induction false} OffsetsConcat(a: seq<Option<Bytes>>, b: seq<Option<Bytes>>, base: nat)
    ensures OffsetBytes(Text, a + b, base)
         == OffsetBytes(Text, a, base) + OffsetBytes(Text, b, base + |ValueBytes(Text, a)|)
  {
    hide OffsetBytes, ValueBytes, PlaceBytes;
    if b == [] {
      assert a + b == a;
      NoOffsetBytes(base + |ValueBytes(Text, a)|);
    } else {
      var front, v := b[..|b| - 1], b[|b| - 1];
      OffsetsConcat(a, front, base);
      TextSnoc(a + front, base, v);
      TextSnoc(front, base + |ValueBytes(Text, a)|, v);
      ValuesConcat(Text, a, front);
      assert a + b == (a + front) + [v] && b == front + [v];
    }
  }

  lemma NoOffsetBytes(base: nat)
    ensures OffsetBytes(Text, [], base) == []
  {
  }

  /** The segment of the cells of two units is the units' segments, one behind the other. */
  lemma SegmentConcat(s: Segment, m: Meta, a: seq<Cell>, b: seq<Cell>, base: nat)
    requires |a| % 8 == 0
    ensures SegmentOf(s, m, a + b, base) == SegmentOf(s, m, a, base) + SegmentOf(s, m, b, base + ValueLength(m, a))
    ensures ValueLength(m, a + b) == ValueLength(m, a) + ValueLength(m, b)
  {
    PartsConcat(a, b);
    ValuesConcat(m.dt, ValsOf(a), ValsOf(b));
    hide Octets, Padded, Pack, ValueBytes, RepsOf, DefsOf, ValsOf, OffsetBytes, Meta.RepWidth, Meta.DefWidth;
    match s
    case RepSegment => PackedConcat(RepsOf(a), RepsOf(b), m.RepWidth());
    case DefSegment => PackedConcat(DefsOf(a), DefsOf(b), m.DefWidth());
    case OffsetSegment => AnyOffsetsConcat(m.dt, ValsOf(a), ValsOf(b), base);
    case ValueSegment =>
  }

  lemma PartsConcat(a: seq<Cell>, b: seq<Cell>)
    ensures RepsOf(a + b) == RepsOf(a) + RepsOf(b)
    ensures DefsOf(a + b) == DefsOf(a) + DefsOf(b)
    ensures ValsOf(a + b) == ValsOf(a) + ValsOf(b)
  {
  }

  lemma AnyOffsetsConcat(dt: DataType, a: seq<Option<Bytes>>, b: seq<Option<Bytes>>, base: nat)
    ensures OffsetBytes(dt, a + b, base) == OffsetBytes(dt, a, base) + OffsetBytes(dt, b, base + |ValueBytes(dt, a)|)
  {
    hide Table, OffsetsFrom, ValueBytes;
    if dt.Text? { OffsetsConcat(a, b, base); }
  }

  // ---- The segments of one unit ----

  /** What a vector's `getUsedSize` bytes hold: its values, and zeros up to the end of the last byte. */
  lemma ContentIs(bv: BitVector)
    requires bv.ValidIn(bv.mem[..])
    ensures Content(bv) == PackedBytes(bv.vals, bv.w)
  {
    hide Octets, Pack;
    if bv.w == 0 {
      PackLength(bv.vals, 0);
      TotalIs(0, |bv.vals|);
      assert Padded(Pack(bv.vals, 0)) == [];
      assert bv.used == 0;
    } else {
      var used, p := bv.used, Pack(bv.vals, bv.w);
      var n := 8 * BytesUsed(used);
      ByteEnd(used, bv.next64, bv.cap);
      var c := bv.mem[..][bv.at..bv.at + n];
      assert bv.mem[bv.at..bv.at + n] == c;
      TailZero(bv.mem[..], bv.at, bv.cap, bv.next64, bv.vals, bv.w);
    }
  }

  /** The last byte in use lies inside the opened words and the vector's own bytes. */
  lemma ByteEnd(used: nat, next: nat, cap: nat)
    requires used <= next && used <= cap && next % 64 == 0 && cap % 8 == 0
    ensures used <= 8 * BytesUsed(used) <= next && 8 * BytesUsed(used) <= cap
  {
  }

  lemma TailZero(m: Bits, at: nat, cap: nat, next64: nat, vals: seq<nat>, w: nat)
    requires Holds(m, at, cap, next64, vals, w)
    ensures at + 8 * BytesUsed(Total(w, |vals|)) <= |m|
    ensures m[at..at + 8 * BytesUsed(Total(w, |vals|))] == Padded(Pack(vals, w))
  {
    var used, p := Total(w, |vals|), Pack(vals, w);
    ByteEnd(used, next64, cap);
    hide Pack;
    var n := 8 * BytesUsed(used);
    var c := m[at..at + n];
    assert c[..used] == m[at..at + used] == p;
    assert forall k :: used <= k < n ==> c[k] == m[at + k];
    assert c == Padded(p);
  }

  lemma ZipParts(rs: seq<nat>, ds: seq<nat>, vs: seq<Option<Bytes>>)
    requires |rs| == |ds| == |vs|
    ensures var cs := Zip(rs, ds, vs); RepsOf(cs) == rs && DefsOf(cs) == ds && ValsOf(cs) == vs
  {
  }

  lemma ValueParts(v: ValueArray)
    requires v.Valid()
    ensures Unit(v.dt) * v.num == |FixedPart(v.dt, v.vals, v.base)| <= v.fix.Length
    ensures v.fix[..Unit(v.dt) * v.num] == FixedPart(v.dt, v.vals, v.base)
  {
    hide FixedPart, Fill, ValueBytes, Unit;
    FixedLength(v.dt, v.vals, v.base);
    var x := FixedPart(v.dt, v.vals, v.base);
    assert v.fix[..|x|] == v.fix[..][..|x|] == x;
  }

  /** `appendRep`, `appendDef`, `appendOffsets` and `appendValues` of one unit. */
  method AppendSegment(u: ColumnItemArray, s: Segment) returns (b: Bytes)
    requires u.Valid()
    ensures b == SegmentOf(s, u.meta, u.Cells(), u.values.base)
  {
    hide PackedBytes, ValueBytes, OffsetBytes, BitVector.ValidIn, Octets, Zip, RepsOf, DefsOf, ValsOf, Concat, Unit;
    ZipParts(u.reps.vals, u.defs.vals, u.values.vals);
    match s
    case RepSegment =>
      ContentIs(u.reps);
      b := Content(u.reps);
    case DefSegment =>
      ContentIs(u.defs);
      b := Content(u.defs);
    case OffsetSegment =>
      ValueParts(u.values);
      if u.meta.dt.Text? {
        b := u.values.fix[..Unit(u.meta.dt) * u.values.num];
      } else {
        b := [];
        NoTextOffsets(u.meta.dt, u.values.vals, u.values.base);
      }
    case ValueSegment =>
      ValueParts(u.values);
      if u.meta.dt.Text? {
        b := AppendBuffers(u.values.bufs);
      } else {
        b := u.values.fix[..Unit(u.meta.dt) * u.values.num];
      }
  }

  lemma NoTextOffsets(dt: DataType, vals: seq<Option<Bytes>>, base: nat)
    requires !dt.Text?
    ensures OffsetBytes(dt, vals, base) == []
  {
  }

  /** The loop of `VarLengthValueArray::appendValues`. */
  method AppendBuffers(bufs: seq<Bytes>) returns (b: Bytes)
    ensures b == Concat(bufs)
  {
    b := [];
    var i := 0;
    while i < |bufs|
      invariant 0 <= i <= |bufs| && b == Concat(bufs[..i])
    {
      assert bufs[..i + 1][..i] == bufs[..i];
      b := b + bufs[i];
      i := i + 1;
    }
    assert bufs[..|bufs|] == bufs;
  }

  lemma NoBuffers()
    ensures Concat([]) == []
  {
  }

  /** `getWriteValueArrayUsed`. */
  method ValueUsed(v: ValueArray) returns (n: nat)
    requires v.Valid()
    ensures n == |ValueBytes(v.dt, v.vals)|
  {
    hide ValueBytes, OffsetBytes, Fill, Concat;
    ValueParts(v);
    if v.dt.Fixed? {
      n := Unit(v.dt) * v.num;
    } else {
      n := 0;
      var i := 0;
      NoBuffers();
      while i < |v.bufs|
        invariant 0 <= i <= |v.bufs| && n == |Concat(v.bufs[..i])|
      {
        assert v.bufs[..i + 1] == v.bufs[..i] + [v.bufs[i]];
        ConcatLast(v.bufs[..i], v.bufs[i]);
        n := n + |v.bufs[i]|;
        i := i + 1;
      }
      assert v.bufs[..|v.bufs|] == v.bufs;
    }
  }

  function Flat(parts: seq<seq<Cell>>): seq<Cell> {
    if parts == [] then [] else Flat(parts[..|parts| - 1]) + parts[|parts| - 1]
  }

  /** Where the values of unit k begin among those of all units. */
  function BaseOf(m: Meta, parts: seq<seq<Cell>>, k: nat): nat
    requires k <= |parts|
  {
    ValueLength(m, Flat(parts[..k]))
  }

  /** A unit that is full, and its cells. */
  ghost predicate Sealed(u: ColumnItemArray, m: Meta, cells: seq<Cell>, base: nat, done: set<object>)
    reads done
  {
    && u in done && u.Repr <= done && u.Valid()
    && u.meta == m && u.Cells() == cells && u.values.base == base && |cells| % 8 == 0
  }

  ghost predicate AllSealed(us: seq<ColumnItemArray>, m: Meta, parts: seq<seq<Cell>>, done: set<object>)
    requires |parts| <= |us|
    reads done
  {
    forall k :: 0 <= k < |parts| ==> Sealed(us[k], m, parts[k], BaseOf(m, parts, k), done)
  }

  /** The current unit, once full, joins those in front of it. */
  lemma SealUnit(us: seq<ColumnItemArray>, m: Meta, parts: seq<seq<Cell>>, done: set<object>)
    requires |us| == |parts| + 1 && AllSealed(us, m, parts, done)
    requires var u := us[|parts|];
             u.Valid() && u.meta == m && u.values.base == ValueLength(m, Flat(parts)) && u.itemNum % 8 == 0
    ensures var u := us[|parts|];
            AllSealed(us, m, parts + [u.Cells()], done + u.Repr)
  {
    var u := us[|parts|];
    var now, seen := parts + [u.Cells()], done + u.Repr;
    hide ColumnItemArray.Valid, ColumnItemArray.Cells, Flat, ValueLength;
    forall k | 0 <= k < |now|
      ensures Sealed(us[k], m, now[k], BaseOf(m, now, k), seen)
    {
      assert now[..k] == parts[..k];
      if k < |parts| {
        assert Sealed(us[k], m, parts[k], BaseOf(m, parts, k), done);
      } else {
        assert parts[..k] == parts;
        InRepr(u);
      }
    }
  }

  lemma UnitLength(u: ColumnItemArray)
    requires u.Valid()
    ensures u.values.Valid() && ValueLength(u.meta, u.Cells()) == |ValueBytes(u.values.dt, u.values.vals)|
  {
    ZipParts(u.reps.vals, u.defs.vals, u.values.vals);
  }

  lemma InRepr(u: ColumnItemArray)
    requires u.Valid()
    ensures u in u.Repr && |u.Cells()| == u.itemNum
  {
  }

  lemma NoSegment(s: Segment, m: Meta)
    ensures SegmentOf(s, m, Flat([]), 0) == []
  {
    match s
    case RepSegment => NoPacked(m.RepWidth());
    case DefSegment => NoPacked(m.DefWidth());
    case OffsetSegment =>
    case ValueSegment =>
  }

  lemma NoPacked(w: nat)
    ensures PackedBytes([], w) == []
  {
  }

  lemma NextPart(s: Segment, m: Meta, parts: seq<seq<Cell>>, i: nat)
    requires i < |parts| && forall k :: 0 <= k < |parts| ==> |parts[k]| % 8 == 0
    ensures SegmentOf(s, m, Flat(parts[..i + 1]), 0)
         == SegmentOf(s, m, Flat(parts[..i]), 0) + SegmentOf(s, m, parts[i], BaseOf(m, parts, i))
  {
    hide SegmentOf, ValueLength;
    FlatWhole(parts[..i]);
    SegmentConcat(s, m, Flat(parts[..i]), parts[i], 0);
    assert parts[..i + 1][..i] == parts[..i];
  }

  /** What is flushed for the cells of a block of type t. */
  function Merged(m: Meta, cs: seq<Cell>, t: BlockType, tail: bool): Bytes {
    var levels := SegmentOf(RepSegment, m, cs, 0) + SegmentOf(DefSegment, m, cs, 0);
    if tail || t == Crucial then levels + SegmentOf(OffsetSegment, m, cs, 0) + SegmentOf(ValueSegment, m, cs, 0)
    else if t == AllNull then levels
    else []
  }

  /** Bytes of one unit's segment, counted without copying them: `getUsedSize`, `getOffsetArrayUsed`,
      `getWriteValueArrayUsed`. */
  method SegmentUsed(u: ColumnItemArray, s: Segment) returns (n: nat)
    requires u.Valid()
    ensures n == |SegmentOf(s, u.meta, u.Cells(), u.values.base)|
  {
    hide PackedBytes, ValueBytes, OffsetBytes, BitVector.ValidIn, Octets, Zip, RepsOf, DefsOf, ValsOf, Concat, Unit;
    ZipParts(u.reps.vals, u.defs.vals, u.values.vals);
    match s
    case RepSegment =>
      n := BytesUsed(u.reps.used);
      ContentIs(u.reps);
      ContentLength(u.reps);
    case DefSegment =>
      n := BytesUsed(u.defs.used);
      ContentIs(u.defs);
      ContentLength(u.defs);
    case OffsetSegment =>
      ValueParts(u.values);
      if u.meta.dt.Text? {
        n := Unit(u.meta.dt) * u.values.num;
      } else {
        n := 0;
        NoTextOffsets(u.meta.dt, u.values.vals, u.values.base);
      }
    case ValueSegment =>
      n := ValueUsed(u.values);
  }

  lemma ContentLength(bv: BitVector)
    requires bv.ValidIn(bv.mem[..])
    ensures |Content(bv)| == BytesUsed(bv.used)
  {
    if bv.w > 0 { ByteEnd(bv.used, bv.next64, bv.cap); }
  }

  class CAB {
    const meta: Meta                    // m_meta
    const recdCap: nat                  // m_recd_cap of the meta
    var units: seq<ColumnItemArray>     // m_major_unit and m_minor_units; the last is m_cur_unit
    var info: ItemInfo                  // m_item_info
    var bvaBgn: nat                     // m_bva_bgn_off
    ghost var parts: seq<seq<Cell>>     // cells of the units in front of the current one
    ghost var done: set<object>         // those units
    ghost var Repr: set<object>

    ghost predicate Valid()
      reads this, Repr
    {
      && units != [] && |parts| == |units| - 1 && this !in done
      && Repr == {this} + done + units[|units| - 1].Repr && units[|units| - 1] in units[|units| - 1].Repr
      && AllSealed(units, meta, parts, done)
      && CurrentValid()
    }

    ghost predicate CurrentValid()
      requires units != []
      reads this, units[|units| - 1], units[|units| - 1].Repr
    {
      var u := units[|units| - 1];
      && u.Valid() && this !in u.Repr && u.Repr !! done
      && u.meta == meta && u.values.base == bvaBgn == ValueLength(meta, Flat(parts))
      && u.itemCap > 0 && u.itemCap % 8 == 0
    }

    ghost function Cells(): seq<Cell>
      requires Valid()
      reads this, Repr
    {
      Flat(parts) + units[|units| - 1].Cells()
    }

    /** The constructor and `init2write`.  The record capacity is also the item capacity of the first unit. */
    constructor (meta: Meta, recdCap: nat, bgn: nat)
      requires meta.RepWidth() <= 32 && meta.DefWidth() <= 32
      requires recdCap > 0 && recdCap % 8 == 0
      ensures Valid() && fresh(Repr) && Cells() == [] && info == ItemInfo(bgn, 0, 0, 0, 0)
      ensures this.meta == meta && this.recdCap == recdCap && |units| == 1 && units[0].itemCap == recdCap
    {
      this.meta, this.recdCap := meta, recdCap;
      info := ItemInfo(bgn, 0, 0, 0, 0);
      var u := new ColumnItemArray(meta, recdCap, 0);
      units := [u];
      bvaBgn, parts, done := 0, [], {};
      Repr := {this} + u.Repr;
      new;
      NoCells(meta);
    }

    lemma CurrentInside()
      requires Valid()
      ensures units != [] && units[|units| - 1].Repr <= Repr && this in Repr
    {
    }

    /** `checkFull`: a record that begins only has room in a block with fewer records than its capacity. */
    predicate CheckFull(rep: nat)
      reads this
    {
      rep == 0 && info.recdNum + 1 > recdCap
    }

    /** All units are full, and the next one is still to be created. */
    ghost predicate BetweenUnits()
      reads this, done, units
    {
      && |parts| == |units| && this !in done
      && AllSealed(units, meta, parts, done)
      && bvaBgn == ValueLength(meta, Flat(parts))
    }

    /** The first half of `createMinorUnit`: where the values of the next unit begin. */
    method SealCurrent()
      requires Valid() && units[|units| - 1].itemNum == units[|units| - 1].itemCap
      modifies this`bvaBgn, this`parts, this`done
      ensures BetweenUnits() && Flat(parts) == old(Cells()) && done <= old(Repr)
    {
      hide SegmentOf, Flat, ValueLength, Sealed, AllSealed, ColumnItemArray.Cells, Zip, ValueBytes;
      var u := units[|units| - 1];
      ghost var cells := u.Cells();
      PartsFull();
      SegmentConcat(ValueSegment, meta, Flat(parts), cells, 0);
      FlatSnoc(parts, cells);
      SealUnit(units, meta, parts, done);
      UnitLength(u);
      var used := ValueUsed(u.values);
      bvaBgn := bvaBgn + used;
      parts := parts + [cells];
      done := done + u.Repr;
    }

    /** `createMinorUnit`: `expItems` is the item number it estimates from the items per record so far. */
    method CreateMinorUnit(expItems: nat)
      requires Valid() && expItems > 0 && units[|units| - 1].itemNum == units[|units| - 1].itemCap
      requires meta.RepWidth() <= 32 && meta.DefWidth() <= 32
      modifies this
      ensures Valid() && Cells() == old(Cells()) && info == old(info)
      ensures done <= old(Repr) && fresh(units[|units| - 1].Repr)
      ensures |units| == |old(units)| + 1 && units[..|units| - 1] == old(units)
      ensures var u := units[|units| - 1];
              u.itemNum == 0 && u.itemCap % 8 == 0 && expItems <= u.itemCap < expItems + 8
    {
      hide Valid, Cells, Flat, AllSealed, ValueLength, ColumnItemArray.Valid, Meta.RepWidth, Meta.DefWidth;
      SealCurrent();
      var v := new ColumnItemArray(meta, (expItems + 7) / 8 * 8, bvaBgn);
      units := units + [v];
      Repr := {this} + done + v.Repr;
      InRepr(v);
      UnitAdded(v);
    }

    lemma UnitAdded(v: ColumnItemArray)
      requires units != [] && v == units[|units| - 1] && |parts| == |units| - 1 && this !in done
      requires AllSealed(units[..|parts|], meta, parts, done) && Repr == {this} + done + v.Repr
      requires v.Valid() && v in v.Repr && v.itemNum == 0 && this !in v.Repr && v.Repr !! done && v.meta == meta
      requires v.values.base == bvaBgn == ValueLength(meta, Flat(parts)) && v.itemCap > 0 && v.itemCap % 8 == 0
      ensures Valid() && Cells() == Flat(parts)
    {
      hide ColumnItemArray.Valid, Sealed, Flat, ValueLength, ColumnItemArray.Cells;
      assert |v.Cells()| == 0;
      assert Flat(parts) + [] == Flat(parts);
      assert forall k :: 0 <= k < |parts| ==> units[k] == units[..|parts|][k];
    }

    /** Writes to the current unit, which may be full. */
    method WriteCurrent(c: Cell, room: bool) returns (ok: bool)
      requires Valid() && (c.val.Some? ==> meta.dt.Holds(c.val.value))
      modifies units[|units| - 1].Repr
      ensures Valid() && ok == old(units[|units| - 1].itemNum < units[|units| - 1].itemCap)
      ensures Cells() == if ok then old(Cells()) + [c] else old(Cells())
      ensures !ok ==> units[|units| - 1].itemNum == units[|units| - 1].itemCap
    {
      hide ColumnItemArray.Cells, Flat, AllSealed, ValueLength, DataType.Holds, ValueArray.Valid, VectorAt;
      var u := units[|units| - 1];
      ghost var cells := u.Cells();
      ok := u.Write(c, room);
      assert Flat(parts) + (cells + [c]) == Flat(parts) + cells + [c];
    }

    /** `writeNull`, `writeText` and `writeBinVal`: false when the block is full. */
    method Write(c: Cell, room: bool, expItems: nat) returns (got: bool)
      requires Valid() && expItems > 0 && (c.val.Some? ==> meta.dt.Holds(c.val.value))
      requires meta.RepWidth() <= 32 && meta.DefWidth() <= 32
      modifies this, units[|units| - 1].Repr
      ensures Valid() && fresh(Repr - old(Repr))
      ensures got == !old(CheckFull(c.rep))
      ensures Cells() == if got then old(Cells()) + [c] else old(Cells())
      ensures info == if got then old(info).Update(c.rep, c.def, meta.MaxDef()) else old(info)
    {
      hide AllSealed, ColumnItemArray.Valid, ColumnItemArray.Cells, Flat, ValueLength, ItemInfo.Update, DataType.Holds,
           Meta.RepWidth, Meta.DefWidth;
      got := !CheckFull(c.rep);
      if got {
        WriteUnit(c, room, expItems);
        info := info.Update(c.rep, c.def, meta.MaxDef());
      }
    }

    /** The write to the current unit, or to a new one when that is full. */
    method WriteUnit(c: Cell, room: bool, expItems: nat)
      requires Valid() && expItems > 0 && (c.val.Some? ==> meta.dt.Holds(c.val.value))
      requires meta.RepWidth() <= 32 && meta.DefWidth() <= 32
      modifies this, units[|units| - 1].Repr
      ensures Valid() && fresh(Repr - old(Repr)) && info == old(info)
      ensures Cells() == old(Cells()) + [c]
    {
      hide AllSealed, ColumnItemArray.Valid, ColumnItemArray.Cells, Flat, ValueLength, DataType.Holds, Meta.RepWidth,
           Meta.DefWidth, Cells;
      var ok := WriteCurrent(c, room);
      if !ok {
        CreateMinorUnit(expItems);
        ok := WriteCurrent(c, room);
      }
    }

    /** `mergeSegment`: the segment of every unit, in order. */
    method MergeSegment(s: Segment) returns (b: Bytes)
      requires Valid()
      ensures b == SegmentOf(s, meta, Cells(), 0)
    {
      hide SegmentOf, Flat, ValueLength, Sealed, AllSealed, ColumnItemArray.Valid, ColumnItemArray.Cells, BaseOf;
      b := [];
      var i := 0;
      NoSegment(s, meta);
      while i < |units| - 1
        invariant 0 <= i <= |parts| && b == SegmentOf(s, meta, Flat(parts[..i]), 0)
      {
        SealedAt(i);
        var more := AppendSegment(units[i], s);
        NextPart(s, meta, parts, i);
        b := b + more;
        i := i + 1;
      }
      assert parts[..|parts|] == parts;
      var more := AppendSegment(units[i], s);
      PartsFull();
      SegmentConcat(s, meta, Flat(parts), units[i].Cells(), 0);
      b := b + more;
    }

    lemma SealedAt(i: nat)
      requires Valid() && i < |parts|
      ensures units[i].Valid() && units[i].meta == meta && units[i].Cells() == parts[i]
      ensures units[i].values.base == BaseOf(meta, parts, i)
      ensures forall k :: 0 <= k < |parts| ==> |parts[k]| % 8 == 0
    {
      assert forall k :: 0 <= k < |parts| ==> Sealed(units[k], meta, parts[k], BaseOf(meta, parts, k), done);
    }

    /** `merge2Buffer`: what the block's type asks for; the last block of a column goes out in full. */
    method Merge2Buffer(tail: bool) returns (b: Bytes)
      requires Valid()
      ensures b == Merged(meta, Cells(), info.GetType(), tail)
    {
      hide SegmentOf, Valid, Cells;
      b := [];
      var t := info.GetType();
      if t == Trivial && !tail { return; }
      var more := MergeSegment(RepSegment);
      b := b + more;
      more := MergeSegment(DefSegment);
      b := b + more;
      if t == AllNull && !tail { return; }
      more := MergeSegment(OffsetSegment);
      b := b + more;
      more := MergeSegment(ValueSegment);
      b := b + more;
    }

    /** Bytes of one segment over all units. */
    method SegmentsUsed(s: Segment) returns (n: nat)
      requires Valid()
      ensures n == |SegmentOf(s, meta, Cells(), 0)|
    {
      hide SegmentOf, Flat, ValueLength, Sealed, AllSealed, ColumnItemArray.Valid, ColumnItemArray.Cells, BaseOf;
      n := 0;
      var i := 0;
      NoSegment(s, meta);
      assert parts[..0] == [];
      while i < |units| - 1
        invariant 0 <= i <= |parts| && n == |SegmentOf(s, meta, Flat(parts[..i]), 0)|
      {
        SealedAt(i);
        var more := SegmentUsed(units[i], s);
        NextPart(s, meta, parts, i);
        n := n + more;
        i := i + 1;
      }
      assert parts[..|parts|] == parts;
      var more := SegmentUsed(units[i], s);
      PartsFull();
      SegmentConcat(s, meta, Flat(parts), units[i].Cells(), 0);
      n := n + more;
    }

    /** `getMergedUsed`: exactly the bytes that `merge2Buffer` is going to write. */
    method GetMergedUsed(tail: bool) returns (total: nat)
      requires Valid()
      ensures total == |Merged(meta, Cells(), info.GetType(), tail)|
    {
      hide SegmentOf, Valid, Cells;
      total := 0;
      var t := if tail then Crucial else info.GetType();
      if t == Crucial {
        var off := SegmentsUsed(OffsetSegment);
        var val := SegmentsUsed(ValueSegment);
        total := total + off + val;
      }
      if t == Crucial || t == AllNull {
        var rep := SegmentsUsed(RepSegment);
        var def := SegmentsUsed(DefSegment);
        total := total + rep + def;
      }
    }

    lemma PartsFull()
      requires Valid()
      ensures |Flat(parts)| % 8 == 0
    {
      FlatWhole(parts);
    }
  }

  lemma FlatSnoc(parts: seq<seq<Cell>>, cells: seq<Cell>)
    ensures Flat(parts + [cells]) == Flat(parts) + cells
  {
    assert (parts + [cells])[..|parts|] == parts;
  }

  lemma {:induction false} FlatWhole(parts: seq<seq<Cell>>)
    requires forall k :: 0 <= k < |parts| ==> |parts[k]| % 8 == 0
    ensures |Flat(parts)| % 8 == 0
  {
    if parts != [] {
      var n := |parts| - 1;
      FlatWhole(parts[..n]);
      assert |parts[n]| % 8 == 0;
      Whole8(|Flat(parts[..n])|, |parts[n]|);
    }
  }

  lemma Whole8(a: nat, b: nat)
    requires a % 8 == 0 && b % 8 == 0
    ensures (a + b) % 8 == 0
  {
  }

  lemma NoCells(m: Meta)
    ensures ValueLength(m, Flat([])) == 0
  {
  }

  // ---- Items and cells ----

  /** What the writer hands to its block for an item. */
  function CellOf(m: Meta, it: Item): Cell { Cell(m.Rept().Encode(it.rep), it.def, it.val) }

  function CellsOf(m: Meta, its: seq<Item>): (cs: seq<Cell>)
    ensures |cs| == |its|
  {
    seq(|its|, i requires 0 <= i < |its| => CellOf(m, its[i]))
  }

  lemma CellParts(m: Meta, its: seq<Item>)
    ensures RepsOf(CellsOf(m, its)) == Reps(m, its)
    ensures DefsOf(CellsOf(m, its)) == Defs(its)
    ensures ValsOf(CellsOf(m, its)) == Vals(its)
  {
    hide ReptType.Encode, Meta.Rept;
  }

  /** However the items are spread over units, the block's bytes are those of all its items in one. */
  lemma MergedIsStored(m: Meta, bgn: nat, its: seq<Item>, tail: bool)
    ensures Merged(m, CellsOf(m, its), Counted(m, bgn, its).GetType(), tail) == Stored(m, bgn, its, tail)
  {
    hide PackedBytes, Counted, ValueBytes, OffsetBytes, RepsOf, DefsOf, ValsOf, Reps, Defs, Vals, CellsOf,
         Meta.RepWidth, Meta.DefWidth, ItemInfo.GetType;
    CellParts(m, its);
    var l, o, v := Levels(m, its), OffsetBytes(m.dt, Vals(its), 0), ValueBytes(m.dt, Vals(its));
    Regroup(l, o, v);
  }
}
