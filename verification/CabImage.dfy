// Bytes of a block, and reading them back item by item.

module CabImage {
  import opened Wrappers
  import opened Bytes
  import opened Bits
  import opened Records
  import opened CabFormat

  const OFF: nat := 4                      // sizeof(uint32_t), one offset
  const INVALID_OFF: nat := 0xFFFF_FFFF    // s_invalid_off: no value here

  // ---- Writing ----

  function Reps(m: Meta, its: seq<Item>): (r: seq<nat>)
    ensures |r| == |its|
  {
    seq(|its|, i requires 0 <= i < |its| => m.Rept().Encode(its[i].rep))
  }

  function Defs(its: seq<Item>): (r: seq<nat>)
    ensures |r| == |its|
  {
    seq(|its|, i requires 0 <= i < |its| => its[i].def)
  }

  function Vals(its: seq<Item>): (r: seq<Option<Bytes>>)
    ensures |r| == |its|
  {
    seq(|its|, i requires 0 <= i < |its| => its[i].val)
  }

  function ValueBytes(dt: DataType, vals: seq<Option<Bytes>>): Bytes {
    if vals == [] then [] else ValueBytes(dt, vals[..|vals| - 1]) + dt.Place(vals[|vals| - 1])
  }

  /** Offsets of the values behind `base` bytes of earlier ones. */
  function OffsetsFrom(dt: DataType, vals: seq<Option<Bytes>>, base: nat): (o: seq<nat>)
    ensures |o| == |vals|
  {
    if vals == [] then []
    else
      var front := vals[..|vals| - 1];
      OffsetsFrom(dt, front, base) + [if vals[|vals| - 1].None? then INVALID_OFF else base + |ValueBytes(dt, front)|]
  }

  function OffsetBytes(dt: DataType, vals: seq<Option<Bytes>>, base: nat): Bytes {
    if dt.Text? then Table(OffsetsFrom(dt, vals, base), OFF) else []
  }

  function RepBytes(m: Meta, its: seq<Item>): (b: Bytes)
    ensures |b| == SegBytes(m.RepWidth(), |its|)
  {
    PackedBytes(Reps(m, its), m.RepWidth())
  }

  function DefBytes(m: Meta, its: seq<Item>): (b: Bytes)
    ensures |b| == SegBytes(m.DefWidth(), |its|)
  {
    PackedBytes(Defs(its), m.DefWidth())
  }

  function Levels(m: Meta, its: seq<Item>): Bytes { RepBytes(m, its) + DefBytes(m, its) }

  function Values(m: Meta, its: seq<Item>): Bytes {
    OffsetBytes(m.dt, Vals(its), 0) + ValueBytes(m.dt, Vals(its))
  }

  /** What is flushed for a block: the last block of a column always in full. */
  function Stored(m: Meta, bgn: nat, its: seq<Item>, tail: bool): Bytes {
    var t := Counted(m, bgn, its).GetType();
    if tail || t == Crucial then Levels(m, its) + Values(m, its)
    else if t == AllNull then Levels(m, its)
    else []
  }

  // ---- Reading ----

  /** The text at a position, up to and with its NUL. */
  function TextAt(b: Bytes, at: nat): Bytes
    decreases |b| - at
  {
    if at >= |b| then [] else if b[at] == 0 then [0] else [b[at]] + TextAt(b, at + 1)
  }

  /** The value of item i in the value segment of a block of num items. */
  function ReadValue(dt: DataType, seg: Bytes, num: nat, i: nat): Option<Bytes> {
    match dt
    case Fixed(nil) =>
      if |nil| * (i + 1) <= |seg| then Some(seg[|nil| * i..|nil| * (i + 1)]) else None
    case Text =>
      if OFF * num > |seg| || i >= num then None
      else
        var off := Load(seg[OFF * i..OFF * (i + 1)]);
        if off == INVALID_OFF then None else Some(TextAt(seg, OFF * num + off))
  }

  /** Element i of a packed vector that occupies the bytes from `at` on. */
  function LevelAt(content: Bytes, at: nat, num: nat, w: nat, i: nat): nat {
    if i < num && at + SegBytes(w, num) <= |content| then
      ElementFits(w, i, num);
      Element(BitsOf(content[at..at + SegBytes(w, num)]), i, w)
    else 0
  }

  /** `CAB::read` of item i with the repetition level decoded.  Only an item at the leaf's own level has a value. */
  function ReadAt(m: Meta, t: BlockType, num: nat, content: Bytes, i: nat): Item {
    if t == Trivial then Item(m.Rept().Decode(0), 0, None)
    else
      var r, d := m.RepWidth(), m.DefWidth();
      var at, vat := SegBytes(r, num), SegBytes(r, num) + SegBytes(d, num);
      var rep := m.Rept().Decode(LevelAt(content, 0, num, r, i));
      var def := LevelAt(content, at, num, d, i);
      if t == AllNull || def != m.MaxDef() || vat > |content| then Item(rep, def, None)
      else Item(rep, def, ReadValue(m.dt, content[vat..], num, i))
  }

  // ---- Reading gives back what was written ----

  /** Element i of a padded vector. */
  lemma PaddedElement(vals: seq<nat>, w: nat, i: nat)
    requires i < |vals| && vals[i] < Pow2(w)
    ensures Total(w, i) + w <= |Padded(Pack(vals, w))| && Element(Padded(Pack(vals, w)), i, w) == vals[i]
  {
    hide Pack, Padded, FromBits, Pow2, Cut;
    var p := Pack(vals, w);
    PackElement(vals, w, i);
    ElementFits(w, i, |vals|);
    assert Padded(p)[Total(w, i)..Total(w, i) + w] == p[Total(w, i)..Total(w, i) + w];
    CutSmall(vals[i], w);
  }

  lemma LevelBack(vals: seq<nat>, w: nat, pre: Bytes, post: Bytes, i: nat)
    requires i < |vals| && vals[i] < Pow2(w)
    ensures LevelAt(pre + PackedBytes(vals, w) + post, |pre|, |vals|, w, i) == vals[i]
  {
    hide Pack, Padded, Element, Octets, BitsOf, Pow2;
    var p := Padded(Pack(vals, w));
    PaddedElement(vals, w, i);
    BitsOfOctets(p);
    PackLength(vals, w);
    var seg := Octets(p);
    var content := pre + seg + post;
    assert content[|pre|..|pre| + SegBytes(w, |vals|)] == seg;
    ElementFits(w, i, |vals|);
  }

  lemma {:induction false} TextBack(v: Bytes, post: Bytes)
    requires Text.Holds(v)
    ensures TextAt(v + post, 0) == v
  {
    if |v| > 1 {
      assert v[0] == v[..|v| - 1][0];
      assert v[1..][..|v| - 2] == v[..|v| - 1][1..];
      TextBack(v[1..], post);
      TextShift(v + post, 1);
      assert (v + post)[1..] == v[1..] + post;
    }
  }

  lemma {:induction false} TextShift(b: Bytes, at: nat)
    requires at <= |b|
    ensures TextAt(b, at) == TextAt(b[at..], 0)
    decreases |b| - at
  {
    if at < |b| && b[at] != 0 {
      TextShift(b, at + 1);
      TextShift(b[at..], 1);
      assert b[at..][1..] == b[at + 1..];
    }
  }

  lemma {:induction false} TableConcat(a: seq<nat>, b: seq<nat>, w: nat)
    ensures Table(a + b, w) == Table(a, w) + Table(b, w)
  {
    hide Store;
    if b == [] {
      assert a + b == a;
    } else {
      var front := b[..|b| - 1];
      TableConcat(a, front, w);
      assert (a + b)[..|a + b| - 1] == a + front;
      Assoc(Table(a, w), Table(front, w), Store(b[|b| - 1], w));
    }
  }

  lemma Assoc(x: Bytes, y: Bytes, z: Bytes)
    ensures x + (y + z) == x + y + z
  {
  }

  lemma MiddleOf(x: Bytes, y: Bytes, z: Bytes)
    ensures (x + y + z)[|x|..|x| + |y|] == y
  {
  }

  lemma TableEntry(ns: seq<nat>, w: nat, i: nat)
    requires i < |ns|
    ensures w * (i + 1) <= w * |ns| && Table(ns, w)[w * i..w * (i + 1)] == Store(ns[i], w)
  {
    ProductFits(w, i, |ns|);
    var a, b := ns[..i], ns[i + 1..];
    assert ns == a + [ns[i]] + b;
    OneEntry(ns[i], w);
    TableConcat(a, [ns[i]], w);
    TableConcat(a + [ns[i]], b, w);
    hide Table, Store;
    MiddleOf(Table(a, w), Store(ns[i], w), Table(b, w));
  }

  lemma OneEntry(n: nat, w: nat)
    ensures Table([n], w) == Store(n, w)
  {
    var one := [n];
    assert one[..0] == [];
  }

  /** Where value i lies among the bytes of all values. */
  lemma {:induction false} PlaceOf(dt: DataType, vals: seq<Option<Bytes>>, i: nat)
    requires i < |vals|
    ensures ValueBytes(dt, vals[..i]) + dt.Place(vals[i]) <= ValueBytes(dt, vals)
    ensures OffsetsFrom(dt, vals, 0)[i] == if vals[i].None? then INVALID_OFF else |ValueBytes(dt, vals[..i])|
  {
    var n := |vals| - 1;
    if i < n {
      PlaceOf(dt, vals[..n], i);
      assert vals[..n][..i] == vals[..i];
    }
  }

  lemma {:induction false} FixedPlaces(nil: Bytes, vals: seq<Option<Bytes>>)
    requires forall i :: 0 <= i < |vals| && vals[i].Some? ==> |vals[i].value| == |nil|
    ensures |ValueBytes(Fixed(nil), vals)| == |nil| * |vals|
  {
    if vals != [] {
      FixedPlaces(nil, vals[..|vals| - 1]);
      NextMultiple(|nil|, |vals|);
    }
  }

  lemma NextMultiple(a: nat, n: nat)
    requires n > 0
    ensures a * n == a * (n - 1) + a
  {
  }

  /** Values of a block that can be written: each of its data type, and offsets that fit. */
  ghost predicate Writable(dt: DataType, vals: seq<Option<Bytes>>) {
    && (forall i :: 0 <= i < |vals| && vals[i].Some? ==> dt.Holds(vals[i].value))
    && (dt.Text? ==> |ValueBytes(dt, vals)| < INVALID_OFF)
  }

  lemma SliceOf(u: Bytes, seg: Bytes, a: nat, b: nat)
    requires u <= seg && a <= b <= |u|
    ensures seg[a..b] == u[a..b]
  {
  }

  lemma FixedBack(nil: Bytes, vals: seq<Option<Bytes>>, i: nat)
    requires Writable(Fixed(nil), vals) && i < |vals| && vals[i].Some?
    ensures ReadValue(Fixed(nil), ValueBytes(Fixed(nil), vals), |vals|, i) == vals[i]
  {
    hide ValueBytes, OffsetsFrom;
    var seg := ValueBytes(Fixed(nil), vals);
    FixedPlaces(nil, vals);
    FixedPlaces(nil, vals[..i]);
    PlaceOf(Fixed(nil), vals, i);
    ProductFits(|nil|, i, |vals|);
    var w := ValueBytes(Fixed(nil), vals[..i]);
    assert |vals[..i]| == i && |w| == |nil| * i;
    var v := vals[i].value;
    assert |v| == |nil|;
    SliceOf(w + v, seg, |w|, |w| + |v|);
    assert (w + v)[|w|..|w| + |v|] == v;
  }

  /** Offset i of a text block, and the text it points to. */
  lemma TextOffset(vals: seq<Option<Bytes>>, i: nat, b: Bytes)
    requires Writable(Text, vals) && i < |vals| && vals[i].Some?
    ensures OFF * (i + 1) <= OFF * |vals|
    ensures Load((OffsetBytes(Text, vals, 0) + b)[OFF * i..OFF * (i + 1)])
        == |ValueBytes(Text, vals[..i])| < INVALID_OFF
  {
    hide ValueBytes, OffsetsFrom, Table, Load;
    var offs := OffsetsFrom(Text, vals, 0);
    PlaceOf(Text, vals, i);
    TableEntry(offs, OFF, i);
    SliceOf(Table(offs, OFF), Table(offs, OFF) + b, OFF * i, OFF * (i + 1));
    OffsetBack(|ValueBytes(Text, vals[..i])|);
  }

  lemma TextThere(o: Bytes, w: Bytes, v: Bytes, post: Bytes)
    requires Text.Holds(v)
    ensures TextAt(o + (w + v + post), |o| + |w|) == v
  {
    hide *;
    TextShift(o + (w + v + post), |o| + |w|);
    DropAll(o, w, v, post);
    TextBack(v, post);
  }

  lemma DropAll(o: Bytes, w: Bytes, v: Bytes, post: Bytes)
    ensures (o + (w + v + post))[|o| + |w|..] == v + post
  {
  }

  lemma Behind(u: Bytes, b: Bytes)
    requires u <= b
    ensures b == u + b[|u|..]
  {
  }

  lemma OffsetBytesLength(vals: seq<Option<Bytes>>)
    ensures |OffsetBytes(Text, vals, 0)| == OFF * |vals|
  {
  }

  /** Text v lies in b behind w. */
  ghost predicate LiesAt(b: Bytes, w: Bytes, v: Bytes) { w + v <= b }

  lemma TextLies(o: Bytes, b: Bytes, w: Bytes, v: Bytes)
    requires LiesAt(b, w, v) && Text.Holds(v)
    ensures TextAt(o + b, |o| + |w|) == v
  {
    hide TextAt;
    Behind(w + v, b);
    TextThere(o, w, v, b[|w + v|..]);
  }

  lemma TextValueBack(vals: seq<Option<Bytes>>, i: nat)
    requires Writable(Text, vals) && i < |vals| && vals[i].Some?
    ensures ReadValue(Text, OffsetBytes(Text, vals, 0) + ValueBytes(Text, vals), |vals|, i) == vals[i]
  {
    PlaceOf(Text, vals, i);
    assert LiesAt(ValueBytes(Text, vals), ValueBytes(Text, vals[..i]), vals[i].value);
    assert Text.Holds(vals[i].value);
    TextAtPlace(vals, i, OffsetBytes(Text, vals, 0), ValueBytes(Text, vals), ValueBytes(Text, vals[..i]),
        vals[i].value);
  }

  lemma TextAtPlace(vals: seq<Option<Bytes>>, i: nat, o: Bytes, b: Bytes, w: Bytes, v: Bytes)
    requires Writable(Text, vals) && i < |vals| && vals[i] == Some(v) && Text.Holds(v)
    requires o == OffsetBytes(Text, vals, 0) && w == ValueBytes(Text, vals[..i]) && LiesAt(b, w, v)
    ensures ReadValue(Text, o + b, |vals|, i) == vals[i]
  {
    hide *;
    OffsetBytesLength(vals);
    TextOffset(vals, i, b);
    TextLies(o, b, w, v);
    ReadText(o + b, |vals|, i, |w|);
  }

  lemma ReadText(seg: Bytes, num: nat, i: nat, off: nat)
    requires i < num && OFF * num <= |seg| && Load(seg[OFF * i..OFF * (i + 1)]) == off < INVALID_OFF
    ensures ReadValue(Text, seg, num, i) == Some(TextAt(seg, OFF * num + off))
  {
    hide Load, TextAt;
  }

  lemma OffsetBack(off: nat)
    requires off < INVALID_OFF
    ensures Load(Store(off, OFF)) == off
  {
    assert Power256(0) == 1 && Power256(1) == 256 && Power256(2) == 0x1_0000 && Power256(3) == 0x100_0000;
    LoadStore(off, OFF);
  }

  lemma NoOffsets(nil: Bytes, vals: seq<Option<Bytes>>)
    ensures OffsetBytes(Fixed(nil), vals, 0) + ValueBytes(Fixed(nil), vals) == ValueBytes(Fixed(nil), vals)
  {
  }

  lemma ValueBack(dt: DataType, vals: seq<Option<Bytes>>, i: nat)
    requires Writable(dt, vals) && i < |vals| && vals[i].Some?
    ensures ReadValue(dt, OffsetBytes(dt, vals, 0) + ValueBytes(dt, vals), |vals|, i) == vals[i]
  {
    hide *;
    match dt
    case Fixed(nil) =>
      NoOffsets(nil, vals);
      FixedBack(nil, vals, i);
    case Text => TextValueBack(vals, i);
  }

  /** Levels read back. */
  lemma LevelsBack(m: Meta, its: seq<Item>, post: Bytes, i: nat)
    requires AllFit(m, its) && i < |its|
    ensures var content, n, r, d := Levels(m, its) + post, |its|, m.RepWidth(), m.DefWidth();
            && m.Rept().Decode(LevelAt(content, 0, n, r, i)) == its[i].rep
            && LevelAt(content, SegBytes(r, n), n, d, i) == its[i].def
            && content[SegBytes(r, n) + SegBytes(d, n)..] == post
  {
    hide LevelAt;
    var it, n, r, d := its[i], |its|, m.RepWidth(), m.DefWidth();
    assert Fits(m, it);
    DecodeEncode(m.rept, m.path, it.rep);
    UsedBitsLeast(m.Rept().Encode(it.rep), r);
    var rb, db := RepBytes(m, its), DefBytes(m, its);
    EncodeFits(m, it.rep);
    LevelBack(Reps(m, its), r, [], db + post, i);
    assert [] + rb + (db + post) == Levels(m, its) + post;
    DefFits(m, it.def);
    LevelBack(Defs(its), d, rb, post, i);
  }

  lemma EncodeFits(m: Meta, rep: nat)
    requires Level(m.rept, m.path, rep)
    ensures m.Rept().Encode(rep) < Pow2(m.RepWidth())
  {
    DecodeEncode(m.rept, m.path, rep);
  }

  lemma DefFits(m: Meta, def: nat)
    requires def <= |m.path|
    ensures def < Pow2(m.DefWidth())
  {
  }

  /** Storage transparency for one block: whatever its type, every item reads back as it was written. */
  lemma ReadBack(m: Meta, bgn: nat, its: seq<Item>, tail: bool, i: nat)
    requires AllFit(m, its) && Writable(m.dt, Vals(its)) && i < |its|
    ensures ReadAt(m, Counted(m, bgn, its).GetType(), |its|, Stored(m, bgn, its, tail), i) == its[i]
  {
    var t := Counted(m, bgn, its).GetType();
    TypeFacts(m, bgn, its);
    assert Fits(m, its[i]);
    hide Counted, LevelAt, Levels, Values, Writable, ReadValue;
    if t == Trivial {
      assert IsTrivial(its[i]);
    } else {
      var post := if tail || t == Crucial then Values(m, its) else [];
      assert Stored(m, bgn, its, tail) == Levels(m, its) + post by { assert Levels(m, its) + [] == Levels(m, its); }
      LevelsBack(m, its, post, i);
      LevelsLength(m, its);
      if t == Crucial && its[i].val.Some? {
        ValuesBack(m, its, i);
      }
    }
  }

  lemma LevelsLength(m: Meta, its: seq<Item>)
    ensures |Levels(m, its)| == SegBytes(m.RepWidth(), |its|) + SegBytes(m.DefWidth(), |its|)
  {
  }

  /** Bytes of all texts of a block. */
  function TextLength(vals: seq<Option<Bytes>>): nat {
    if vals == [] then 0
    else TextLength(vals[..|vals| - 1]) + if vals[|vals| - 1].Some? then |vals[|vals| - 1].value| else 0
  }

  lemma {:induction false} TextLengthIs(vals: seq<Option<Bytes>>)
    ensures |ValueBytes(Text, vals)| == TextLength(vals)
  {
    if vals != [] { TextLengthIs(vals[..|vals| - 1]); }
  }

  /** Offset i of a text block: 2^32 - 1 for a missing value, or else the bytes of the texts before it. */
  lemma OffsetWord(vals: seq<Option<Bytes>>, i: nat)
    requires Writable(Text, vals) && i < |vals|
    ensures |OffsetBytes(Text, vals, 0)| == 4 * |vals|
    ensures Load(OffsetBytes(Text, vals, 0)[4 * i..4 * i + 4])
            == if vals[i].None? then 4294967295 else TextLength(vals[..i])
  {
    hide ValueBytes, OffsetsFrom, Table, Load, TextLength, Writable;
    OffsetBytesLength(vals);
    PlaceOf(Text, vals, i);
    TableEntry(OffsetsFrom(Text, vals, 0), OFF, i);
    TextLengthIs(vals[..i]);
    if vals[i].None? {
      FullWord();
    } else {
      TextOffset(vals, i, []);
      assert OffsetBytes(Text, vals, 0) + [] == OffsetBytes(Text, vals, 0);
    }
  }

  lemma FullWord()
    ensures Load(Store(INVALID_OFF, OFF)) == 4294967295
  {
    assert Power256(0) == 1 && Power256(1) == 256 && Power256(2) == 0x1_0000 && Power256(3) == 0x100_0000;
    LoadStore(INVALID_OFF, OFF);
  }

  lemma ValuesLength(m: Meta, its: seq<Item>)
    requires AllFit(m, its)
    ensures |Values(m, its)|
            == match m.dt case Fixed(nil) => |nil| * |its| case Text => 4 * |its| + TextLength(Vals(its))
  {
    assert forall i :: 0 <= i < |its| ==> Fits(m, its[i]);
    hide ValueBytes, OffsetsFrom, Table, AllFit;
    if m.dt.Text? {
      TextLengthIs(Vals(its));
      OffsetBytesLength(Vals(its));
    } else {
      FixedPlaces(m.dt.nil, Vals(its));
    }
  }

  /** How long a block is: its levels in the least number of whole bytes each; and in a block with values, or in
      the last one, a place for every value, or four bytes for an offset and the bytes of the text. */
  lemma StoredLength(m: Meta, bgn: nat, its: seq<Item>, tail: bool)
    requires AllFit(m, its)
    ensures var n, r, d := |its|, m.RepWidth() * |its|, m.DefWidth() * |its|;
            var some := exists i :: 0 <= i < n && its[i].val.Some?;
            var quiet := forall i :: 0 <= i < n ==> its[i].rep == 0 && its[i].def == 0;
            var values := match m.dt case Fixed(nil) => |nil| * n case Text => 4 * n + TextLength(Vals(its));
            |Stored(m, bgn, its, tail)|
            == if tail || some then (r + 7) / 8 + (d + 7) / 8 + values
               else if quiet then 0 else (r + 7) / 8 + (d + 7) / 8
  {
    hide AllFit, Counted, Levels, Values, Vals, TextLength, Total, Meta.RepWidth, Meta.DefWidth, ItemInfo.GetType;
    TypeFacts(m, bgn, its);
    LevelsLength(m, its);
    ValuesLength(m, its);
    TotalIs(m.RepWidth(), |its|);
    TotalIs(m.DefWidth(), |its|);
  }

  lemma ValuesBack(m: Meta, its: seq<Item>, i: nat)
    requires Writable(m.dt, Vals(its)) && i < |its| && its[i].val.Some?
    ensures ReadValue(m.dt, Values(m, its), |its|, i) == its[i].val
  {
    hide Writable, ReadValue, ValueBytes, OffsetBytes;
    ValueBack(m.dt, Vals(its), i);
  }
}
