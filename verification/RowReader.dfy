// Reading packaged structs: the getters of RowStruct and RowObjectOperator over the bytes of a buffer.

module RowReader {
  import opened Wrappers
  import opened Bytes
  import opened Bits
  import opened CabImage
  import opened Records
  import opened RowCodec

  const ID_LIMIT: nat := 0x1_0000
  const SIZE_LIMIT: nat := 0x1_0000_0000
  const UINT32_MAX: nat := 0xFFFF_FFFF

  /** The unsigned integer of w bytes at a position. */
  function LoadAt(m: Bytes, pos: int, w: nat): nat {
    if 0 <= pos && pos + w <= |m| then Load(m[pos..pos + w]) else 0
  }

  // ---- The struct that begins at position bgn ----

  function TotalSize(m: Bytes, bgn: nat): nat { LoadAt(m, bgn, HEAD) }

  function Info(m: Bytes, bgn: nat): nat { LoadAt(m, bgn + TotalSize(m, bgn) - INFO, INFO) }

  /** `Info::getFlag` and `getNumber`. */
  function Flag(m: Bytes, bgn: nat): nat { Info(m, bgn) / NUM_LIMIT }

  function ElemNum(m: Bytes, bgn: nat): nat { Info(m, bgn) % NUM_LIMIT }

  function Width(m: Bytes, bgn: nat): nat { OffsetUsed(Flag(m, bgn)) }

  function OffSize(m: Bytes, bgn: nat): nat { Width(m, bgn) * ElemNum(m, bgn) }

  function OffBegin(m: Bytes, bgn: nat): int { bgn + TotalSize(m, bgn) - INFO - OffSize(m, bgn) }

  function Offset(m: Bytes, bgn: nat, i: nat): nat { LoadAt(m, OffBegin(m, bgn) + Width(m, bgn) * i, Width(m, bgn)) }

  /** Bytes between the size word and the offsets. */
  function ValSize(m: Bytes, bgn: nat): int { TotalSize(m, bgn) - HEAD - INFO - OffSize(m, bgn) }

  function BinVal(m: Bytes, bgn: nat, i: nat): nat { bgn + HEAD + Offset(m, bgn, i) }

  /** `RowStruct::getBinSize`: up to the next offset, or for the last element to the end of the values. */
  function BinSize(m: Bytes, bgn: nat, i: nat): int {
    if i + 1 == ElemNum(m, bgn) then ValSize(m, bgn) - Offset(m, bgn, i)
    else Offset(m, bgn, i + 1) - Offset(m, bgn, i)
  }

  // ---- Objects: ids lie between the values and the offsets ----

  function IdSize(m: Bytes, bgn: nat): nat { ID * ElemNum(m, bgn) }

  function RowId(m: Bytes, bgn: nat, i: nat): nat { LoadAt(m, OffBegin(m, bgn) - IdSize(m, bgn) + ID * i, ID) }

  /** `RowObjectOperator::getBinSize`: the ids are no part of the last member. */
  function ObjectBinSize(m: Bytes, bgn: nat, i: nat): int {
    BinSize(m, bgn, i) - if i + 1 == ElemNum(m, bgn) then IdSize(m, bgn) else 0
  }

  // ---- What is written can be read ----

  /** The struct's parts fit their machine sizes. */
  ghost predicate StructFits(ids: seq<nat>, blobs: seq<Bytes>) {
    && |Struct(ids, blobs)| < SIZE_LIMIT && |blobs| < NUM_LIMIT
    && forall i :: 0 <= i < |ids| ==> ids[i] < ID_LIMIT
  }

  lemma Widths()
    ensures Power256(1) == 0x100 && Power256(2) == 0x1_0000 && Power256(4) == 0x1_0000_0000
  {
    assert Power256(0) == 1 && Power256(3) == 0x100_0000;
  }

  /** Every offset fits the width that the length of all values selects. */
  lemma OffsetFits(vlen: nat, off: nat)
    requires off <= vlen < UINT32_MAX
    ensures off < Power256(OffsetUsed(CalcFlag(vlen))) && 1 <= CalcFlag(vlen) <= 3
  {
    Widths();
  }

  /** Bytes of one offset for so many bytes of values: the least of 1, 2 and 4 that hold their number. */
  function WidthFor(vlen: nat): nat {
    if vlen < 256 then 1 else if vlen < 65536 then 2 else 4
  }

  /** The unsigned integer of four bytes, the lowest first. */
  function Word(b: Bytes): nat
    requires |b| == 4
  {
    var b0: nat, b1: nat, b2: nat, b3: nat := b[0], b[1], b[2], b[3];
    b0 + 256 * b1 + 65536 * b2 + 16777216 * b3
  }

  lemma LoadWord(b: Bytes)
    requires |b| == 4
    ensures Load(b) == Word(b)
  {
    assert b[1..][1..] == b[2..] && b[2..][1..] == b[3..] && b[3..][1..] == [];
    assert Load(b[3..]) == b[3];
    assert Load(b[2..]) == b[2] + 256 * Load(b[3..]);
    assert Load(b[1..]) == b[1] + 256 * Load(b[2..]);
  }

  /** How long a struct is: a size word, the values, two bytes for an id, the offsets in the least width that
      holds the length of the values, and one more word. */
  lemma StructLength(ids: seq<nat>, blobs: seq<Bytes>)
    requires |Concat(blobs)| < UINT32_MAX
    ensures var vlen := |Concat(blobs)|;
            |Struct(ids, blobs)| == 4 + vlen + 2 * |ids| + WidthFor(vlen) * |blobs| + 4
  {
    Parts([], ids, blobs, []);
    hide Struct, Table, Store, InfoWord;
  }

  /** The words at both ends of a struct: its size; and the number of its elements, with the width of an offset
      in the two high bits. */
  lemma StructWords(ids: seq<nat>, blobs: seq<Bytes>)
    requires StructFits(ids, blobs) && |Concat(blobs)| < UINT32_MAX
    ensures var s := Struct(ids, blobs);
            var width := WidthFor(|Concat(blobs)|);
            && |s| >= 8 && Word(s[..4]) == |s|
            && Word(s[|s| - 4..]) == |blobs| + 1073741824 * (if width == 1 then 1 else if width == 2 then 2 else 3)
  {
    hide Struct, Concat, Store, Load, Word, Power256;
    var s, flag := Struct(ids, blobs), CalcFlag(|Concat(blobs)|);
    StructEnds(ids, blobs);
    Widths();
    LoadStore(|s|, 4);
    LoadStore(InfoWord(flag, |blobs|), 4);
    LoadWord(s[..4]);
    LoadWord(s[|s| - 4..]);
  }

  lemma StructEnds(ids: seq<nat>, blobs: seq<Bytes>)
    ensures var s := Struct(ids, blobs);
            && |s| >= 8 && s[..4] == Store(|s|, 4)
            && s[|s| - 4..] == Store(InfoWord(CalcFlag(|Concat(blobs)|), |blobs|), 4)
  {
    hide Concat, Offsets, Table, Store, CalcFlag, OffsetUsed, InfoWord;
    var s, v, flag := Struct(ids, blobs), Concat(blobs), CalcFlag(|Concat(blobs)|);
    var x, y := Table(ids, ID), Table(Offsets(blobs), OffsetUsed(flag));
    EndsOf(s, Store(|s|, HEAD), v, x, y, Store(InfoWord(flag, |blobs|), INFO));
  }

  lemma EndsOf(s: Bytes, head: Bytes, v: Bytes, x: Bytes, y: Bytes, info: Bytes)
    requires s == head + v + (x + y + info) && |head| == |info| == 4
    ensures |s| >= 8 && s[..4] == head && s[|s| - 4..] == info
  {
  }

  lemma SliceIn(pre: Bytes, x: Bytes, post: Bytes, n: nat)
    requires n == |pre|
    ensures LoadAt(pre + x + post, n, |x|) == Load(x)
  {
    assert (pre + x + post)[n..n + |x|] == x;
  }

  lemma SliceOfPrefix(pre: Bytes, x: Bytes, m: Bytes)
    requires pre + x <= m
    ensures LoadAt(m, |pre|, |x|) == Load(x)
  {
    hide Load;
    assert m == pre + x + m[|pre + x|..];
    SliceIn(pre, x, m[|pre + x|..], |pre|);
  }

  /** Parts of a struct in the buffer. */
  lemma Parts(pre: Bytes, ids: seq<nat>, blobs: seq<Bytes>, post: Bytes)
    ensures var v, flag := Concat(blobs), CalcFlag(|Concat(blobs)|);
            var offs := Table(Offsets(blobs), OffsetUsed(flag));
            var info := Store(InfoWord(flag, |blobs|), INFO);
            && |Struct(ids, blobs)| == HEAD + |v| + ID * |ids| + OffsetUsed(flag) * |blobs| + INFO
            && pre + Struct(ids, blobs) + post
               == pre + Store(|Struct(ids, blobs)|, HEAD) + v + Table(ids, ID) + offs + info + post
  {
    hide Concat, Offsets, Table, Store, CalcFlag, OffsetUsed, InfoWord;
    var v, flag := Concat(blobs), CalcFlag(|Concat(blobs)|);
    var offs := Table(Offsets(blobs), OffsetUsed(flag));
    var info := Store(InfoWord(flag, |blobs|), INFO);
    var head := Store(|Struct(ids, blobs)|, HEAD);
    assert Struct(ids, blobs) == head + v + (Table(ids, ID) + offs + info);
    assert pre + (head + v + (Table(ids, ID) + offs + info)) + post
        == pre + head + v + Table(ids, ID) + offs + info + post;
  }

  /** Words of the struct: its size, its element number and the width of its offsets. */
  lemma HeaderBack(pre: Bytes, ids: seq<nat>, blobs: seq<Bytes>, post: Bytes)
    requires StructFits(ids, blobs)
    ensures var m, flag := pre + Struct(ids, blobs) + post, CalcFlag(|Concat(blobs)|);
            && TotalSize(m, |pre|) == |Struct(ids, blobs)|
            && ElemNum(m, |pre|) == |blobs|
            && Flag(m, |pre|) == flag && 1 <= flag <= 3
            && OffBegin(m, |pre|) == |pre| + HEAD + |Concat(blobs)| + ID * |ids|
            && ValSize(m, |pre|) == |Concat(blobs)| + ID * |ids|
  {
    hide Concat, Offsets, Table, Store, Load, Struct, LoadAt, Power256, InfoWord, CalcFlag, OffsetUsed;
    var v, flag := Concat(blobs), CalcFlag(|Concat(blobs)|);
    var offs, ids' := Table(Offsets(blobs), OffsetUsed(flag)), Table(ids, ID);
    var head, info := Store(|Struct(ids, blobs)|, HEAD), Store(InfoWord(flag, |blobs|), INFO);
    var m := pre + Struct(ids, blobs) + post;
    Parts(pre, ids, blobs, post);
    OffsetFits(|v|, 0);
    Widths();
    HeadAt(pre, head, v, ids', offs, info, post);
    LoadStore(|Struct(ids, blobs)|, HEAD);
    InfoAt(pre, head, v, ids', offs, info, post);
    InfoBack(flag, |blobs|);
    assert |pre + head + v + ids' + offs| == |pre| + |Struct(ids, blobs)| - INFO;
    assert TotalSize(m, |pre|) == |Struct(ids, blobs)|;
    assert Info(m, |pre|) == InfoWord(flag, |blobs|);
  }

  lemma HeadAt(pre: Bytes, head: Bytes, v: Bytes, ids: Bytes, offs: Bytes, info: Bytes, post: Bytes)
    ensures LoadAt(pre + head + v + ids + offs + info + post, |pre|, |head|) == Load(head)
  {
    hide Load;
    var lead := pre + head;
    assert lead <= lead + v <= lead + v + ids <= lead + v + ids + offs <= lead + v + ids + offs + info;
    SliceOfPrefix(pre, head, lead + v + ids + offs + info + post);
  }

  lemma InfoAt(pre: Bytes, head: Bytes, v: Bytes, ids: Bytes, offs: Bytes, info: Bytes, post: Bytes)
    ensures LoadAt(pre + head + v + ids + offs + info + post, |pre + head + v + ids + offs|, |info|) == Load(info)
  {
    hide Load;
    SliceIn(pre + head + v + ids + offs, info, post, |pre + head + v + ids + offs|);
  }

  lemma InfoBack(flag: nat, num: nat)
    requires 1 <= flag <= 3 && num < NUM_LIMIT
    ensures Load(Store(InfoWord(flag, num), INFO)) == InfoWord(flag, num)
    ensures InfoWord(flag, num) / NUM_LIMIT == flag && InfoWord(flag, num) % NUM_LIMIT == num
  {
    hide Load, Store, Power256;
    Widths();
    LoadStore(InfoWord(flag, num), INFO);
  }

  lemma SliceWithin(a: Bytes, t: Bytes, m: Bytes, pos: nat, lo: nat, w: nat)
    requires a + t <= m && lo + w <= |t| && pos == |a| + lo
    ensures LoadAt(m, pos, w) == Load(t[lo..lo + w])
  {
    assert m[pos..pos + w] == t[lo..lo + w];
  }

  lemma Extend(x: Bytes, y: Bytes, z: Bytes)
    requires x <= y
    ensures x <= y + z
  {
  }

  /** The begin of element i is the length of the values before it. */
  lemma {:induction false} PlaceAt(blobs: seq<Bytes>, i: nat)
    requires i < |blobs|
    ensures Offsets(blobs)[i] == |Concat(blobs[..i])|
    ensures Concat(blobs[..i]) + blobs[i] <= Concat(blobs)
    ensures Concat(blobs[..i + 1]) == Concat(blobs[..i]) + blobs[i]
  {
    var front, last := blobs[..|blobs| - 1], blobs[|blobs| - 1];
    assert blobs[..i + 1][..i] == blobs[..i];
    if i < |front| {
      PlaceAt(front, i);
      assert front[..i] == blobs[..i];
      Extend(Concat(blobs[..i]) + blobs[i], Concat(front), last);
    } else {
      assert blobs[..i + 1] == blobs;
    }
  }

  lemma OffsetAt(pre: Bytes, ids: seq<nat>, blobs: seq<Bytes>, post: Bytes, i: nat)
    requires StructFits(ids, blobs) && i < |blobs|
    ensures Offset(pre + Struct(ids, blobs) + post, |pre|, i) == |Concat(blobs[..i])|
  {
    hide Concat, Offsets, Table, Store, Load, Struct, LoadAt, Power256, InfoWord, CalcFlag, OffsetUsed, StructFits,
         OffBegin, Flag;
    var v, flag := Concat(blobs), CalcFlag(|Concat(blobs)|);
    var w := OffsetUsed(flag);
    var offs, m := Table(Offsets(blobs), w), pre + Struct(ids, blobs) + post;
    var lead := pre + Store(|Struct(ids, blobs)|, HEAD) + v + Table(ids, ID);
    var info := Store(InfoWord(flag, |blobs|), INFO);
    HeaderBack(pre, ids, blobs, post);
    Parts(pre, ids, blobs, post);
    ValuesFit(ids, blobs);
    PlaceAt(blobs, i);
    OffsetFits(|v|, |Concat(blobs[..i])|);
    TableEntry(Offsets(blobs), w, i);
    Scaled(w, i);
    assert lead + offs <= lead + offs + info <= m;
    SliceWithin(lead, offs, m, OffBegin(m, |pre|) + w * i, w * i, w);
    LoadStore(|Concat(blobs[..i])|, w);
  }

  lemma Scaled(w: nat, i: nat)
    ensures w * (i + 1) == w * i + w
  {
  }

  lemma ValuesFit(ids: seq<nat>, blobs: seq<Bytes>)
    requires StructFits(ids, blobs)
    ensures |Concat(blobs)| < UINT32_MAX
  {
    Parts([], ids, blobs, []);
  }

  /** The member ids, which only objects have. */
  lemma RowIdAt(pre: Bytes, ids: seq<nat>, blobs: seq<Bytes>, post: Bytes, i: nat)
    requires StructFits(ids, blobs) && i < |blobs| == |ids|
    ensures RowId(pre + Struct(ids, blobs) + post, |pre|, i) == ids[i]
  {
    hide Concat, Offsets, Table, Store, Load, Struct, LoadAt, Power256, InfoWord, CalcFlag, OffsetUsed, OffBegin, Flag;
    var v, flag := Concat(blobs), CalcFlag(|Concat(blobs)|);
    var offs, m := Table(Offsets(blobs), OffsetUsed(flag)), pre + Struct(ids, blobs) + post;
    var lead := pre + Store(|Struct(ids, blobs)|, HEAD) + v;
    var info := Store(InfoWord(flag, |blobs|), INFO);
    HeaderBack(pre, ids, blobs, post);
    Parts(pre, ids, blobs, post);
    TableEntry(ids, ID, i);
    assert lead + Table(ids, ID) <= lead + Table(ids, ID) + offs <= m;
    SliceWithin(lead, Table(ids, ID), m, OffBegin(m, |pre|) - IdSize(m, |pre|) + ID * i, ID * i, ID);
    Widths();
    LoadStore(ids[i], ID);
  }

  /** The size of element i, and where its bytes are. */
  lemma ElementBack(pre: Bytes, ids: seq<nat>, blobs: seq<Bytes>, post: Bytes, i: nat)
    requires StructFits(ids, blobs) && i < |blobs|
    ensures var m, at := pre + Struct(ids, blobs) + post, BinVal(pre + Struct(ids, blobs) + post, |pre|, i);
            && BinSize(m, |pre|, i) == |blobs[i]| + (if i + 1 == |blobs| then ID * |ids| else 0)
            && at + |blobs[i]| <= |m| && m[at..at + |blobs[i]|] == blobs[i]
  {
    hide Concat, Offsets, Table, Store, Load, Struct, LoadAt, InfoWord, CalcFlag, OffsetUsed, StructFits, OffBegin,
         Flag, Offset, ElemNum, ValSize, TotalSize;
    var m := pre + Struct(ids, blobs) + post;
    HeaderBack(pre, ids, blobs, post);
    OffsetAt(pre, ids, blobs, post, i);
    PlaceAt(blobs, i);
    if i + 1 < |blobs| {
      OffsetAt(pre, ids, blobs, post, i + 1);
    } else {
      assert blobs[..i + 1] == blobs;
    }
    Parts(pre, ids, blobs, post);
    var v, flag := Concat(blobs), CalcFlag(|Concat(blobs)|);
    var lead := pre + Store(|Struct(ids, blobs)|, HEAD);
    var offs, info := Table(Offsets(blobs), OffsetUsed(flag)), Store(InfoWord(flag, |blobs|), INFO);
    assert lead + v <= lead + v + Table(ids, ID) <= lead + v + Table(ids, ID) + offs <= m;
    InValues(lead, v, m, Concat(blobs[..i]), blobs[i]);
  }

  lemma InValues(lead: Bytes, v: Bytes, m: Bytes, before: Bytes, x: Bytes)
    requires lead + v <= m && before + x <= v
    ensures |lead| + |before| + |x| <= |m| && m[|lead| + |before|..|lead| + |before| + |x|] == x
  {
    assert v[|before|..|before| + |x|] == x;
    assert m[..|lead + v|] == lead + v;
    assert (lead + v)[|lead| + |before|..|lead| + |before| + |x|] == x;
  }

  // ---- Whole rows ----

  /** The row's structs fit their machine sizes. */
  ghost predicate RowFits(r: Row)
    decreases r, 1
  {
    match r
    case Empty => true
    case Leaf(_) => true
    case Object(fs) =>
      && StructFits(Ids(EncodeFields(fs)), Blobs(EncodeFields(fs)))
      && forall i :: 0 <= i < |fs| ==> FieldFits(fs[i])
    case Array(es) => StructFits([], EncodeElems(es)) && forall i :: 0 <= i < |es| ==> RowFits(es[i])
  }

  ghost predicate FieldFits(f: RowField)
    decreases f, 0
  {
    RowFits(f.row)
  }

  /** A reader that is told which kind of value to expect finds row r in the `len` bytes from `at` on. */
  ghost predicate Shows(m: Bytes, at: nat, len: int, r: Row)
    decreases r, 1
  {
    match r
    case Empty => len == 0
    case Leaf(b) => len == |b| && at + |b| <= |m| && m[at..at + |b|] == b
    case Object(fs) =>
      && len == TotalSize(m, at) && ElemNum(m, at) == |fs|
      && forall i :: 0 <= i < |fs| ==> ShowsField(m, at, i, fs[i])
    case Array(es) =>
      && len == TotalSize(m, at) && ElemNum(m, at) == |es|
      && forall i :: 0 <= i < |es| ==> Shows(m, BinVal(m, at, i), BinSize(m, at, i), es[i])
  }

  ghost predicate ShowsField(m: Bytes, at: nat, i: nat, f: RowField)
    decreases f, 0
  {
    RowId(m, at, i) == f.id && Shows(m, BinVal(m, at, i), ObjectBinSize(m, at, i), f.row)
  }

  /** What the builder packages, the reader finds: at every depth and wherever the row lies in the buffer. */
  lemma {:induction false} EncodeShown(pre: Bytes, r: Row, post: Bytes)
    requires RowFits(r)
    ensures Shows(pre + Encode(r) + post, |pre|, |Encode(r)|, r)
    decreases r, 1
  {
    var m := pre + Encode(r) + post;
    match r
    case Empty =>
    case Leaf(b) =>
      assert m[|pre|..|pre| + |b|] == b;
    case Object(fs) =>
      var ids, blobs := Ids(EncodeFields(fs)), Blobs(EncodeFields(fs));
      HeaderBack(pre, ids, blobs, post);
      forall i | 0 <= i < |fs| ensures ShowsField(m, |pre|, i, fs[i]) {
        FieldShown(pre, fs, post, i);
      }
    case Array(es) =>
      HeaderBack(pre, [], EncodeElems(es), post);
      forall i | 0 <= i < |es| ensures Shows(m, BinVal(m, |pre|, i), BinSize(m, |pre|, i), es[i]) {
        ElementShown(pre, es, post, i);
      }
  }

  lemma {:induction false} ElementShown(pre: Bytes, es: seq<Row>, post: Bytes, i: nat)
    requires RowFits(Array(es)) && i < |es|
    ensures var m := pre + Encode(Array(es)) + post;
            Shows(m, BinVal(m, |pre|, i), BinSize(m, |pre|, i), es[i])
    decreases es, 0
  {
    hide Struct, BinVal, BinSize, RowId, ElemNum, Shows;
    var m, blobs := pre + Encode(Array(es)) + post, EncodeElems(es);
    ElementBack(pre, [], blobs, post, i);
    var at := BinVal(m, |pre|, i);
    Around(m, at, blobs[i]);
    EncodeShown(m[..at], es[i], m[at + |blobs[i]|..]);
  }

  lemma FieldParts(fs: seq<RowField>, i: nat)
    requires i < |fs|
    ensures Blobs(EncodeFields(fs))[i] == Encode(fs[i].row) && Ids(EncodeFields(fs))[i] == fs[i].id
  {
    assert EncodeFields(fs)[i] == EncodeField(fs[i]);
  }

  lemma {:induction false} FieldShown(pre: Bytes, fs: seq<RowField>, post: Bytes, i: nat)
    requires RowFits(Object(fs)) && i < |fs|
    ensures ShowsField(pre + Encode(Object(fs)) + post, |pre|, i, fs[i])
    decreases fs, 0
  {
    hide Struct, BinVal, BinSize, RowId, ElemNum, Shows, EncodeFields, Blobs, Ids;
    var m := pre + Encode(Object(fs)) + post;
    var ids, blobs := Ids(EncodeFields(fs)), Blobs(EncodeFields(fs));
    assert FieldFits(fs[i]);
    FieldParts(fs, i);
    HeaderBack(pre, ids, blobs, post);
    RowIdAt(pre, ids, blobs, post, i);
    ElementBack(pre, ids, blobs, post, i);
    var at := BinVal(m, |pre|, i);
    Around(m, at, blobs[i]);
    EncodeShown(m[..at], fs[i].row, m[at + |blobs[i]|..]);
  }

  lemma Around(m: Bytes, at: nat, x: Bytes)
    requires at + |x| <= |m| && m[at..at + |x|] == x
    ensures m == m[..at] + x + m[at + |x|..]
  {
  }

  // ---- Looking up a member ----

  ghost predicate IdsGrow(m: Bytes, bgn: nat) {
    forall i, j :: 0 <= i < j < ElemNum(m, bgn) ==> RowId(m, bgn, i) < RowId(m, bgn, j)
  }

  /** `lookupID`: the binary search of the C library over the ids, UINT32_MAX when it finds nothing. */
  method LookupID(m: Bytes, bgn: nat, id: nat) returns (got: nat)
    requires IdsGrow(m, bgn)
    ensures got < ElemNum(m, bgn) ==> RowId(m, bgn, got) == id
    ensures got >= ElemNum(m, bgn) ==> got == UINT32_MAX
    ensures got >= ElemNum(m, bgn) ==> forall i :: 0 <= i < ElemNum(m, bgn) ==> RowId(m, bgn, i) != id
  {
    hide RowId, Info;
    var low, high := 0, ElemNum(m, bgn);
    while low < high
      invariant 0 <= low <= high <= ElemNum(m, bgn)
      invariant forall i :: 0 <= i < low ==> RowId(m, bgn, i) < id
      invariant forall i :: high <= i < ElemNum(m, bgn) ==> id < RowId(m, bgn, i)
    {
      var mid := (low + high) / 2;
      var key := RowId(m, bgn, mid);
      if id < key {
        high := mid;
      } else if id > key {
        low := mid + 1;
      } else {
        return mid;
      }
    }
    got := UINT32_MAX;
  }

  // ---- Re-opening a packaged object ----

  /** The state of an object builder whose object lies at the end of the buffer. */
  datatype OpenObject = OpenObject(buf: Bytes, bgn: nat, ids: seq<nat>, offs: seq<nat>, vlen: nat) {
    /** `appendElem`, then the value's bytes and `appendValue`. */
    function Append(id: nat, v: Bytes): OpenObject {
      OpenObject(buf + v, bgn, ids + [id], offs + [vlen], vlen + |v|)
    }

    function AppendAll(ids': seq<nat>, vs: seq<Bytes>): (r: OpenObject)
      requires |ids'| == |vs|
      ensures r.bgn == bgn
    {
      if vs == [] then this
      else
        var n := |vs| - 1;
        AppendAll(ids'[..n], vs[..n]).Append(ids'[n], vs[n])
    }

    /** `package`: the trailer is written behind the values and the size word is set. */
    function Package(): Bytes {
      if bgn + HEAD <= |buf| then
        var tail := Trailer(ids, offs, vlen);
        buf[..bgn] + Store(HEAD + vlen + |tail|, HEAD) + buf[bgn + HEAD..] + tail
      else []
    }
  }

  /** A builder that was opened with `init` and has received all members. */
  ghost predicate Holds(o: OpenObject, pre: Bytes, ids: seq<nat>, blobs: seq<Bytes>) {
    && |ids| == |blobs| && o.bgn == |pre| && |pre| + HEAD <= |o.buf|
    && o.buf[..|pre|] == pre && o.buf[|pre| + HEAD..] == Concat(blobs)
    && o.ids == ids && o.offs == Offsets(blobs) && o.vlen == |Concat(blobs)|
  }

  /** What `init(bgn)` leaves: the buffer without the trailer, and the recovered vectors. */
  function Reopened(m: Bytes, bgn: nat): OpenObject {
    var n := ElemNum(m, bgn);
    var ret := IdSize(m, bgn) + OffSize(m, bgn) + INFO;
    var vlen := ValSize(m, bgn) - IdSize(m, bgn);
    OpenObject(if ret <= |m| then m[..|m| - ret] else [], bgn,
      seq(n, i requires 0 <= i < n => RowId(m, bgn, i)),
      seq(n, i requires 0 <= i < n => Offset(m, bgn, i)),
      if vlen < 0 then 0 else vlen)
  }

  /** `init2append` and `init(bgn)`. */
  method Reopen(m: Bytes, bgn: nat) returns (o: OpenObject)
    requires IdSize(m, bgn) <= ValSize(m, bgn) && IdSize(m, bgn) + OffSize(m, bgn) + INFO <= |m|
    ensures o == Reopened(m, bgn)
  {
    hide RowId, Offset, Info;
    var ids, offs := [], [];
    var num := ElemNum(m, bgn);
    for mi := 0 to num
      invariant |ids| == |offs| == mi
      invariant forall i :: 0 <= i < mi ==> ids[i] == RowId(m, bgn, i) && offs[i] == Offset(m, bgn, i)
    {
      ids := ids + [RowId(m, bgn, mi)];
      offs := offs + [Offset(m, bgn, mi)];
    }
    var vlen := ValSize(m, bgn) - IdSize(m, bgn);
    var ret := IdSize(m, bgn) + OffSize(m, bgn) + INFO;
    o := OpenObject(m[..|m| - ret], bgn, ids, offs, vlen);
  }

  /** Re-opening restores ids, offsets, value length and the bytes of all values. */
  lemma ReopenHolds(pre: Bytes, ids: seq<nat>, blobs: seq<Bytes>)
    requires StructFits(ids, blobs) && |ids| == |blobs|
    ensures Holds(Reopened(pre + Struct(ids, blobs), |pre|), pre, ids, blobs)
  {
    hide Concat, Offsets, Table, Store, Load, Struct, LoadAt, InfoWord, CalcFlag, OffsetUsed, StructFits, OffBegin,
         Flag, Offset, ElemNum, ValSize, TotalSize, RowId, Offsets;
    var m := pre + Struct(ids, blobs);
    assert m + [] == m;
    HeaderBack(pre, ids, blobs, []);
    assert forall i :: 0 <= i < |blobs| ==>
        RowId(m, |pre|, i) == ids[i] && Offset(m, |pre|, i) == Offsets(blobs)[i] by {
      forall i | 0 <= i < |blobs|
        ensures RowId(m, |pre|, i) == ids[i] && Offset(m, |pre|, i) == Offsets(blobs)[i]
      {
        RowIdAt(pre, ids, blobs, [], i);
        OffsetAt(pre, ids, blobs, [], i);
        PlaceAt(blobs, i);
      }
    }
    Parts(pre, ids, blobs, []);
    var v, flag := Concat(blobs), CalcFlag(|Concat(blobs)|);
    var lead := pre + Store(|Struct(ids, blobs)|, HEAD) + v;
    var o := Reopened(m, |pre|);
    assert o.ids == ids && o.offs == Offsets(blobs);
    WidthIs(pre, ids, blobs, []);
    CutTail(lead, Table(ids, ID), Table(Offsets(blobs), OffsetUsed(flag)), Store(InfoWord(flag, |blobs|), INFO), m);
    assert o.buf == lead;
    assert lead[..|pre|] == pre && lead[|pre| + HEAD..] == v;
  }

  lemma WidthIs(pre: Bytes, ids: seq<nat>, blobs: seq<Bytes>, post: Bytes)
    requires StructFits(ids, blobs)
    ensures var m := pre + Struct(ids, blobs) + post;
            OffSize(m, |pre|) == OffsetUsed(CalcFlag(|Concat(blobs)|)) * |blobs|
  {
    hide Concat, Struct, CalcFlag, OffsetUsed, StructFits, OffBegin, Flag, ElemNum, ValSize, TotalSize;
    HeaderBack(pre, ids, blobs, post);
  }

  lemma CutTail(lead: Bytes, x: Bytes, y: Bytes, z: Bytes, m: Bytes)
    requires m == lead + x + y + z + []
    ensures |x| + |y| + |z| <= |m| && m[..|m| - (|x| + |y| + |z|)] == lead
  {
    assert m == lead + (x + y + z);
  }

  /** An open object keeps what it holds when members are appended. */
  lemma {:induction false} AppendHolds(o: OpenObject, pre: Bytes, ids: seq<nat>, blobs: seq<Bytes>, ids': seq<nat>,
        vs: seq<Bytes>)
    requires Holds(o, pre, ids, blobs) && |ids'| == |vs|
    ensures Holds(o.AppendAll(ids', vs), pre, ids + ids', blobs + vs)
  {
    hide Holds, OpenObject.Append;
    if vs == [] {
      assert ids + ids' == ids && blobs + vs == blobs;
    } else {
      var n := |vs| - 1;
      AppendHolds(o, pre, ids, blobs, ids'[..n], vs[..n]);
      var o', bs := o.AppendAll(ids'[..n], vs[..n]), blobs + vs[..n];
      Snoc(ids, ids');
      Snoc(blobs, vs);
      OneMore(o', pre, ids + ids'[..n], bs, ids'[n], vs[n]);
    }
  }

  lemma Snoc<T>(a: seq<T>, b: seq<T>)
    requires b != []
    ensures a + b == a + b[..|b| - 1] + [b[|b| - 1]]
  {
  }

  lemma OneMore(o: OpenObject, pre: Bytes, ids: seq<nat>, blobs: seq<Bytes>, id: nat, v: Bytes)
    requires Holds(o, pre, ids, blobs)
    ensures Holds(o.Append(id, v), pre, ids + [id], blobs + [v])
  {
    var bs := blobs + [v];
    assert bs[..|bs| - 1] == blobs;
    assert Concat(bs) == Concat(blobs) + v;
    assert Offsets(bs) == Offsets(blobs) + [|Concat(blobs)|];
    hide Concat, Offsets;
    assert (o.buf + v)[|pre| + HEAD..] == o.buf[|pre| + HEAD..] + v;
  }

  lemma PackageHeld(o: OpenObject, pre: Bytes, ids: seq<nat>, blobs: seq<Bytes>)
    requires Holds(o, pre, ids, blobs)
    ensures o.Package() == pre + Struct(ids, blobs)
  {
    hide Concat, Offsets, Trailer, Store;
    var tail := Trailer(ids, Offsets(blobs), |Concat(blobs)|);
    var head := Store(HEAD + |Concat(blobs)| + |tail|, HEAD);
    assert Struct(ids, blobs) == head + Concat(blobs) + tail;
    assert pre + head + Concat(blobs) + tail == pre + (head + Concat(blobs) + tail);
  }

  /** Appending to a packaged object and packaging it again is packaging all members at once. */
  lemma ReopenAppendPackage(pre: Bytes, ids: seq<nat>, blobs: seq<Bytes>, ids': seq<nat>, vs: seq<Bytes>)
    requires StructFits(ids, blobs) && |ids| == |blobs| && |ids'| == |vs|
    ensures Reopened(pre + Struct(ids, blobs), |pre|).AppendAll(ids', vs).Package()
        == pre + Struct(ids + ids', blobs + vs)
  {
    hide *;
    ReopenHolds(pre, ids, blobs);
    var o := Reopened(pre + Struct(ids, blobs), |pre|);
    AppendHolds(o, pre, ids, blobs, ids', vs);
    PackageHeld(o.AppendAll(ids', vs), pre, ids + ids', blobs + vs);
  }
}
