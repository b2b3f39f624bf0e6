// Binary row layout: Size | values | ids | offsets | Info.

module Bytes {

  type Byte = x: int | 0 <= x < 256
  type Bytes = seq<Byte>

  /** The low `w` bytes of `n`, least significant first: what a store through an unsigned
      integer of that width writes on a little-endian machine. */
  function Store(n: nat, w: nat): (b: Bytes)
    ensures |b| == w
  {
    if w == 0 then [] else [n % 256] + Store(n / 256, w - 1)
  }

  function Power256(w: nat): (p: nat)
    ensures p > 0
  {
    if w == 0 then 1 else 256 * Power256(w - 1)
  }

  /** The unsigned integer that the bytes encode. */
  function Load(b: Bytes): (n: nat)
    ensures n < Power256(|b|)
  {
    if b == [] then 0 else b[0] + 256 * Load(b[1..])
  }

  lemma {:induction false} LoadStore(n: nat, w: nat)
    requires n < Power256(w)
    ensures Load(Store(n, w)) == n
  {
    if w > 0 {
      LoadStore(n / 256, w - 1);
      assert Store(n, w)[1..] == Store(n / 256, w - 1);
    }
  }

  function Concat(blobs: seq<Bytes>): Bytes {
    if blobs == [] then [] else Concat(blobs[..|blobs| - 1]) + blobs[|blobs| - 1]
  }

  /** Begin offset of each blob in the concatenation. */
  function Offsets(blobs: seq<Bytes>): (o: seq<nat>)
    ensures |o| == |blobs|
  {
    if blobs == [] then []
    else
      var front := blobs[..|blobs| - 1];
      Offsets(front) + [|Concat(front)|]
  }

  /** A packed array of unsigned integers of width `w`. */
  function Table(ns: seq<nat>, w: nat): (b: Bytes)
    ensures |b| == w * |ns|
  {
    if ns == [] then [] else Table(ns[..|ns| - 1], w) + Store(ns[|ns| - 1], w)
  }
}

module RowCodec {
  import opened Bytes

  const HEAD := 4        // sizeof(Row::Size)
  const INFO := 4        // sizeof(Row::Info)
  const ID := 2          // sizeof(Row::ID)
  const NUM_LIMIT: nat := 0x4000_0000   // 30 bits for the element number

  /** One member of a binary object: its field id and the bytes of its value. */
  datatype Field = Field(id: nat, blob: Bytes)

  /** Which offset width covers `vlen` bytes of values. */
  function CalcFlag(vlen: nat): nat {
    if vlen <= 0xFF then 1
    else if vlen <= 0xFFFF then 2
    else if vlen < 0xFFFF_FFFF then 3
    else 0
  }

  /** Bytes of one offset.  The original shifts 1 by flag - 1; flag 0 has no width there. */
  function OffsetUsed(flag: nat): nat {
    if flag <= 1 then 1 else if flag == 2 then 2 else 4
  }

  function InfoWord(flag: nat, num: nat): nat {
    flag * NUM_LIMIT + num % NUM_LIMIT
  }

  function Blobs(fields: seq<Field>): (b: seq<Bytes>)
    ensures |b| == |fields|
  {
    seq(|fields|, i requires 0 <= i < |fields| => fields[i].blob)
  }

  function Ids(fields: seq<Field>): (ids: seq<nat>)
    ensures |ids| == |fields|
  {
    seq(|fields|, i requires 0 <= i < |fields| => fields[i].id)
  }

  /** What `package` leaves behind the size word of a struct: ids (objects only), offsets and Info. */
  function Trailer(ids: seq<nat>, offs: seq<nat>, vlen: nat): Bytes {
    var flag := CalcFlag(vlen);
    Table(ids, ID) + Table(offs, OffsetUsed(flag)) + Store(InfoWord(flag, |offs|), INFO)
  }

  function Struct(ids: seq<nat>, blobs: seq<Bytes>): Bytes {
    var vals := Concat(blobs);
    var tail := Trailer(ids, Offsets(blobs), |vals|);
    Store(HEAD + |vals| + |tail|, HEAD) + vals + tail
  }

  function EncodeArray(elems: seq<Bytes>): Bytes { Struct([], elems) }

  function EncodeObject(fields: seq<Field>): Bytes { Struct(Ids(fields), Blobs(fields)) }
}
