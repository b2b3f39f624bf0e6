// CABWriter: a column's items go into blocks of whole records, and every block that is complete goes
// to the file, with its entry in the directory.

module CabWriter {
  import opened Wrappers
  import opened Bytes
  import opened Bits
  import opened Records
  import opened CabFormat
  import opened CabImage
  import opened ColumnItems
  import opened Cabs

  // ---- Which items come into which block ----

  /** A column's items cut into blocks of at most cap records; the last block is the one being written. */
  function BlocksOf(cap: nat, its: seq<Item>): (bs: seq<seq<Item>>)
    ensures bs != []
  {
    if its == [] then [[]]
    else Place(cap, BlocksOf(cap, its[..|its| - 1]), its[|its| - 1])
  }

  /** One more item: a record that begins opens a new block when the last has all its records. */
  function Place(cap: nat, bs: seq<seq<Item>>, it: Item): (r: seq<seq<Item>>)
    requires bs != []
    ensures r != []
  {
    var n := |bs| - 1;
    if it.rep == 0 && Zeroes(bs[n]) + 1 > cap then bs + [[it]] else bs[..n] + [bs[n] + [it]]
  }

  function Joined(bs: seq<seq<Item>>): seq<Item> {
    if bs == [] then [] else Joined(bs[..|bs| - 1]) + bs[|bs| - 1]
  }

  lemma JoinedSnoc(bs: seq<seq<Item>>, b: seq<Item>)
    ensures Joined(bs + [b]) == Joined(bs) + b
  {
    assert (bs + [b])[..|bs|] == bs;
  }

  lemma ZeroesSnoc(its: seq<Item>, it: Item)
    ensures Zeroes(its + [it]) == Zeroes(its) + (if it.rep == 0 then 1 else 0)
  {
    assert (its + [it])[..|its|] == its;
  }

  lemma {:induction false} ZeroesConcat(a: seq<Item>, b: seq<Item>)
    ensures Zeroes(a + b) == Zeroes(a) + Zeroes(b)
  {
    if b == [] {
      assert a + b == a;
    } else {
      ZeroesConcat(a, b[..|b| - 1]);
      assert (a + b)[..|a + b| - 1] == a + b[..|b| - 1];
    }
  }

  /** Blocks in front of the last hold exactly cap records; every block but an empty first one begins
      with a record. */
  ghost predicate Aligned(cap: nat, bs: seq<seq<Item>>) {
    && bs != []
    && (forall k :: 0 <= k < |bs| - 1 ==> Zeroes(bs[k]) == cap)
    && Zeroes(bs[|bs| - 1]) <= cap
    && (forall k :: 0 <= k < |bs| && (k > 0 || bs[k] != []) ==> bs[k] != [] && bs[k][0].rep == 0)
  }

  lemma PlaceJoined(cap: nat, bs: seq<seq<Item>>, it: Item)
    requires bs != []
    ensures Joined(Place(cap, bs, it)) == Joined(bs) + [it]
  {
    hide Zeroes, Joined;
    var n := |bs| - 1;
    JoinedSnoc(bs, [it]);
    JoinedSnoc(bs[..n], bs[n] + [it]);
    JoinedSnoc(bs[..n], bs[n]);
    assert bs == bs[..n] + [bs[n]];
    assert Joined(bs[..n]) + (bs[n] + [it]) == Joined(bs[..n]) + bs[n] + [it];
  }

  lemma OneZero(it: Item)
    ensures Zeroes([it]) == if it.rep == 0 then 1 else 0
  {
    assert [] + [it] == [it];
    ZeroesSnoc([], it);
  }

  lemma PlaceAligned(cap: nat, bs: seq<seq<Item>>, it: Item)
    requires cap > 0 && Aligned(cap, bs) && (bs == [[]] ==> it.rep == 0)
    ensures Aligned(cap, Place(cap, bs, it))
  {
    hide Zeroes;
    var n := |bs| - 1;
    ZeroesSnoc(bs[n], it);
    OneZero(it);
    if it.rep == 0 && Zeroes(bs[n]) + 1 > cap {
      NotEmptyBlock(cap, bs[n]);
      assert Aligned(cap, bs + [[it]]);
    } else {
      if bs[n] == [] {
        assert n == 0 && bs == [[]];
        assert [] + [it] == [it];
      } else {
        assert (bs[n] + [it])[0] == bs[n][0];
      }
      assert Aligned(cap, bs[..n] + [bs[n] + [it]]);
    }
  }

  lemma NotEmptyBlock(cap: nat, b: seq<Item>)
    requires cap > 0 && Zeroes(b) + 1 > cap
    ensures b != []
  {
  }

  /** A record never spans two blocks: cutting loses no item, and cuts only where records begin. */
  lemma {:induction false} BlocksAligned(cap: nat, its: seq<Item>)
    requires cap > 0 && (its != [] ==> its[0].rep == 0)
    ensures Aligned(cap, BlocksOf(cap, its)) && Joined(BlocksOf(cap, its)) == its
    ensures its != [] ==> BlocksOf(cap, its) != [[]]
  {
    hide Place, Joined, Zeroes, Aligned;
    if its != [] {
      var front, it := its[..|its| - 1], its[|its| - 1];
      BlocksAligned(cap, front);
      assert front != [] ==> front[0] == its[0];
      PlaceJoined(cap, BlocksOf(cap, front), it);
      PlaceAligned(cap, BlocksOf(cap, front), it);
      assert front + [it] == its;
      Nonempty(cap, BlocksOf(cap, front), it);
    } else {
      NoBlocks(cap);
    }
  }

  lemma NoBlocks(cap: nat)
    ensures Aligned(cap, [[]]) && Joined([[]]) == []
  {
    var none: seq<seq<Item>> := [];
    JoinedSnoc(none, []);
    assert none + [[]] == [[]];
  }

  lemma Nonempty(cap: nat, bs: seq<seq<Item>>, it: Item)
    requires bs != []
    ensures Place(cap, bs, it) != [[]]
  {
    var r := Place(cap, bs, it);
    assert it in r[|r| - 1];
  }

  /** Records in front of block k. */
  lemma {:induction false} RecordsBefore(cap: nat, bs: seq<seq<Item>>, k: nat)
    requires Aligned(cap, bs) && k < |bs|
    ensures Zeroes(Joined(bs[..k])) == k * cap
  {
    if k > 0 {
      RecordsBefore(cap, bs, k - 1);
      assert bs[..k][..k - 1] == bs[..k - 1];
      ZeroesConcat(Joined(bs[..k - 1]), bs[k - 1]);
      Times(k, cap);
    }
  }

  lemma Times(k: nat, cap: nat)
    requires k > 0
    ensures k * cap == (k - 1) * cap + cap
  {
  }

  lemma Multiple(k: nat, cap: nat)
    requires cap > 0
    ensures k * cap >= 0 && (k * cap) % cap == 0
  {
    DivUnique(k * cap, cap, k, 0);
  }

  lemma AlignBegin(num: nat, cap: nat)
    requires cap > 0
    ensures CalcAlignBegin(num, cap) % cap == 0
  {
    Multiple(num / cap, cap);
  }

  // ---- The file ----

  /** A directory entry, and the bytes it points to. */
  datatype Block = Block(info: ItemInfo, content: Bytes)

  /** `CABLayouter::flush`: the counters reach the directory only together with some bytes. */
  function Published(m: Meta, bgn: nat, its: seq<Item>, tail: bool): Block {
    var b := Stored(m, bgn, its, tail);
    if b == [] then Block(ItemInfo(bgn, 0, 0, 0, 0), []) else Block(Counted(m, bgn, its), b)
  }

  /** The blocks in front of the last. */
  function Flushed(m: Meta, cap: nat, start: nat, bs: seq<seq<Item>>): (file: seq<Block>)
    ensures |file| == |bs|
  {
    seq(|bs|, k requires 0 <= k < |bs| => Published(m, Begin(cap, start, k), bs[k], false))
  }

  /** First record of block k. */
  function Begin(cap: nat, start: nat, k: nat): nat { start + k * cap }

  /** The file of a column after the writer is gone. */
  function FileOf(m: Meta, cap: nat, start: nat, its: seq<Item>): (file: seq<Block>)
    ensures |file| == |BlocksOf(cap, its)|
  {
    var bs := BlocksOf(cap, its);
    var n := |bs| - 1;
    Flushed(m, cap, start, bs[..n]) + [Published(m, Begin(cap, start, n), bs[n], true)]
  }

  lemma FlushedSnoc(m: Meta, cap: nat, start: nat, bs: seq<seq<Item>>, b: seq<Item>)
    ensures Flushed(m, cap, start, bs + [b])
         == Flushed(m, cap, start, bs) + [Published(m, Begin(cap, start, |bs|), b, false)]
  {
    hide Published;
  }

  /** How the blocks go on with one more item. */
  lemma NextBlocks(cap: nat, its: seq<Item>, it: Item)
    requires cap > 0
    ensures var bs, cs := BlocksOf(cap, its), BlocksOf(cap, its + [it]);
            var closed, open := bs[..|bs| - 1], bs[|bs| - 1];
            if it.rep == 0 && Zeroes(open) + 1 > cap then cs[..|cs| - 1] == closed + [open] && cs[|cs| - 1] == [] + [it]
            else cs[..|cs| - 1] == closed && cs[|cs| - 1] == open + [it]
    ensures !(Zeroes([]) + 1 > cap)
  {
    hide Zeroes;
    assert (its + [it])[..|its|] == its;
    NoZero();
  }

  lemma NoZero()
    ensures Zeroes([]) == 0
  {
  }

  /** A full block ends where the next one begins in the record count. */
  lemma FullRecords(cap: nat, start: nat, its: seq<Item>)
    requires cap > 0 && (its != [] ==> its[0].rep == 0)
    ensures var bs := BlocksOf(cap, its);
            Zeroes(bs[|bs| - 1]) + 1 > cap ==> start + Zeroes(its) == Begin(cap, start, |bs|)
  {
    hide Zeroes, BlocksOf, Joined;
    var bs := BlocksOf(cap, its);
    var n := |bs| - 1;
    BlocksAligned(cap, its);
    RecordsBefore(cap, bs, n);
    JoinedSnoc(bs[..n], bs[n]);
    assert bs == bs[..n] + [bs[n]];
    ZeroesConcat(Joined(bs[..n]), bs[n]);
    Times(|bs|, cap);
  }

  lemma {:induction false} BlocksFit(m: Meta, cap: nat, its: seq<Item>)
    requires AllFit(m, its)
    ensures forall k :: 0 <= k < |BlocksOf(cap, its)| ==> AllFit(m, BlocksOf(cap, its)[k])
  {
    hide Zeroes, Fits;
    if its != [] {
      BlocksFit(m, cap, its[..|its| - 1]);
    }
  }

  lemma OpenFits(m: Meta, cap: nat, its: seq<Item>)
    requires AllFit(m, its)
    ensures var bs := BlocksOf(cap, its); AllFit(m, bs[|bs| - 1])
    ensures AllFit(m, [])
  {
    hide BlocksOf, Fits;
    BlocksFit(m, cap, its);
  }

  lemma NextProper(m: Meta, its: seq<Item>, it: Item)
    requires AllFit(m, its) && Fits(m, it)
    ensures AllFit(m, its + [it])
    ensures m.Rept().Encode(it.rep) == 0 <==> it.rep == 0
    ensures Zeroes(its + [it]) == Zeroes(its) + (if it.rep == 0 then 1 else 0)
    ensures (its + [it])[0] == if its == [] then it else its[0]
  {
    DecodeEncode(m.rept, m.path, it.rep);
    ZeroesSnoc(its, it);
    hide ReptTypeOf, ReptType.Encode, ReptType.Decode, Zeroes, Fits;
  }

  // ---- The writer ----

  class CABWriter {
    const meta: Meta
    const cap: nat              // m_cab_recd_num, the record capacity of a block
    var cab: CAB                // m_cur_cab
    var recdNum: nat            // m_recd_num
    var file: seq<Block>        // m_info_buf and the content file
    ghost const start: nat      // first record of the first block
    ghost var its: seq<Item>    // all items written

    ghost function Closed(): seq<seq<Item>>
      reads this
    {
      var bs := BlocksOf(cap, its);
      bs[..|bs| - 1]
    }

    ghost function Open(): seq<Item>
      reads this
    {
      var bs := BlocksOf(cap, its);
      bs[|bs| - 1]
    }

    /** Items so far: all fit the column, and the first begins a record. */
    ghost predicate Proper()
      reads this
    {
      && cap > 0 && cap % 8 == 0 && start % cap == 0
      && meta.RepWidth() <= 32 && meta.DefWidth() <= 32
      && AllFit(meta, its) && (its != [] ==> its[0].rep == 0)
    }

    /** The closed blocks are in the file, and the current block holds the open one. */
    ghost predicate Holding(closed: seq<seq<Item>>, open: seq<Item>)
      reads this`cab, this`file, cab, cab.Repr
    {
      && this !in cab.Repr && cab.Valid() && cab.meta == meta && cab.recdCap == cap
      && cab.Cells() == CellsOf(meta, open)
      && cab.info == Counted(meta, Begin(cap, start, |closed|), open)
      && file == Flushed(meta, cap, start, closed)
    }

    ghost predicate Valid()
      reads this, cab, cab.Repr
    {
      && Proper()
      && Holding(Closed(), Open())
      && recdNum == start + Zeroes(its)
    }

    /** The constructor and `init2write`: records are counted from the block boundary at or below `rbgn`. */
    constructor (meta: Meta, cap: nat, rbgn: nat)
      requires cap > 0 && cap % 8 == 0 && meta.path != []
      requires meta.RepWidth() <= 32 && meta.DefWidth() <= 32
      ensures Valid() && its == [] && this.meta == meta && this.cap == cap && fresh(cab.Repr)
      ensures start == CalcAlignBegin(rbgn, cap)
    {
      hide *;
      this.meta, this.cap := meta, cap;
      var r := CalcAlignBegin(rbgn, cap);
      recdNum, start, its, file := r, r, [], [];
      cab := new CAB(meta, cap, r);
      new;
      AlignBegin(rbgn, cap);
      Empty();
    }

    lemma Empty()
      requires its == [] && file == [] && recdNum == start && meta.path != []
      requires cap > 0 && cap % 8 == 0 && start % cap == 0
      requires meta.RepWidth() <= 32 && meta.DefWidth() <= 32
      requires this !in cab.Repr && cab.Valid() && cab.meta == meta && cab.recdCap == cap
      requires cab.Cells() == [] && cab.info == ItemInfo(start, 0, 0, 0, 0)
      ensures Valid()
    {
      hide CAB.Valid, CAB.Cells;
    }

    /** `CABWriter::flush` with `CABLayouter::flush`: the merged bytes are as many as were counted before. */
    method Flush(tail: bool, ghost closed: seq<seq<Item>>, ghost open: seq<Item>)
      requires Holding(closed, open)
      modifies this`file
      ensures file == old(file) + [Published(meta, Begin(cap, start, |closed|), open, tail)]
    {
      hide CAB.Valid, CAB.Cells, CellsOf, Counted, Stored, Flushed, Begin, Merged;
      MergedIsStored(meta, Begin(cap, start, |closed|), open, tail);
      InfoBegin(meta, Begin(cap, start, |closed|), open);
      var used := cab.GetMergedUsed(tail);
      if used == 0 {
        file := file + [Block(ItemInfo(cab.info.bgnRecd, 0, 0, 0, 0), [])];
      } else {
        var content := cab.Merge2Buffer(tail);
        assert |content| == used;
        file := file + [Block(cab.info, content)];
      }
    }

    /** `prepareCAB2write`. */
    method PrepareCAB2Write(ghost closed: seq<seq<Item>>)
      requires meta.RepWidth() <= 32 && meta.DefWidth() <= 32 && cap > 0 && cap % 8 == 0
      requires recdNum == Begin(cap, start, |closed|) && file == Flushed(meta, cap, start, closed)
      modifies this`cab
      ensures fresh(cab) && fresh(cab.Repr) && Holding(closed, [])
    {
      hide CAB.Valid, CAB.Cells, Flushed, Begin, Meta.RepWidth, Meta.DefWidth;
      cab := new CAB(meta, cap, recdNum);
    }

    /** An attempt to put one more item into the current block. */
    method TryWrite(it: Item, room: bool, expItems: nat, ghost closed: seq<seq<Item>>, ghost open: seq<Item>)
      returns (got: bool)
      requires Holding(closed, open) && Fits(meta, it) && AllFit(meta, open) && expItems > 0
      requires meta.RepWidth() <= 32 && meta.DefWidth() <= 32
      modifies cab.Repr
      ensures got == !(it.rep == 0 && Zeroes(open) + 1 > cap)
      ensures Holding(closed, if got then open + [it] else open) && fresh(cab.Repr - old(cab.Repr))
    {
      hide CAB.Valid, CAB.Cells, CellsOf, Counted, Flushed, Begin, Meta.RepWidth, Meta.DefWidth, Zeroes, ReptTypeOf,
           ReptType.Encode, ReptType.Decode;
      DecodeEncode(meta.rept, meta.path, it.rep);
      CountedFacts(meta, Begin(cap, start, |closed|), open);
      CountedSnoc(meta, Begin(cap, start, |closed|), open, it);
      cab.CurrentInside();
      got := cab.Write(Cell(meta.Rept().Encode(it.rep), it.def, it.val), room, expItems);
    }

    /** `writeNull`, `writeText` and `writeBinVal`: a full block is flushed and the item begins the next. */
    method Write(it: Item, room: bool, expItems: nat)
      requires Valid() && Fits(meta, it) && expItems > 0 && (its == [] ==> it.rep == 0)
      modifies this, cab.Repr
      ensures Valid() && its == old(its) + [it] && fresh(cab.Repr - old(cab.Repr))
    {
      hide Holding, BlocksOf, AllFit, Fits, Meta.RepWidth, Meta.DefWidth, Zeroes, Begin, Flushed, ReptType.Encode,
           Meta.Rept;
      ghost var closed, open := Closed(), Open();
      NextBlocks(cap, its, it);
      FullRecords(cap, start, its);
      OpenFits(meta, cap, its);
      NextProper(meta, its, it);
      Apart(closed, open);
      var got := TryWrite(it, room, expItems, closed, open);
      if !got {
        NextBlock(it, room, expItems, closed, open);
      }
      Apart(if got then closed else closed + [open], if got then open + [it] else [] + [it]);
      recdNum := recdNum + if meta.Rept().Encode(it.rep) == 0 then 1 else 0;
      its := its + [it];
    }

    /** The destructor: the last block is flushed in full, whatever it holds. */
    method Close()
      requires Valid()
      modifies this`file
      ensures file == FileOf(meta, cap, start, its)
    {
      hide Holding, Published, Flushed, Begin, BlocksOf;
      Apart(Closed(), Open());
      Flush(true, Closed(), Open());
    }

    lemma Apart(closed: seq<seq<Item>>, open: seq<Item>)
      requires Holding(closed, open)
      ensures this !in cab.Repr && cab in cab.Repr && file == Flushed(meta, cap, start, closed)
    {
    }

    /** Flushes the full block and begins the next one with the item. */
    method NextBlock(it: Item, room: bool, expItems: nat, ghost closed: seq<seq<Item>>, ghost open: seq<Item>)
      requires Holding(closed, open) && this !in cab.Repr && Fits(meta, it) && AllFit(meta, []) && expItems > 0
      requires meta.RepWidth() <= 32 && meta.DefWidth() <= 32 && cap > 0 && cap % 8 == 0
      requires recdNum == Begin(cap, start, |closed| + 1) && !(Zeroes([]) + 1 > cap)
      modifies this`file, this`cab
      ensures Holding(closed + [open], [] + [it]) && fresh(cab.Repr)
    {
      hide Holding, AllFit, Fits, Meta.RepWidth, Meta.DefWidth, Zeroes, Flushed, Begin;
      FlushedSnoc(meta, cap, start, closed, open);
      Apart(closed, open);
      Flush(false, closed, open);
      PrepareCAB2Write(closed + [open]);
      Apart(closed + [open], []);
      var got := TryWrite(it, room, expItems, closed + [open], []);
    }
  }

  lemma InfoBegin(m: Meta, bgn: nat, its: seq<Item>)
    ensures Counted(m, bgn, its).bgnRecd == bgn
  {
  }

  lemma CountedSnoc(m: Meta, bgn: nat, its: seq<Item>, it: Item)
    ensures Counted(m, bgn, its + [it]) == Counted(m, bgn, its).Update(m.Rept().Encode(it.rep), it.def, m.MaxDef())
    ensures CellsOf(m, its + [it]) == CellsOf(m, its) + [CellOf(m, it)]
  {
    assert (its + [it])[..|its|] == its;
  }
}
