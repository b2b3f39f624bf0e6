// ColumnReader with its CABReader: finds a record's block in the directory, the record's first item in
// the block, and reads on item by item.

module CabReader {
  import opened Wrappers
  import opened Bytes
  import opened Bits
  import opened Records
  import opened CabFormat
  import opened CabImage
  import opened CabWriter
  import opened Machine

  /** What a reader gets from a block, item by item. */
  function BlockItems(m: Meta, b: Block): (its: seq<Item>)
    ensures |its| == b.info.itemNum
  {
    seq(b.info.itemNum, i requires 0 <= i < b.info.itemNum => ReadAt(m, b.info.GetType(), b.info.itemNum, b.content, i))
  }

  // ---- Storage transparency ----

  /** A block that leaves nothing behind: not the last one, and no item of it says anything. */
  predicate Silent(its: seq<Item>, tail: bool) {
    !tail && forall i :: 0 <= i < |its| ==> IsTrivial(its[i])
  }

  /** A block comes back from the file exactly when its counters went there. */
  lemma BlockBack(m: Meta, bgn: nat, its: seq<Item>, tail: bool)
    requires AllFit(m, its) && Writable(m.dt, Vals(its))
    ensures BlockItems(m, Published(m, bgn, its, tail)) == its <==> (its == [] || !Silent(its, tail))
    ensures its != [] && Silent(its, tail) ==> Published(m, bgn, its, tail) == Block(ItemInfo(bgn, 0, 0, 0, 0), [])
    ensures !Silent(its, tail) && its != [] ==> Published(m, bgn, its, tail).info == Counted(m, bgn, its)
  {
    StoredSome(m, bgn, its, tail);
    ItemCount(m, bgn, its);
    ItemsBack(m, bgn, its, tail);
    hide ReadAt, Counted, Stored, Vals, Writable, AllFit, ItemInfo.GetType, Silent;
    if its != [] && Silent(its, tail) {
      assert |BlockItems(m, Published(m, bgn, its, tail))| == 0;
    }
  }

  lemma ItemCount(m: Meta, bgn: nat, its: seq<Item>)
    requires AllFit(m, its)
    ensures Counted(m, bgn, its).itemNum == |its|
    ensures its == [] ==> Counted(m, bgn, its) == ItemInfo(bgn, 0, 0, 0, 0)
  {
    CountedFacts(m, bgn, its);
  }

  lemma ItemsBack(m: Meta, bgn: nat, its: seq<Item>, tail: bool)
    requires AllFit(m, its) && Writable(m.dt, Vals(its))
    ensures BlockItems(m, Block(Counted(m, bgn, its), Stored(m, bgn, its, tail))) == its
  {
    ItemCount(m, bgn, its);
    var b := Block(Counted(m, bgn, its), Stored(m, bgn, its, tail));
    hide ReadAt, Counted, Stored, Vals, Writable, AllFit, ItemInfo.GetType;
    forall i | 0 <= i < |its|
      ensures BlockItems(m, b)[i] == its[i]
    {
      ReadBack(m, bgn, its, tail, i);
    }
  }

  lemma StoredSome(m: Meta, bgn: nat, its: seq<Item>, tail: bool)
    requires AllFit(m, its)
    ensures Stored(m, bgn, its, tail) == [] <==> (its == [] || Silent(its, tail))
  {
    TypeFacts(m, bgn, its);
    assert its == [] ==> Counted(m, bgn, its).GetType() == Trivial;
    LevelsSome(m, its);
    hide Counted, Levels;
    if its == [] { EmptyValues(m); }
  }

  lemma LevelsSome(m: Meta, its: seq<Item>)
    requires m.path != []
    ensures Levels(m, its) == [] <==> its == []
  {
    LevelsLength(m, its);
    hide Levels, UsedBits, Meta.RepWidth;
    if its != [] {
      SomeBytes(m.DefWidth(), |its|);
    } else {
      NoBytes(m.RepWidth());
      NoBytes(m.DefWidth());
    }
  }

  lemma SomeBytes(w: nat, n: nat)
    requires w > 0 && n > 0
    ensures SegBytes(w, n) > 0
  {
    TotalMono(w, 1, n);
    assert Total(w, 1) == w;
  }

  lemma NoBytes(w: nat)
    ensures SegBytes(w, 0) == 0
  {
  }

  lemma EmptyValues(m: Meta)
    ensures Values(m, []) == []
  {
  }

  /** Everything the blocks of a file give back. */
  function FileItems(m: Meta, file: seq<Block>): seq<Item> {
    Joined(seq(|file|, k requires 0 <= k < |file| => BlockItems(m, file[k])))
  }

  /** No block in front of the last one is silent. */
  ghost predicate Audible(cap: nat, its: seq<Item>) {
    var bs := BlocksOf(cap, its);
    forall k :: 0 <= k < |bs| - 1 ==> !Silent(bs[k], false)
  }

  ghost predicate WritableBlocks(m: Meta, cap: nat, its: seq<Item>) {
    var bs := BlocksOf(cap, its);
    forall k :: 0 <= k < |bs| ==> Writable(m.dt, Vals(bs[k]))
  }

  /** A column whose first item begins a record, and whose blocks can be written. */
  ghost predicate Column(m: Meta, cap: nat, its: seq<Item>) {
    && cap > 0 && AllFit(m, its) && (its != [] ==> its[0].rep == 0)
    && WritableBlocks(m, cap, its)
  }

  /** Block k of a written file. */
  lemma FileBlock(m: Meta, cap: nat, start: nat, its: seq<Item>, k: nat)
    requires Column(m, cap, its) && k < |BlocksOf(cap, its)|
    ensures var bs := BlocksOf(cap, its);
            var tail := k == |bs| - 1;
            && FileOf(m, cap, start, its)[k] == Published(m, Begin(cap, start, k), bs[k], tail)
            && AllFit(m, bs[k]) && Writable(m.dt, Vals(bs[k]))
            && (!tail ==> bs[k] != [])
  {
    hide BlocksOf, Published, Writable, Fits, Zeroes, Vals;
    BlocksFit(m, cap, its);
    BlocksAligned(cap, its);
    var bs := BlocksOf(cap, its);
    if k < |bs| - 1 { NotEmptyBlock(cap, bs[k]); }
  }

  lemma {:induction false} JoinedShorter(a: seq<seq<Item>>, b: seq<seq<Item>>)
    requires |a| == |b| && forall k :: 0 <= k < |a| ==> |a[k]| <= |b[k]|
    ensures |Joined(a)| <= |Joined(b)|
    ensures (exists k :: 0 <= k < |a| && |a[k]| < |b[k]|) ==> |Joined(a)| < |Joined(b)|
  {
    if a != [] {
      var n := |a| - 1;
      JoinedShorter(a[..n], b[..n]);
      if k :| 0 <= k < |a| && |a[k]| < |b[k]| {
        if k < n { assert |a[..n][k]| < |b[..n][k]|; }
      }
    }
  }

  /** What block k gives back is all of it, or nothing when it is silent. */
  lemma BlockGiven(m: Meta, cap: nat, start: nat, its: seq<Item>, k: nat)
    requires Column(m, cap, its) && k < |BlocksOf(cap, its)|
    ensures var bs := BlocksOf(cap, its);
            BlockItems(m, FileOf(m, cap, start, its)[k])
            == (if k < |bs| - 1 && Silent(bs[k], false) then [] else bs[k])
    ensures k < |BlocksOf(cap, its)| - 1 ==> BlocksOf(cap, its)[k] != []
  {
    hide BlocksOf, Published, Writable, Fits, Vals, BlockItems, FileOf, Silent;
    FileBlock(m, cap, start, its, k);
    var b, tail := BlocksOf(cap, its)[k], k == |BlocksOf(cap, its)| - 1;
    BlockBack(m, Begin(cap, start, k), b, tail);
    NotSilentTail(b);
    if !tail && Silent(b, tail) { NoItems(m, Begin(cap, start, k)); }
  }

  lemma NotSilentTail(b: seq<Item>)
    ensures !Silent(b, true)
  {
  }

  lemma NoItems(m: Meta, bgn: nat)
    ensures BlockItems(m, Block(ItemInfo(bgn, 0, 0, 0, 0), [])) == []
  {
  }

  /** Storage transparency: a file gives back every item that was written, in order, exactly when no
      block in front of the last is made of items that say nothing. */
  lemma FileBack(m: Meta, cap: nat, start: nat, its: seq<Item>)
    requires Column(m, cap, its)
    ensures FileItems(m, FileOf(m, cap, start, its)) == its <==> Audible(cap, its)
  {
    hide BlocksOf, Published, Writable, Fits, Vals, BlockItems, FileOf, Silent, Joined;
    var bs, file := BlocksOf(cap, its), FileOf(m, cap, start, its);
    var gs := seq(|file|, k requires 0 <= k < |file| => BlockItems(m, file[k]));
    BlocksAligned(cap, its);
    forall k | 0 <= k < |bs|
      ensures gs[k] == if k < |bs| - 1 && Silent(bs[k], false) then [] else bs[k]
      ensures k < |bs| - 1 ==> bs[k] != []
    {
      BlockGiven(m, cap, start, its, k);
    }
    JoinedShorter(gs, bs);
    if Audible(cap, its) {
      assert gs == bs;
    } else {
      var k :| 0 <= k < |bs| - 1 && Silent(bs[k], false);
      assert |gs[k]| < |bs[k]|;
    }
  }

  // ---- The directory ----

  /** Entries of a written file: block k begins at record start + k * cap, and its items are whole
      records.  In front of the last one a block has all its records, or its entry says nothing. */
  ghost predicate Directory(m: Meta, cap: nat, start: nat, file: seq<Block>) {
    && cap > 0 && file != []
    && (forall k :: 0 <= k < |file| ==> EntryOk(m, cap, Begin(cap, start, k), file[k], k == |file| - 1))
  }

  ghost predicate EntryOk(m: Meta, cap: nat, bgn: nat, b: Block, last: bool) {
    && b.info.bgnRecd == bgn
    && b.info.recdNum == Zeroes(BlockItems(m, b)) <= cap
    && (b.info.itemNum > 0 ==> BlockItems(m, b)[0].rep == 0)
    && (!last ==> b.info.recdNum == cap || b.info.itemNum == 0)
  }

  /** The file of a column has such a directory, and an entry says nothing exactly for a silent block. */
  lemma FileDirectory(m: Meta, cap: nat, start: nat, its: seq<Item>)
    requires Column(m, cap, its)
    ensures Directory(m, cap, start, FileOf(m, cap, start, its))
    ensures forall k :: 0 <= k < |BlocksOf(cap, its)| - 1 ==>
              (FileOf(m, cap, start, its)[k].info.recdNum == 0 <==> Silent(BlocksOf(cap, its)[k], false))
  {
    hide BlocksOf, Published, Writable, Fits, Vals, BlockItems, FileOf, Silent, EntryOk, Zeroes;
    var bs, file := BlocksOf(cap, its), FileOf(m, cap, start, its);
    forall k | 0 <= k < |file|
      ensures EntryOk(m, cap, Begin(cap, start, k), file[k], k == |file| - 1)
      ensures k < |bs| - 1 ==> (file[k].info.recdNum == 0 <==> Silent(bs[k], false))
    {
      FileEntry(m, cap, start, its, k);
    }
  }

  lemma FileEntry(m: Meta, cap: nat, start: nat, its: seq<Item>, k: nat)
    requires Column(m, cap, its) && k < |BlocksOf(cap, its)|
    ensures var bs, file := BlocksOf(cap, its), FileOf(m, cap, start, its);
            && EntryOk(m, cap, Begin(cap, start, k), file[k], k == |file| - 1)
            && (k < |bs| - 1 ==> (file[k].info.recdNum == 0 <==> Silent(bs[k], false)))
  {
    hide BlocksOf, Published, Writable, Fits, Vals, BlockItems, FileOf, Silent, Zeroes, Counted;
    var b, tail, bgn := BlocksOf(cap, its)[k], k == |BlocksOf(cap, its)| - 1, Begin(cap, start, k);
    FileBlock(m, cap, start, its, k);
    BlockGiven(m, cap, start, its, k);
    BlocksAligned(cap, its);
    BlockBack(m, bgn, b, tail);
    CountedFacts(m, bgn, b);
    NotSilentTail(b);
    NoZero();
    EmptyPublished(m, bgn, tail);
  }

  lemma EmptyPublished(m: Meta, bgn: nat, tail: bool)
    requires m.path != []
    ensures Published(m, bgn, [], tail) == Block(ItemInfo(bgn, 0, 0, 0, 0), [])
  {
    StoredSome(m, bgn, [], tail);
  }

  // ---- Searching the directory ----

  /** `compareCABIndex4Record`. */
  function Compare(file: seq<Block>, idx: int, ridx: nat): (cmp: int)
    requires 0 <= idx < |file|
  {
    var i := file[idx].info;
    if ridx < i.bgnRecd then -1 else if ridx < i.bgnRecd + i.recdNum then 0 else 1
  }

  /** The loop of `calcCABIndex` ends within the given number of turns. */
  predicate Halts(file: seq<Block>, idx: int, ridx: nat, turns: nat)
    decreases turns
  {
    turns > 0 && (idx < 0 || idx >= |file| || Compare(file, idx, ridx) == 0
                  || Halts(file, idx + Compare(file, idx, ridx), ridx, turns - 1))
  }

  /** The block in whose range a record falls. */
  function Home(cap: nat, start: nat, ridx: nat): int
    requires cap > 0
  {
    if ridx < start then -1 else (ridx - start) / cap
  }

  /** The record falls into a block in front of the last whose entry says nothing. */
  predicate Trapped(cap: nat, start: nat, file: seq<Block>, ridx: nat)
    requires cap > 0
  {
    var q := Home(cap, start, ridx);
    0 <= q < |file| - 1 && file[q].info.recdNum == 0
  }

  lemma HomeRange(cap: nat, start: nat, ridx: nat, k: nat)
    requires cap > 0
    ensures k < Home(cap, start, ridx) ==> Begin(cap, start, k) + cap <= ridx
    ensures k == Home(cap, start, ridx) ==> Begin(cap, start, k) <= ridx < Begin(cap, start, k) + cap
    ensures k > Home(cap, start, ridx) ==> ridx < Begin(cap, start, k)
  {
    if ridx >= start {
      var d := ridx - start;
      var q := d / cap;
      assert d == cap * q + d % cap;
      Gap(cap, k, q);
    } else {
      Times0(k, cap);
    }
  }

  lemma Gap(cap: nat, k: nat, q: nat)
    requires cap > 0
    ensures k < q ==> k * cap + cap <= cap * q
    ensures k == q ==> k * cap == cap * q
    ensures k > q ==> cap * q + cap <= k * cap
  {
    if k < q { Apart(cap, k, q); } else if k > q { Apart(cap, q, k); }
  }

  lemma Apart(cap: nat, a: nat, b: nat)
    requires a < b
    ensures a * cap + cap <= cap * b && cap * a + cap <= b * cap
  {
    assert cap * b == cap * a + cap * (b - a);
    assert cap * (b - a) == cap + cap * (b - a - 1);
    assert cap * (b - a - 1) >= 0;
  }

  lemma Times0(k: nat, cap: nat)
    ensures k * cap >= 0
  {
  }

  /** Every comparison points to the record's home; there it succeeds if the entry counts the record. */
  lemma CompareHome(m: Meta, cap: nat, start: nat, file: seq<Block>, idx: nat, ridx: nat)
    requires Directory(m, cap, start, file) && idx < |file|
    ensures var q := Home(cap, start, ridx);
            && (idx < q ==> Compare(file, idx, ridx) == 1)
            && (idx > q ==> Compare(file, idx, ridx) == -1)
            && (idx == q ==>
                  Compare(file, idx, ridx) == if ridx < Begin(cap, start, idx) + file[idx].info.recdNum then 0 else 1)
            && (idx == q < |file| - 1 ==> (Compare(file, idx, ridx) == 0 <==> file[idx].info.recdNum != 0))
  {
    hide BlockItems, Home, Begin;
    HomeRange(cap, start, ridx, idx);
    assert EntryOk(m, cap, Begin(cap, start, idx), file[idx], idx == |file| - 1);
    if file[idx].info.itemNum == 0 {
      assert BlockItems(m, file[idx]) == [];
    }
    hide Zeroes;
  }

  /** Turns that are enough when the record is not trapped. */
  function Distance(n: nat, q: int, idx: int): nat {
    if idx >= n || idx < 0 then 1 else (if idx < q then q - idx else idx - q) + 2
  }

  lemma Reaches(m: Meta, cap: nat, start: nat, file: seq<Block>, idx: int, ridx: nat)
    requires cap > 0 && Directory(m, cap, start, file) && !Trapped(cap, start, file, ridx)
    ensures Halts(file, idx, ridx, Distance(|file|, Home(cap, start, ridx), idx))
    decreases Distance(|file|, Home(cap, start, ridx), idx)
  {
    hide Directory, Home, Begin;
    var n, q := |file|, Home(cap, start, ridx);
    if 0 <= idx < n {
      CompareHome(m, cap, start, file, idx, ridx);
      HomeLow(cap, start, ridx);
      var c := Compare(file, idx, ridx);
      if c != 0 {
        Reaches(m, cap, start, file, idx + c, ridx);
        Enough(file, idx + c, ridx, Distance(n, q, idx + c), Distance(n, q, idx) - 1);
      }
    }
  }

  lemma HomeLow(cap: nat, start: nat, ridx: nat)
    requires cap > 0
    ensures Home(cap, start, ridx) >= -1
  {
  }

  lemma Enough(file: seq<Block>, idx: int, ridx: nat, a: nat, b: nat)
    requires a <= b && Halts(file, idx, ridx, a)
    ensures Halts(file, idx, ridx, b)
    decreases a
  {
    if 0 <= idx < |file| && Compare(file, idx, ridx) != 0 {
      Enough(file, idx + Compare(file, idx, ridx), ridx, a - 1, b - 1);
    }
  }

  lemma Oscillates(m: Meta, cap: nat, start: nat, file: seq<Block>, idx: int, ridx: nat, turns: nat)
    requires Directory(m, cap, start, file) && Trapped(cap, start, file, ridx) && 0 <= idx < |file|
    ensures !Halts(file, idx, ridx, turns)
    decreases turns
  {
    hide Directory, Home, Begin;
    CompareHome(m, cap, start, file, idx, ridx);
    if turns > 0 {
      Oscillates(m, cap, start, file, idx + Compare(file, idx, ridx), ridx, turns - 1);
    }
  }

  /** The search for a record's block ends exactly when the record does not fall into a block in front of
      the last that says nothing: there it goes to and fro for ever. */
  lemma SearchHaltsIff(m: Meta, cap: nat, start: nat, file: seq<Block>, idx: int, ridx: nat)
    requires Directory(m, cap, start, file) && 0 <= idx < |file|
    ensures (exists turns :: Halts(file, idx, ridx, turns)) <==> !Trapped(cap, start, file, ridx)
  {
    if Trapped(cap, start, file, ridx) {
      forall turns: nat
        ensures !Halts(file, idx, ridx, turns)
      {
        Oscillates(m, cap, start, file, idx, ridx, turns);
      }
    } else {
      Reaches(m, cap, start, file, idx, ridx);
    }
  }
}
