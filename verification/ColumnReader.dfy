// ColumnReader, with its CABReader: a cursor over the blocks of one column.

module ColumnReader {
  import opened Wrappers
  import opened Bytes
  import opened Bits
  import opened Records
  import opened CabFormat
  import opened CabImage
  import opened CabWriter
  import opened CabReader
  import opened Machine

  // ---- Records in a block ----

  /** First item from j on that begins a record, or the end. */
  function NextRecord(its: seq<Item>, j: nat): (e: nat)
    requires j <= |its|
    ensures j <= e <= |its|
    decreases |its| - j
  {
    if j < |its| && its[j].rep != 0 then NextRecord(its, j + 1) else j
  }

  /** The item that begins the num-th record behind the one that begins at i; -1 when there is none. */
  function Skip(its: seq<Item>, i: nat, num: nat): (e: int)
    requires i <= |its|
    ensures -1 <= e < |its|
    decreases num
  {
    if i == |its| then -1
    else if num == 0 then i
    else Skip(its, NextRecord(its, i + 1), num - 1)
  }

  /** Records that begin in front of item i. */
  function Begun(its: seq<Item>, i: nat): nat
    requires i <= |its|
  {
    Zeroes(its[..i])
  }

  predicate Boundary(its: seq<Item>, i: nat)
    requires i <= |its|
  {
    i == |its| || its[i].rep == 0
  }

  /** Number, within the block, of the record that item i belongs to. */
  function RecordOf(its: seq<Item>, i: nat): int
    requires i <= |its|
  {
    if Boundary(its, i) then Begun(its, i) else Begun(its, i) - 1
  }

  lemma BegunNext(its: seq<Item>, i: nat)
    requires i < |its|
    ensures Begun(its, i + 1) == Begun(its, i) + if its[i].rep == 0 then 1 else 0
  {
    assert its[..i + 1][..i] == its[..i];
  }

  lemma {:induction false} NextRecordBegun(its: seq<Item>, j: nat)
    requires j <= |its|
    ensures Begun(its, NextRecord(its, j)) == Begun(its, j) && Boundary(its, NextRecord(its, j))
    decreases |its| - j
  {
    if j < |its| && its[j].rep != 0 {
      BegunNext(its, j);
      NextRecordBegun(its, j + 1);
    }
  }

  /** Skipping finds the item with exactly `num` more records in front of it, and fails only when the
      block has no such record. */
  lemma {:induction false} SkipFinds(its: seq<Item>, i: nat, num: nat)
    requires i <= |its| && Boundary(its, i)
    ensures var e := Skip(its, i, num);
            && (e >= 0 ==> its[e].rep == 0 && Begun(its, e) == Begun(its, i) + num)
            && (e < 0 <==> Zeroes(its) <= Begun(its, i) + num)
    decreases num
  {
    assert its[..|its|] == its;
    BegunMono(its, i, |its|);
    if i < |its| {
      BegunNext(its, i);
      BegunMono(its, i + 1, |its|);
      if num > 0 {
        NextRecordBegun(its, i + 1);
        SkipFinds(its, NextRecord(its, i + 1), num - 1);
      }
    }
  }

  lemma {:induction false} BegunMono(its: seq<Item>, i: nat, j: nat)
    requires i <= j <= |its|
    ensures Begun(its, i) <= Begun(its, j)
  {
    if i < j {
      BegunMono(its, i, j - 1);
      BegunNext(its, j - 1);
    }
  }

  const TWO_63: nat := 0x8000_0000_0000_0000
  const TWO_64: nat := 0x1_0000_0000_0000_0000

  /** Block k counts the record. */
  predicate Counts(file: seq<Block>, k: int, ridx: nat) {
    0 <= k < |file| && file[k].info.bgnRecd <= ridx < file[k].info.bgnRecd + file[k].info.recdNum
  }

  class ColumnReader {
    const meta: Meta
    const file: seq<Block>
    var cabIdx: int            // m_cab_idx: the block to look at next
    var cur: Option<nat>       // m_cur_info
    var recdIdx: nat           // m_recd_idx
    var itemIdx: nat           // m_item_idx
    ghost const cap: nat
    ghost const start: nat

    function Loaded(): seq<Item>
      reads this
    {
      if cur.Some? && cur.value < |file| then BlockItems(meta, file[cur.value]) else []
    }

    /** Items of the loaded block that are still to be read. */
    function Rest(): seq<Item>
      reads this
    {
      if itemIdx <= |Loaded()| then Loaded()[itemIdx..] else []
    }

    /** The record index is that of the record the next item belongs to. */
    ghost predicate InStep()
      reads this
    {
      cur.Some? ==>
        && cur.value < |file| && itemIdx <= |Loaded()|
        && recdIdx == file[cur.value].info.bgnRecd + RecordOf(Loaded(), itemIdx)
    }

    ghost predicate Valid()
      reads this
    {
      && Directory(meta, cap, start, file) && cap < TWO_63 && Begin(cap, start, |file|) < TWO_63
      && InStep()
    }

    /** `init2read`. */
    constructor (meta: Meta, file: seq<Block>, ghost cap: nat, ghost start: nat)
      requires Directory(meta, cap, start, file) && cap < TWO_63 && Begin(cap, start, |file|) < TWO_63
      ensures Valid() && cur == None && cabIdx == 0
      ensures this.meta == meta && this.file == file && this.cap == cap && this.start == start
    {
      this.meta, this.file, this.cap, this.start := meta, file, cap, start;
      cabIdx, cur, recdIdx, itemIdx := 0, None, 0, 0;
    }

    /** `getRecdRange`: the end of the record that begins at item bgn.  A block without stored levels has
        one item per record. */
    method GetRecdRange(bgn: nat) returns (end: nat)
      requires cur.Some? && cur.value < |file| && bgn < |Loaded()| && Loaded()[bgn].rep == 0
      ensures end == NextRecord(Loaded(), bgn + 1)
    {
      hide BlockItems, ItemInfo.GetType;
      end := bgn + 1;
      if file[cur.value].info.GetType() == Trivial {
        TrivialBlock(meta, file[cur.value]);
        return;
      }
      var n := file[cur.value].info.itemNum;
      while end < n && Loaded()[end].rep != 0
        invariant bgn + 1 <= end <= n
        invariant NextRecord(Loaded(), end) == NextRecord(Loaded(), bgn + 1)
      {
        end := end + 1;
      }
    }

    /** `skipRecds`: -1 without enough records; else 0, and the index moved. */
    method SkipRecds(num: nat, idx: nat) returns (res: int, iidx: nat)
      requires cur.Some? ==> cur.value < |file|
      requires idx <= |Loaded()| ==> Boundary(Loaded(), idx)
      ensures if idx <= |Loaded()| && Skip(Loaded(), idx, num) >= 0 then res == 0 && iidx == Skip(Loaded(), idx, num)
              else res == -1
    {
      hide BlockItems, NextRecord, Zeroes;
      iidx := idx;
      res := -1;
      if cur == None { return; }
      var n := file[cur.value].info.itemNum;
      if idx >= n { return; }
      var left, end := num, 0;
      while left > 0 && end < n
        invariant iidx <= n && Boundary(Loaded(), iidx) && end <= n && (end < n ==> iidx < n) &&
            (end == n ==> iidx == n)
        invariant Skip(Loaded(), iidx, left) == Skip(Loaded(), idx, num)
      {
        end := GetRecdRange(iidx);
        NextRecordBegun(Loaded(), iidx + 1);
        iidx := end;
        left := left - 1;
      }
      res := if end < n then left else -1;
    }

    /** `getRecdBeginItemIdx`: the distance is taken modulo 2^64, so one backwards never succeeds. */
    method GetRecdBeginItemIdx(curRecd: nat, curItem: nat, tgt: nat) returns (iidx: int)
      requires cur.Some? ==> cur.value < |file|
      requires curItem <= |Loaded()| ==> Boundary(Loaded(), curItem)
      ensures iidx == if curItem <= |Loaded()| then Skip(Loaded(), curItem, (tgt - curRecd) % TWO_64) else -1
    {
      var dis := (tgt - curRecd) % TWO_64;
      var res, got := SkipRecds(dis, curItem);
      iidx := if res >= 0 then got else -1;
    }

    /** `calcCABIndex`. */
    method CalcCABIndex(ridx: nat) returns (got: bool)
      requires Directory(meta, cap, start, file) && cap > 0 && !Trapped(cap, start, file, ridx)
      modifies this`cabIdx
      ensures got ==> Counts(file, cabIdx, ridx)
      ensures got <==> 0 <= old(cabIdx) < |file| && exists k :: Counts(file, k, ridx)
      ensures !got ==> cabIdx < 0 || cabIdx >= |file|
    {
      hide Directory, Home, Begin, Zeroes, BlockItems;
      ghost var q := Home(cap, start, ridx);
      HomeLow(cap, start, ridx);
      CountsHome(meta, cap, start, file, ridx);
      while true
        invariant old(cabIdx) < 0 || old(cabIdx) >= |file| ==> cabIdx == old(cabIdx)
        invariant cabIdx < 0 || cabIdx >= |file| ==>
                    cabIdx == old(cabIdx) || forall k :: !Counts(file, k, ridx)
        decreases Distance(|file|, q, cabIdx)
      {
        if cabIdx < 0 || cabIdx >= |file| { return false; }
        CompareHome(meta, cap, start, file, cabIdx, ridx);
        var cmp := Compare(file, cabIdx, ridx);
        cabIdx := cabIdx + cmp;
        if cmp == 0 { return true; }
      }
    }

    /** The record can be reached: its block is loaded already, or the search can start. */
    ghost predicate Reachable(ridx: nat)
      reads this
    {
      exists k: nat :: Counts(file, k, ridx) && (cur == Some(k) || 0 <= cabIdx < |file|)
    }

    /** `CABReader::loadCAB4Record`. */
    method LoadBlock(ridx: nat) returns (got: bool)
      requires Directory(meta, cap, start, file) && cap > 0 && !Trapped(cap, start, file, ridx)
      modifies this`cabIdx, this`cur
      ensures got == old(Reachable(ridx))
      ensures got ==> cur.Some? && Counts(file, cur.value, ridx)
      ensures got ==> cabIdx == cur.value + 1 || (cur == old(cur) && cabIdx == old(cabIdx))
      ensures !got ==> cur == old(cur) && (cabIdx < 0 || cabIdx >= |file|)
    {
      hide Directory, Trapped;
      CountsHome(meta, cap, start, file, ridx);
      if cur.Some? && Counts(file, cur.value, ridx) {
        return true;
      }
      got := CalcCABIndex(ridx);
      if got {
        assert Counts(file, cabIdx as nat, ridx);
        cur := Some(cabIdx);
        cabIdx := cabIdx + 1;
      }
    }

    /** `loadCAB4Record`: the cursor goes to the record in its block. */
    method LoadCAB4Record(ridx: nat) returns (got: bool)
      requires Valid() && cap > 0 && !Trapped(cap, start, file, ridx)
      modifies this
      ensures Valid() && got == old(Reachable(ridx))
      ensures got ==> At(ridx) && Counts(file, cur.value, ridx)
      ensures got ==> cabIdx == cur.value + 1 || (cur == old(cur) && cabIdx == old(cabIdx))
      ensures !got ==> cur == old(cur) && itemIdx == old(itemIdx) && (cabIdx < 0 || cabIdx >= |file|)
    {
      hide Trapped, Zeroes, BlockItems, Begin, Directory, Skip, Begun;
      got := LoadBlock(ridx);
      if got {
        var bgn := file[cur.value].info.bgnRecd;
        RecordThere(meta, cap, start, file, cur.value, ridx);
        var iidx := GetRecdBeginItemIdx(bgn, 0, ridx);
        itemIdx := iidx;
        recdIdx := ridx;
      }
    }

    /** `prepare2ReadRecord`: from a record boundary, to any record of the loaded block or of a later one,
        forwards or backwards; it fails exactly when no such block counts the record. */
    method Prepare2ReadRecord(ridx: nat) returns (got: bool)
      requires Valid() && cap > 0 && !Trapped(cap, start, file, ridx) && ridx < TWO_63
      requires cur.Some? ==> Boundary(Loaded(), itemIdx)
      modifies this
      ensures Valid() && got == old(Reachable(ridx))
      ensures got ==> At(ridx) && Counts(file, cur.value, ridx)
      ensures got ==> cabIdx == cur.value + 1 || (cur == old(cur) && cabIdx == old(cabIdx))
      ensures !got ==> cur == old(cur) && itemIdx == old(itemIdx) && (cabIdx < 0 || cabIdx >= |file|)
    {
      hide Trapped, Zeroes, BlockItems, Begin, Directory, Skip, Begun;
      if cur.Some? {
        BlockEntry(meta, cap, start, file, cur.value);
        SeekInside(Loaded(), file[cur.value].info.bgnRecd, itemIdx, ridx);
      }
      var iidx := GetRecdBeginItemIdx(recdIdx, itemIdx, ridx);
      if iidx != -1 {
        assert Counts(file, cur.value, ridx);
        recdIdx, itemIdx := ridx, iidx;
        got := true;
      } else {
        got := LoadCAB4Record(ridx);
      }
    }

    /** `readItem`: the next item with the repetition level behind it; 0 at the end of the block. */
    method ReadItem(stale: nat) returns (got: bool, it: Item, next: nat)
      requires Valid() && cur.Some?
      modifies this`itemIdx, this`recdIdx
      ensures got == (old(Rest()) != [])
      ensures got ==> Valid() && it == old(Rest())[0] && Rest() == old(Rest())[1..] && next == HeadRep(Rest())
    {
      hide Zeroes, BlockItems, Begin, Directory, Begun, RecordOf;
      ghost var its, i := Loaded(), itemIdx;
      RestOf(its, i);
      var b := file[cur.value];
      got := itemIdx < b.info.itemNum;
      it, next := Item(0, 0, None), stale;
      if got {
        StepRecord(Loaded(), itemIdx);
        it := Loaded()[itemIdx];
        next := if itemIdx + 1 < b.info.itemNum then Loaded()[itemIdx + 1].rep else 0;
      }
      itemIdx := itemIdx + 1;
      recdIdx := recdIdx + if next == 0 then 1 else 0;
    }

    /** The cursor is at the first item of the record. */
    ghost predicate At(ridx: nat)
      reads this
    {
      && cur.Some? && cur.value < |file| && recdIdx == ridx
      && itemIdx < |Loaded()| && Loaded()[itemIdx].rep == 0
      && file[cur.value].info.bgnRecd + Begun(Loaded(), itemIdx) == ridx
    }
  }

  /** Item e of a block begins record number num of it. */
  ghost predicate Begins(its: seq<Item>, e: int, num: int) {
    0 <= e < |its| && its[e].rep == 0 && Begun(its, e) == num
  }

  /** A record that a block counts begins at one of its items, and a seek from the front finds it. */
  lemma RecordThere(m: Meta, cap: nat, start: nat, file: seq<Block>, k: nat, ridx: nat)
    requires cap > 0 && Directory(m, cap, start, file) && Counts(file, k, ridx) && cap < TWO_63
    ensures ridx >= file[k].info.bgnRecd && (ridx - file[k].info.bgnRecd) % TWO_64 == ridx - file[k].info.bgnRecd
    ensures Boundary(BlockItems(m, file[k]), 0)
    ensures Begins(BlockItems(m, file[k]), Skip(BlockItems(m, file[k]), 0, ridx - file[k].info.bgnRecd),
        ridx - file[k].info.bgnRecd)
  {
    hide BlockItems, Begin;
    assert EntryOk(m, cap, Begin(cap, start, k), file[k], k == |file| - 1);
    var its, num := BlockItems(m, file[k]), ridx - file[k].info.bgnRecd;
    assert its[..0] == [];
    NoZero();
    SkipFinds(its, 0, num);
    hide Zeroes, Skip, EntryOk, Directory;
    SmallMod(num, TWO_64);
  }

  lemma RestOf(its: seq<Item>, i: nat)
    requires i <= |its|
    ensures its[i..] != [] <==> i < |its|
    ensures i < |its| ==> its[i..][0] == its[i] && its[i..][1..] == its[i + 1..]
    ensures i < |its| ==> HeadRep(its[i + 1..]) == if i + 1 < |its| then its[i + 1].rep else 0
  {
  }

  /** The record index goes on exactly when the next item begins a record, or the block ends. */
  lemma StepRecord(its: seq<Item>, i: nat)
    requires i < |its|
    ensures RecordOf(its, i + 1) == RecordOf(its, i) + if i + 1 == |its| || its[i + 1].rep == 0 then 1 else 0
  {
    BegunNext(its, i);
  }

  /** The loaded block counts its records in step with the directory. */
  lemma BlockEntry(m: Meta, cap: nat, start: nat, file: seq<Block>, k: nat)
    requires cap > 0 && Directory(m, cap, start, file) && k < |file|
    ensures file[k].info.recdNum == Zeroes(BlockItems(m, file[k])) <= cap
    ensures file[k].info.bgnRecd + cap <= Begin(cap, start, |file|)
  {
    hide BlockItems, Zeroes;
    assert EntryOk(m, cap, Begin(cap, start, k), file[k], k == |file| - 1);
    Apart(cap, k, |file|);
    assert |file| * cap == cap * |file|;
  }

  /** From the current record a seek inside the block finds the target, or the target is not behind it. */
  lemma SeekInside(its: seq<Item>, bgn: nat, i: nat, ridx: nat)
    requires i <= |its| && Boundary(its, i) && bgn + Zeroes(its) < TWO_63 && ridx < TWO_63
    ensures var e := Skip(its, i, (ridx - (bgn + Begun(its, i))) % TWO_64);
            e >= 0 ==> Begins(its, e, ridx - bgn) && bgn <= ridx < bgn + Zeroes(its)
  {
    hide Skip, Zeroes;
    var cur := bgn + Begun(its, i);
    var dis := (ridx - cur) % TWO_64;
    SkipFinds(its, i, dis);
    assert its[..|its|] == its;
    BegunMono(its, i, |its|);
    var e := Skip(its, i, dis);
    if e >= 0 {
      BegunNext(its, e);
      BegunMono(its, e + 1, |its|);
      if ridx >= cur {
        SmallMod(ridx - cur, TWO_64);
      } else {
        WrapsAround(ridx, cur);
      }
    }
  }

  lemma WrapsAround(a: nat, b: nat)
    requires a < b < TWO_63
    ensures (a - b) % TWO_64 > TWO_63
  {
    assert (a - b) % TWO_64 == a - b + TWO_64;
  }

  lemma TrivialBlock(m: Meta, b: Block)
    requires b.info.GetType() == Trivial
    ensures forall i :: 0 <= i < b.info.itemNum ==> BlockItems(m, b)[i].rep == 0
  {
  }

  /** Only a record's home can count it. */
  lemma CountsHome(m: Meta, cap: nat, start: nat, file: seq<Block>, ridx: nat)
    requires cap > 0 && Directory(m, cap, start, file)
    ensures forall k :: Counts(file, k, ridx) ==> k == Home(cap, start, ridx)
  {
    hide Home, Begin;
    forall k | Counts(file, k, ridx)
      ensures k == Home(cap, start, ridx)
    {
      CompareHome(m, cap, start, file, k, ridx);
    }
  }
}
