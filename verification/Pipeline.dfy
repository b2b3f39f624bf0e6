// Striped records, stored column by column, and assembled again from the files.

module Pipeline {
  import opened Wrappers
  import opened Bytes
  import opened Paths
  import opened Records
  import opened Machine
  import opened RoundTrip
  import opened Bits
  import opened CabFormat
  import opened CabImage
  import opened Cabs
  import opened CabWriter
  import opened CabReader
  import opened Striping
  import opened Assembler
  import ColumnReader
  import FsmTable
  import RecordBuilder

  // ---- A column of records ----

  /** Items of the records in one column. */
  function ColumnOf(p: Path, vs: seq<Value>): seq<Item> {
    if vs == [] then [] else ItemsOf(p, vs[0]) + ColumnOf(p, vs[1..])
  }

  function ItemsOf(p: Path, v: Value): seq<Item> {
    if v.Obj? && p != [] then StripeObject(v, p, 0, 0) else []
  }

  /** Records that agree with the schema along a column, with values of the leaf's type. */
  ghost predicate Conforming(m: Meta, vs: seq<Value>) {
    m.path != [] && forall v :: v in vs ==> v.Obj? && FitsObject(m.rept, v, m.path, 0) && Typed(m.dt, v, m.path)
  }

  lemma HeadRecord(m: Meta, vs: seq<Value>)
    requires Conforming(m, vs) && vs != []
    ensures ItemsOf(m.path, vs[0]) != [] && AllFit(m, ItemsOf(m.path, vs[0])) && Conforming(m, vs[1..])
    ensures var its := ItemsOf(m.path, vs[0]); forall k :: 0 <= k < |its| ==> (its[k].rep == 0 <==> k == 0)
  {
    RecordItems(m, vs[0]);
  }

  /** A column begins with a record, and all its items can be written. */
  lemma {:induction false} ColumnFits(m: Meta, vs: seq<Value>)
    requires Conforming(m, vs)
    ensures AllFit(m, ColumnOf(m.path, vs))
    ensures ColumnOf(m.path, vs) != [] ==> ColumnOf(m.path, vs)[0].rep == 0
    ensures ColumnOf(m.path, vs) == [] <==> vs == []
  {
    hide Conforming, Fits, ItemsOf;
    NotEmptyPath(m, vs);
    if vs != [] {
      HeadRecord(m, vs);
      ColumnFits(m, vs[1..]);
    }
  }

  lemma NotEmptyPath(m: Meta, vs: seq<Value>)
    requires Conforming(m, vs)
    ensures m.path != []
  {
  }

  /** Zeroes of a record's items: one. */
  lemma RecordZeroes(its: seq<Item>, j: nat)
    requires 0 < j <= |its| && forall k :: 0 <= k < |its| ==> (its[k].rep == 0 <==> k == 0)
    ensures Zeroes(its[..j]) == 1
  {
    assert its[..j][..j - 1] == its[..j - 1];
    if j > 1 {
      RecordZeroes(its, j - 1);
    } else {
      assert its[..1] == [its[0]];
      OneZero(its[0]);
    }
  }

  /** The item that begins record r is where the items of the records before r end. */
  lemma {:induction false} Locate(m: Meta, vs: seq<Value>, i: nat)
    requires Conforming(m, vs) && i < |ColumnOf(m.path, vs)| && ColumnOf(m.path, vs)[i].rep == 0
    ensures var r := Zeroes(ColumnOf(m.path, vs)[..i]);
            r < |vs| && ColumnOf(m.path, vs)[i..] == ItemsOf(m.path, vs[r]) + ColumnOf(m.path, vs[r + 1..])
  {
    hide Conforming, Fits, ItemsOf, Zeroes;
    HeadRecord(m, vs);
    var s, rest := ItemsOf(m.path, vs[0]), ColumnOf(m.path, vs[1..]);
    var all := ColumnOf(m.path, vs);
    assert all == s + rest;
    if i == 0 {
      assert all[..0] == [] && all[0..] == all;
      NoZero();
    } else {
      assert forall k :: 0 <= k < |s| ==> all[k] == s[k];
      var j := i - |s|;
      Locate(m, vs[1..], j);
      assert all[..i] == s + rest[..j];
      RecordZeroes(s, |s|);
      assert s[..|s|] == s;
      ZeroesConcat(s, rest[..j]);
      var r := Zeroes(rest[..j]);
      assert all[i..] == rest[j..];
      assert vs[1..][r] == vs[r + 1] && vs[1..][r + 1..] == vs[r + 2..];
    }
  }

  lemma {:induction false} ColumnZeroes(m: Meta, vs: seq<Value>)
    requires Conforming(m, vs)
    ensures Zeroes(ColumnOf(m.path, vs)) == |vs|
  {
    hide Conforming, Fits, ItemsOf, Zeroes;
    if vs == [] {
      NoZero();
    } else {
      HeadRecord(m, vs);
      var s := ItemsOf(m.path, vs[0]);
      RecordZeroes(s, |s|);
      assert s[..|s|] == s;
      ColumnZeroes(m, vs[1..]);
      ZeroesConcat(s, ColumnOf(m.path, vs[1..]));
    }
  }

  // ---- A record in its block ----

  lemma {:induction false} JoinedSplit(bs: seq<seq<Item>>, k: nat)
    requires k < |bs|
    ensures Joined(bs) == Joined(bs[..k]) + bs[k] + Joined(bs[k + 1..])
    decreases |bs|
  {
    var n := |bs| - 1;
    if k == n {
      assert bs[k + 1..] == [];
    } else {
      JoinedSplit(bs[..n], k);
      assert bs[..n][..k] == bs[..k];
      var later := bs[k + 1..];
      assert bs[..n][k + 1..] == later[..|later| - 1];
      assert later[|later| - 1] == bs[n];
    }
  }

  /** Behind a block there is nothing, or a record that begins. */
  lemma {:induction false} LaterBegins(bs: seq<seq<Item>>)
    requires forall k :: 0 <= k < |bs| ==> bs[k] != [] && bs[k][0].rep == 0
    ensures Joined(bs) == [] <==> bs == []
    ensures bs != [] ==> Joined(bs)[0].rep == 0
  {
    if bs != [] {
      LaterBegins(bs[..|bs| - 1]);
    }
  }

  /** Items x, then y, then z; from inside y on they go on with a whole record, whose last item still
      lies in y when z begins with a record. */
  lemma CutRecord(x: seq<Item>, y: seq<Item>, z: seq<Item>, e: nat, s: seq<Item>, later: seq<Item>)
    requires e < |y| && (x + y + z)[|x| + e..] == s + later
    requires s != [] && forall k :: 0 < k < |s| ==> s[k].rep != 0
    requires z != [] ==> z[0].rep == 0
    requires later != [] ==> later[0].rep == 0
    ensures e + |s| <= |y| && y[e..] == s + y[e + |s|..] && HeadRep(y[e + |s|..]) == 0
  {
    var all := x + y + z;
    var d := |y| - e;
    assert all[|x| + e..] == y[e..] + z;
    var t := y[e..] + z;
    assert t == s + later;
    assert forall k :: 0 <= k < |s| ==> t[k] == s[k];
    assert z != [] ==> t[d] == z[0];
    assert y[e..] == t[..d];
    assert t[..|s|] == s;
    if d > |s| { assert t[|s|] == later[0]; }
  }

  /** In its block, a record's items are followed by nothing or by the next record. */
  lemma RecordInBlock(m: Meta, cap: nat, vs: seq<Value>, k: nat, e: nat)
    requires Conforming(m, vs) && cap > 0
    requires var bs := BlocksOf(cap, ColumnOf(m.path, vs)); k < |bs| && e < |bs[k]| && bs[k][e].rep == 0
    ensures var b := BlocksOf(cap, ColumnOf(m.path, vs))[k];
            var r := k * cap + Zeroes(b[..e]);
            && 0 <= r < |vs|
            && var s := ItemsOf(m.path, vs[r]);
               e + |s| <= |b| && b[e..] == s + b[e + |s|..] && HeadRep(b[e + |s|..]) == 0
  {
    hide Conforming, Fits, ItemsOf, Zeroes, BlocksOf, ColumnOf, Joined;
    var its := ColumnOf(m.path, vs);
    var bs := BlocksOf(cap, its);
    ColumnFits(m, vs);
    BlocksAligned(cap, its);
    JoinedSplit(bs, k);
    var x, b, z := Joined(bs[..k]), bs[k], Joined(bs[k + 1..]);
    var i := |x| + e;
    assert its == x + b + z && its[i] == b[e];
    RecordsBefore(cap, bs, k);
    assert its[..i] == x + b[..e];
    ZeroesConcat(x, b[..e]);
    Locate(m, vs, i);
    var r := Zeroes(its[..i]);
    Times0(k, cap);
    ItemsBegin(m, vs, r);
    LaterBegins(bs[k + 1..]);
    CutRecord(x, b, z, e, ItemsOf(m.path, vs[r]), ColumnOf(m.path, vs[r + 1..]));
  }

  lemma ItemsBegin(m: Meta, vs: seq<Value>, r: nat)
    requires Conforming(m, vs) && r < |vs|
    ensures var s := ItemsOf(m.path, vs[r]);
            s != [] && (forall k :: 0 < k < |s| ==> s[k].rep != 0)
    ensures var later := ColumnOf(m.path, vs[r + 1..]); later != [] ==> later[0].rep == 0
  {
    RecordItems(m, vs[r]);
    assert Conforming(m, vs[r + 1..]);
    ColumnFits(m, vs[r + 1..]);
  }

  // ---- The directory of a column of records ----

  /** A stored column of records vs, the first of which is record `start` of the table: they can be written,
      and no block is lost. */
  ghost predicate StoredColumn(m: Meta, cap: nat, start: nat, vs: seq<Value>, file: seq<Block>) {
    && Conforming(m, vs) && Column(m, cap, ColumnOf(m.path, vs)) && Audible(cap, ColumnOf(m.path, vs))
    && file == FileOf(m, cap, start, ColumnOf(m.path, vs))
  }

  lemma NoTrap(m: Meta, cap: nat, start: nat, vs: seq<Value>, file: seq<Block>, ridx: nat)
    requires StoredColumn(m, cap, start, vs, file)
    ensures cap > 0 && Directory(m, cap, start, file) && !Trapped(cap, start, file, ridx)
  {
    hide Conforming, BlocksOf, FileOf, WritableBlocks, AllFit, Silent, ColumnOf, EntryOk, Home;
    FileDirectory(m, cap, start, ColumnOf(m.path, vs));
    HomeLow(cap, start, ridx);
  }

  /** Block k of the file gives back block k of the column. */
  lemma BlockThere(m: Meta, cap: nat, start: nat, vs: seq<Value>, file: seq<Block>, k: nat)
    requires StoredColumn(m, cap, start, vs, file) && k < |file|
    ensures k < |BlocksOf(cap, ColumnOf(m.path, vs))| == |file|
    ensures BlockItems(m, file[k]) == BlocksOf(cap, ColumnOf(m.path, vs))[k]
  {
    hide Conforming, BlocksOf, FileOf, WritableBlocks, AllFit, Silent, ColumnOf, BlockItems;
    BlockGiven(m, cap, start, ColumnOf(m.path, vs), k);
  }

  /** Every block in front of the last has all its records, and the last has the others. */
  lemma TotalRecords(m: Meta, cap: nat, start: nat, vs: seq<Value>, file: seq<Block>)
    requires StoredColumn(m, cap, start, vs, file)
    ensures file != [] && |vs| == (|file| - 1) * cap + file[|file| - 1].info.recdNum
    ensures forall k :: 0 <= k < |file| ==> file[k].info.bgnRecd == start + k * cap && file[k].info.recdNum <= cap
    ensures forall k :: 0 <= k < |file| - 1 ==> file[k].info.recdNum == cap
  {
    hide BlocksOf, FileOf, WritableBlocks, AllFit, Silent, Zeroes, Joined, ColumnOf, BlockItems;
    var its := ColumnOf(m.path, vs);
    var bs, n := BlocksOf(cap, its), |file| - 1;
    FileDirectory(m, cap, start, its);
    assert forall k :: 0 <= k < |file| ==> EntryOk(m, cap, Begin(cap, start, k), file[k], k == |file| - 1);
    BlocksAligned(cap, its);
    BlockThere(m, cap, start, vs, file, n);
    RecordsBefore(cap, bs, n);
    JoinedSplit(bs, n);
    assert bs[n + 1..] == [];
    NoneJoined();
    assert its == Joined(bs[..n]) + bs[n];
    ZeroesConcat(Joined(bs[..n]), bs[n]);
    ColumnZeroes(m, vs);
    forall k | 0 <= k < n
      ensures file[k].info.recdNum == cap
    {
      if file[k].info.itemNum == 0 {
        assert BlockItems(m, file[k]) == [];
        NoZero();
      }
    }
  }

  lemma NoneJoined()
    ensures Joined([]) == []
  {
  }

  lemma DivRange(r: nat, cap: nat)
    requires cap > 0
    ensures r / cap * cap <= r < r / cap * cap + cap
  {
    var q := r / cap;
    assert r == cap * q + r % cap;
  }

  /** The directory counts exactly the records of the column. */
  lemma RecordsCounted(m: Meta, cap: nat, start: nat, vs: seq<Value>, file: seq<Block>, r: nat)
    requires StoredColumn(m, cap, start, vs, file)
    ensures (exists k: nat :: ColumnReader.Counts(file, k, r)) <==> start <= r < start + |vs|
  {
    NoTrap(m, cap, start, vs, file, r);
    TotalRecords(m, cap, start, vs, file);
    hide *;
    CountedIff(cap, start, file, |vs|, r);
  }

  /** Blocks of cap records each, from record `start` on, the last one with what is left. */
  ghost predicate Filled(cap: nat, start: nat, file: seq<Block>, total: nat) {
    && cap > 0 && file != [] && total == (|file| - 1) * cap + file[|file| - 1].info.recdNum
    && (forall k :: 0 <= k < |file| ==> file[k].info.bgnRecd == start + k * cap && file[k].info.recdNum <= cap)
    && forall k :: 0 <= k < |file| - 1 ==> file[k].info.recdNum == cap
  }

  lemma CountedIff(cap: nat, start: nat, file: seq<Block>, total: nat, r: nat)
    requires Filled(cap, start, file, total)
    ensures (exists k: nat :: ColumnReader.Counts(file, k, r)) <==> start <= r < start + total
  {
    if k: nat :| ColumnReader.Counts(file, k, r) {
      CountedInside(cap, start, file, total, k, r);
    }
    if start <= r < start + total {
      DivRange(r - start, cap);
      CountedAt(cap, start, file, total, (r - start) / cap, r);
    }
  }

  /** What a block counts lies between the begin and the end of the column. */
  lemma CountedInside(cap: nat, start: nat, file: seq<Block>, total: nat, k: nat, r: nat)
    requires Filled(cap, start, file, total) && ColumnReader.Counts(file, k, r)
    ensures start <= r < start + total
  {
    Times0(k, cap);
    if k < |file| - 1 { Apart(cap, k, |file| - 1); }
  }

  lemma CountedAt(cap: nat, start: nat, file: seq<Block>, total: nat, q: nat, r: nat)
    requires Filled(cap, start, file, total) && start + q * cap <= r < start + q * cap + cap && r < start + total
    ensures ColumnReader.Counts(file, q, r)
  {
    HomeBefore(q, |file| - 1, cap, r - start);
  }

  lemma HomeBefore(q: nat, n: nat, cap: nat, r: nat)
    requires cap > 0 && q * cap <= r < n * cap + cap
    ensures q <= n
  {
    if q > n { Apart(cap, n, q); }
  }

  // ---- Readers of stored columns ----

  /** The reader's file has the column of the records from its first valid one on. */
  ghost predicate ReadsColumn(rd: ColumnReader.ColumnReader, m: Meta, cap: nat, vs: seq<Value>) {
    && rd.meta == m && rd.cap == cap && rd.start <= |vs|
    && StoredColumn(m, cap, rd.start, vs[rd.start..], rd.file)
  }

  /** The reader is in front of record r, having read the one before if that is in its column. */
  ghost predicate Poised(rd: ColumnReader.ColumnReader, r: nat)
    reads rd
  {
    && rd.Valid() && rd.start <= r
    && (rd.cur.None? ==> rd.cabIdx == 0)
    && (rd.cur.Some? ==>
          && r > 0 && rd.cabIdx == rd.cur.value + 1
          && ColumnReader.Counts(rd.file, rd.cur.value, r - 1) && HeadRep(rd.Rest()) == 0)
  }

  /** The reader stands between two records, or has not begun. */
  ghost predicate Bounded(rd: ColumnReader.ColumnReader)
    reads rd
  {
    rd.Valid() && (rd.cur.Some? ==> ColumnReader.Boundary(rd.Loaded(), rd.itemIdx))
  }

  /** The reader can be asked for record r: it is in front of it, or there is no such record any more. */
  ghost predicate Askable(rd: ColumnReader.ColumnReader, vs: seq<Value>, r: nat)
    reads rd
  {
    if r < |vs| then Poised(rd, r) else Bounded(rd) && rd.start <= r
  }

  /** Items s come first, and behind them nothing or the next record. */
  ghost predicate InFront(s: seq<Item>, rest: seq<Item>) {
    |s| <= |rest| && rest == s + rest[|s|..] && HeadRep(rest[|s|..]) == 0
  }

  /** The reader is at record r, whose items come next. */
  ghost predicate Prepared(rd: ColumnReader.ColumnReader, m: Meta, cap: nat, vs: seq<Value>, r: nat)
    reads rd
  {
    && rd.start <= r < |vs| && rd.Valid() && rd.cur.Some? && rd.cabIdx == rd.cur.value + 1
    && ColumnReader.Counts(rd.file, rd.cur.value, r)
    && InFront(ItemsOf(m.path, vs[r]), rd.Rest())
    && forall k :: 0 <= k < |rd.Rest()| ==> Fits(m, rd.Rest()[k])
  }

  /** The record can be reached from where the reader stands. */
  lemma Reach(rd: ColumnReader.ColumnReader, m: Meta, cap: nat, vs: seq<Value>, r: nat)
    requires ReadsColumn(rd, m, cap, vs) && Poised(rd, r)
    ensures rd.Reachable(r) <==> r < |vs|
  {
    hide StoredColumn, BlockItems, Directory, ColumnReader.ColumnReader.InStep, HeadRep, ColumnReader.ColumnReader.Rest;
    RecordsCounted(m, cap, rd.start, vs[rd.start..], rd.file, r);
    if r < |vs| {
      var k: nat :| ColumnReader.Counts(rd.file, k, r);
      if rd.cur.Some? {
        TotalRecords(m, cap, rd.start, vs[rd.start..], rd.file);
        HomeBefore(rd.cur.value, k, cap, r - rd.start);
      }
    }
  }

  /** At the first item of record r, the rest of the block begins with the record's items. */
  lemma RestAtRecord(rd: ColumnReader.ColumnReader, m: Meta, cap: nat, vs: seq<Value>, r: nat)
    requires ReadsColumn(rd, m, cap, vs) && rd.Valid() && rd.At(r)
    ensures r < |vs| && InFront(ItemsOf(m.path, vs[r]), rd.Rest())
    ensures forall k :: 0 <= k < |rd.Rest()| ==> Fits(m, rd.Rest()[k])
  {
    hide StoredColumn, BlockItems, Directory, BlocksOf, ColumnOf, ItemsOf, Fits, Zeroes,
         ColumnReader.ColumnReader.InStep;
    var k, e, us := rd.cur.value, rd.itemIdx, vs[rd.start..];
    BlockThere(m, cap, rd.start, us, rd.file, k);
    TotalRecords(m, cap, rd.start, us, rd.file);
    NoTrap(m, cap, rd.start, us, rd.file, r);
    IsConforming(m, cap, rd.start, us, rd.file);
    RecordInBlock(m, cap, us, k, e);
    ColumnFits(m, us);
    BlocksFit(m, cap, ColumnOf(m.path, us));
    var b := rd.Loaded();
    assert rd.Rest() == b[e..];
    assert forall j :: 0 <= j < |b[e..]| ==> b[e..][j] == b[e + j];
    assert AllFit(m, b);
    var s := ItemsOf(m.path, vs[r]);
    assert us[r - rd.start] == vs[r];
    assert b[e..][|s|..] == b[e + |s|..];
  }

  lemma IsConforming(m: Meta, cap: nat, start: nat, vs: seq<Value>, file: seq<Block>)
    requires StoredColumn(m, cap, start, vs, file)
    ensures Conforming(m, vs)
  {
  }

  /** `prepare2ReadRecord` of one reader: fails exactly behind the last record. */
  method PrepareReader(rd: ColumnReader.ColumnReader, r: nat, ghost m: Meta, ghost cap: nat, ghost vs: seq<Value>)
    returns (got: bool)
    requires ReadsColumn(rd, m, cap, vs) && Askable(rd, vs, r) && r < ColumnReader.TWO_63
    modifies rd
    ensures got == (r < |vs|)
    ensures got ==> Prepared(rd, m, cap, vs, r)
    ensures !got ==> Bounded(rd) && rd.start <= r
  {
    hide StoredColumn, BlockItems, Directory, Fits, ItemsOf, InFront, ColumnReader.ColumnReader.InStep,
         ColumnReader.Boundary;
    if r < |vs| {
      Reach(rd, m, cap, vs, r);
      PoisedBounded(rd, r);
    } else {
      NotThere(rd, m, cap, vs, r);
    }
    NoTrap(m, cap, rd.start, vs[rd.start..], rd.file, r);
    got := rd.Prepare2ReadRecord(r);
    if got { RestAtRecord(rd, m, cap, vs, r); }
  }

  lemma PoisedBounded(rd: ColumnReader.ColumnReader, r: nat)
    requires Poised(rd, r)
    ensures Bounded(rd) && rd.start <= r
  {
    hide BlockItems, Directory;
  }

  /** No block counts a record behind the last. */
  lemma NotThere(rd: ColumnReader.ColumnReader, m: Meta, cap: nat, vs: seq<Value>, r: nat)
    requires ReadsColumn(rd, m, cap, vs) && r >= |vs|
    ensures !rd.Reachable(r)
  {
    hide StoredColumn, ColumnReader.Counts;
    RecordsCounted(m, cap, rd.start, vs[rd.start..], rd.file, r);
  }

  // ---- Tables ----

  /** A table of records: the selected columns, the types of their leaves, and how many records a block holds. */
  datatype Table = Table(P: Plan, dts: seq<DataType>, cap: nat, vs: seq<Value>) {
    function Meta(c: nat): Meta
      requires c < |P.paths| == |dts|
    {
      CabFormat.Meta(P.rept, P.paths[c], dts[c])
    }

    /** Every record agrees with every column; no selected column is empty, and rows fit a 32-bit size. */
    ghost predicate Valid() {
      && P.Valid() && P.paths != [] && |P.paths| == |dts| && cap > 0
      && (forall c :: 0 <= c < |P.paths| ==> Conforming(Meta(c), vs))
      && (forall v :: v in vs ==> v.Obj? && |Encode(Project(P, v))| < 0x1_0000_0000)
      && |vs| < ColumnReader.TWO_63
    }

    ghost predicate Reading(crds: seq<ColumnReader.ColumnReader>) {
      && |crds| == |P.paths| == |dts|
      && (forall i, j :: 0 <= i < j < |crds| ==> crds[i] != crds[j])
      && forall c :: 0 <= c < |crds| ==> ReadsColumn(crds[c], Meta(c), cap, vs)
    }
  }

  ghost predicate AllPoised(crds: seq<ColumnReader.ColumnReader>, r: nat)
    reads crds
  {
    forall c :: 0 <= c < |crds| ==> Poised(crds[c], r)
  }

  ghost predicate AllAskable(t: Table, crds: seq<ColumnReader.ColumnReader>, r: nat)
    reads crds
  {
    forall c :: 0 <= c < |crds| ==> Askable(crds[c], t.vs, r)
  }

  ghost predicate AllPrepared(t: Table, crds: seq<ColumnReader.ColumnReader>, r: nat)
    requires t.Reading(crds)
    reads crds
  {
    forall c :: 0 <= c < |crds| ==> Prepared(crds[c], t.Meta(c), t.cap, t.vs, r)
  }

  /** `prepareColumnReader`: all columns go to record r, or there is no such record. */
  method PrepareColumnReader(crds: seq<ColumnReader.ColumnReader>, r: nat, ghost t: Table) returns (got: bool)
    requires t.Valid() && t.Reading(crds) && AllAskable(t, crds, r) && r < ColumnReader.TWO_63
    modifies crds
    ensures got == (r < |t.vs|)
    ensures got ==> AllPrepared(t, crds, r)
    ensures !got ==> AllAskable(t, crds, r)
  {
    hide Poised, Bounded, Prepared, ReadsColumn, Encode, Project, Conforming, Plan.Valid;
    var c := 0;
    while c < |crds|
      invariant 0 <= c <= |crds|
      invariant c > 0 ==> r < |t.vs|
      invariant forall i :: 0 <= i < c ==> Prepared(crds[i], t.Meta(i), t.cap, t.vs, r)
      invariant forall i :: c <= i < |crds| ==> Askable(crds[i], t.vs, r)
    {
      got := PrepareReader(crds[c], r, t.Meta(c), t.cap, t.vs);
      if !got { return; }
      c := c + 1;
    }
    got := true;
  }

  /** Columns behind the record's items. */
  function Behind(t: Table, r: nat, rests: seq<seq<Item>>): (tail: seq<seq<Item>>)
    requires |rests| == |t.P.paths| && r < |t.vs|
    ensures |tail| == |rests|
  {
    seq(|rests|, c requires 0 <= c < |rests| =>
      if |ItemsOf(t.P.paths[c], t.vs[r])| <= |rests[c]| then rests[c][|ItemsOf(t.P.paths[c], t.vs[r])|..] else [])
  }

  lemma RecordConforms(t: Table, r: nat)
    requires t.Valid() && r < |t.vs|
    ensures Conforms(t.P, t.vs[r])
  {
    hide FitsObject, Encode, Project, Typed, Plan.Valid;
    forall c | 0 <= c < |t.P.paths|
      ensures t.P.paths[c] != [] && FitsObject(t.P.rept, t.vs[r], t.P.paths[c], 0)
    {
      assert Conforming(t.Meta(c), t.vs);
    }
  }

  /** What the readers are about to give is the striped record, and behind it the next ones. */
  lemma RestsAreStriped(t: Table, crds: seq<ColumnReader.ColumnReader>, r: nat)
    requires t.Valid() && t.Reading(crds) && AllPrepared(t, crds, r) && r < |t.vs|
    ensures var tail := Behind(t, r, Rests(crds));
            Rests(crds) == Before0(StripeRecord(t.P, t.vs[r]), tail) && AtRecord(tail)
    ensures RepsFit(t.P, Rests(crds)) && Readers(crds)
  {
    hide ReadsColumn, Encode, Project, Conforming, Plan.Valid, ColumnReader.ColumnReader.Valid,
         ColumnReader.ColumnReader.Rest, HeadRep, StripeObject, Fits;
    RecordConforms(t, r);
    var tail, s := Behind(t, r, Rests(crds)), StripeRecord(t.P, t.vs[r]);
    forall c | 0 <= c < |crds|
      ensures Rests(crds)[c] == s[c] + tail[c] && HeadRep(tail[c]) == 0
      ensures crds[c].Valid() && crds[c].cur.Some?
      ensures forall k :: 0 <= k < |Rests(crds)[c]| ==> Fits(t.Meta(c), Rests(crds)[c][k])
    {
      assert Prepared(crds[c], t.Meta(c), t.cap, t.vs, r);
    }
    AllRepsFit(t, Rests(crds));
  }

  lemma AllRepsFit(t: Table, rests: seq<seq<Item>>)
    requires |t.P.paths| == |t.dts| == |rests|
    requires forall c :: 0 <= c < |rests| ==> forall k :: 0 <= k < |rests[c]| ==> Fits(t.Meta(c), rests[c][k])
    ensures RepsFit(t.P, rests)
  {
    forall c: nat, k: nat | 0 <= c < |rests| && 0 <= k < |rests[c]|
      ensures rests[c][k].rep <= |t.P.paths[c]|
    {
      assert Fits(t.Meta(c), rests[c][k]);
    }
  }

  /** With the readers at record r, the machine's outcome is the record's projection. */
  lemma OutcomeAt(asm: RecordNestedAssembler, r: nat, t: Table)
    requires asm.Valid() && asm.plan == t.P && t.Valid() && t.Reading(asm.crds) && r < |t.vs|
    requires AllPrepared(t, asm.crds, r)
    ensures asm.Ready()
    ensures asm.Outcome() == Machine.Done(Encode(Project(t.P, t.vs[r])), Behind(t, r, Rests(asm.crds)))
    ensures AtRecord(Behind(t, r, Rests(asm.crds)))
  {
    hide ReadsColumn, Encode, Project, Conforming, Plan.Valid, ColumnReader.ColumnReader.Valid,
         ColumnReader.ColumnReader.Rest, HeadRep, StripeObject, Fits, Prepared, Machine.Assemble, Before0, StripeRecord,
         Rests, RepsFit, AtRecord, Behind, RecordNestedAssembler.Valid, Readers;
    RestsAreStriped(t, asm.crds, r);
    RecordConforms(t, r);
    AssembleStriped(t.P, t.vs[r], Behind(t, r, Rests(asm.crds)));
  }

  /** One record: the columns go to it, and the assembler rebuilds its row behind what is in the buffer. */
  method AssembleRecord(asm: RecordNestedAssembler, r: nat, ghost t: Table) returns (got: bool)
    requires asm.Valid() && asm.plan == t.P && t.Valid() && t.Reading(asm.crds) && AllAskable(t, asm.crds, r)
    requires r < ColumnReader.TWO_63
    modifies asm.build, asm.crds
    ensures got == (r < |t.vs|)
    ensures !got ==> asm.Valid() && AllAskable(t, asm.crds, r) && asm.build.buf == old(asm.build.buf)
    ensures got ==> asm.Valid() && AllAskable(t, asm.crds, r + 1)
    ensures got ==> asm.build.buf == old(asm.build.buf) + Encode(Project(t.P, t.vs[r]))
    ensures |asm.build.objs| == old(|asm.build.objs|)
  {
    hide ReadsColumn, Encode, Project, Conforming, Plan.Valid, ColumnReader.ColumnReader.Valid,
         ColumnReader.ColumnReader.Rest, HeadRep, Fits, Poised, Prepared, AllPoised, AllAskable, AllPrepared, Attached,
         FsmTable.FSMTable.Valid, RecordBuilder.RecordBuilder.Idle;
    got := PrepareColumnReader(asm.crds, r, t);
    if got {
      StillAttached(t, asm.crds, r);
      AssembleAt(asm, r, t);
      PoisedAskable(t, asm.crds, r + 1);
    } else {
      AskableAttached(t, asm.crds, r);
    }
  }

  lemma PoisedAskable(t: Table, crds: seq<ColumnReader.ColumnReader>, r: nat)
    requires AllPoised(crds, r)
    ensures AllAskable(t, crds, r)
  {
    hide Poised, Bounded;
    forall c | 0 <= c < |crds|
      ensures Askable(crds[c], t.vs, r)
    {
      PoisedBounded(crds[c], r);
    }
  }

  lemma AskableAttached(t: Table, crds: seq<ColumnReader.ColumnReader>, r: nat)
    requires t.Reading(crds) && AllAskable(t, crds, r)
    ensures Attached(crds)
  {
    hide ReadsColumn, ColumnReader.ColumnReader.Valid;
    forall c | 0 <= c < |crds|
      ensures crds[c].Valid()
    {
      assert Askable(crds[c], t.vs, r);
    }
  }

  lemma StillAttached(t: Table, crds: seq<ColumnReader.ColumnReader>, r: nat)
    requires t.Reading(crds) && AllPrepared(t, crds, r)
    ensures Attached(crds)
  {
    hide ReadsColumn, ColumnReader.ColumnReader.Valid, ColumnReader.ColumnReader.Rest, Fits;
    forall c | 0 <= c < |crds|
      ensures crds[c].Valid()
    {
      assert Prepared(crds[c], t.Meta(c), t.cap, t.vs, r);
    }
  }

  method AssembleAt(asm: RecordNestedAssembler, r: nat, ghost t: Table)
    requires asm.Valid() && asm.plan == t.P && t.Valid() && t.Reading(asm.crds) && r < |t.vs|
    requires AllPrepared(t, asm.crds, r)
    modifies asm.build, asm.crds
    ensures asm.Valid() && AllPoised(asm.crds, r + 1) && |asm.build.objs| == old(|asm.build.objs|)
    ensures asm.build.buf == old(asm.build.buf) + Encode(Project(t.P, t.vs[r]))
  {
    hide ReadsColumn, Encode, Project, Conforming, Plan.Valid, ColumnReader.ColumnReader.Valid,
         ColumnReader.ColumnReader.Rest, HeadRep, Fits, Poised, Prepared, AllPoised, AllPrepared, Machine.Assemble,
         Rests, Blocks, RepsFit, AtRecord, Behind, RecordNestedAssembler.Valid, RecordNestedAssembler.Ready, Readers,
         Table.Valid;
    OutcomeAt(asm, r, t);
    ghost var tail, stand := Behind(t, r, Rests(asm.crds)), Blocks(asm.crds);
    Standing(t, asm.crds, r);
    var s := asm.Assemble();
    NextPoised(t, asm.crds, r, stand, tail);
  }

  /** Each reader's block counts record r, and the next one to look at is the block behind it. */
  ghost predicate Stands(t: Table, stand: seq<(Option<nat>, int)>, crds: seq<ColumnReader.ColumnReader>, r: nat) {
    && |stand| == |crds| && (forall c :: 0 <= c < |crds| ==> crds[c].start <= r)
    && forall c :: 0 <= c < |crds| ==>
      stand[c].0.Some? && stand[c].1 == stand[c].0.value + 1 && ColumnReader.Counts(crds[c].file, stand[c].0.value, r)
  }

  lemma Standing(t: Table, crds: seq<ColumnReader.ColumnReader>, r: nat)
    requires t.Reading(crds) && AllPrepared(t, crds, r)
    ensures Stands(t, Blocks(crds), crds, r)
  {
    hide ReadsColumn, ColumnReader.ColumnReader.Valid, ColumnReader.ColumnReader.Rest, Fits;
    forall c | 0 <= c < |crds|
      ensures crds[c].start <= r && crds[c].cur.Some? && crds[c].cabIdx == crds[c].cur.value + 1
      ensures ColumnReader.Counts(crds[c].file, crds[c].cur.value, r)
    {
      assert Prepared(crds[c], t.Meta(c), t.cap, t.vs, r);
    }
  }

  lemma NextPoised(t: Table, crds: seq<ColumnReader.ColumnReader>, r: nat, stand: seq<(Option<nat>, int)>,
        tail: seq<seq<Item>>)
    requires Readers(crds) && Rests(crds) == tail && AtRecord(tail) && Blocks(crds) == stand &&
        Stands(t, stand, crds, r)
    ensures AllPoised(crds, r + 1)
  {
    hide ColumnReader.ColumnReader.Valid, ColumnReader.ColumnReader.Rest, HeadRep;
    forall c | 0 <= c < |crds|
      ensures Poised(crds[c], r + 1)
    {
      assert stand[c] == (crds[c].cur, crds[c].cabIdx);
      assert Rests(crds)[c] == crds[c].Rest();
    }
  }

  /** Assembling a stored table, to its end: the buffer grows by the projections of all records, in order. */
  method AssembleTable(asm: RecordNestedAssembler, ghost t: Table) returns (num: nat)
    requires asm.Valid() && asm.plan == t.P && t.Valid() && t.Reading(asm.crds) && AllPoised(asm.crds, 0)
    modifies asm.build, asm.crds
    ensures num == |t.vs| && asm.build.buf == old(asm.build.buf) + Concat(Rows(t.P, t.vs))
  {
    hide Encode, Project, AllPoised, AllAskable, ReadsColumn, Conforming, Concat, Rows, Table.Valid, Table.Reading,
         RecordNestedAssembler.Valid;
    FewRecords(t);
    num := 0;
    PoisedAskable(t, asm.crds, 0);
    NoRow(t);
    while true
      invariant num <= |t.vs| && asm.Valid() && AllAskable(t, asm.crds, num)
      invariant asm.build.buf == old(asm.build.buf) + Concat(Rows(t.P, t.vs)[..num])
      decreases |t.vs| - num
    {
      var got := AssembleRecord(asm, num, t);
      if !got { break; }
      NextRow(t, num);
      assert old(asm.build.buf) + (Concat(Rows(t.P, t.vs)[..num]) + Encode(Project(t.P, t.vs[num])))
          == old(asm.build.buf) + Concat(Rows(t.P, t.vs)[..num]) + Encode(Project(t.P, t.vs[num]));
      num := num + 1;
    }
    assert Rows(t.P, t.vs)[..|t.vs|] == Rows(t.P, t.vs);
  }

  lemma FewRecords(t: Table)
    requires t.Valid()
    ensures |t.vs| < ColumnReader.TWO_63 && forall v :: v in t.vs ==> v.Obj?
  {
    hide Plan.Valid, Conforming, Encode, Project;
  }

  lemma NoRow(t: Table)
    requires t.Valid()
    ensures |Rows(t.P, t.vs)| == |t.vs| && Concat(Rows(t.P, t.vs)[..0]) == []
  {
    hide Encode, Project;
  }

  lemma NextRow(t: Table, r: nat)
    requires t.Valid() && r < |t.vs|
    ensures |Rows(t.P, t.vs)| == |t.vs|
    ensures Concat(Rows(t.P, t.vs)[..r + 1]) == Concat(Rows(t.P, t.vs)[..r]) + Encode(Project(t.P, t.vs[r]))
  {
    hide Encode, Project;
    var rows := Rows(t.P, t.vs);
    assert rows[..r + 1][..r] == rows[..r];
  }

  // ---- Writing, reading and assembling ----

  /** Levels of a column are stored in at most 32 bits. */
  lemma NarrowLevels(m: Meta)
    requires |m.path| < FsmTable.UINT_MAX
    ensures m.RepWidth() <= 32 && m.DefWidth() <= 32
  {
    hide UsedBits;
    Limit32();
    UsedBitsLeast(m.Rept().ReptBits(), 32);
    UsedBitsLeast(m.MaxDef(), 32);
  }

  lemma Limit32()
    ensures Pow2(32) == 0x1_0000_0000
  {
    assert Pow2(8) == 0x100;
    assert Pow2(16) == 0x1_0000 by { assert Pow2(12) == 0x1000; }
    assert Pow2(24) == 0x100_0000 by { assert Pow2(20) == 0x10_0000; }
    assert Pow2(28) == 0x1000_0000;
  }

  /** Writes the items of a column, whatever the writer decides about its buffers and units. */
  method StoreColumn(m: Meta, cap: nat, rbgn: nat, its: seq<Item>) returns (file: seq<Block>)
    requires cap > 0 && cap % 8 == 0 && |m.path| < FsmTable.UINT_MAX
    requires AllFit(m, its) && (its != [] ==> its[0].rep == 0)
    ensures file == FileOf(m, cap, CalcAlignBegin(rbgn, cap), its)
  {
    hide Fits, CABWriter.Valid, FileOf, Meta.RepWidth, Meta.DefWidth, CalcAlignBegin;
    NarrowLevels(m);
    var w := new CABWriter(m, cap, rbgn);
    var i := 0;
    while i < |its|
      invariant 0 <= i <= |its| && w.Valid() && w.its == its[..i] && fresh(w) && fresh(w.cab.Repr)
    {
      var room: bool, expItems: nat := *, *;
      if expItems == 0 { expItems := 1; }
      assert its[..i + 1] == its[..i] + [its[i]];
      w.Write(its[i], room, expItems);
      i := i + 1;
    }
    assert its[..|its|] == its;
    w.Close();
    file := w.file;
  }

  lemma AlignedBegin(rbgn: nat, cap: nat)
    requires cap > 0
    ensures CalcAlignBegin(rbgn, cap) <= rbgn && (rbgn == 0 ==> CalcAlignBegin(rbgn, cap) == 0)
  {
    DivRange(rbgn, cap);
  }

  /** The table can be stored: paths of one schema tree, values that fit their blocks, and in no column a
      block that is lost. */
  ghost predicate Storable(t: Table) {
    && TableFits(t)
    && forall c :: 0 <= c < |t.P.paths| ==> ColumnStorable(t, c, 0)
  }

  /** All that a stored table needs besides its columns. */
  ghost predicate TableFits(t: Table) {
    t.Valid() && t.cap % 8 == 0 && |t.vs| + t.cap < ColumnReader.TWO_63 && FsmTable.TreePaths(t.P.paths)
  }

  /** The column can be stored from record `start` on. */
  ghost predicate ColumnStorable(t: Table, c: nat, start: nat)
    requires c < |t.P.paths| == |t.dts|
  {
    start <= |t.vs| &&
    var its := ColumnOf(t.P.paths[c], t.vs[start..]);
    |t.P.paths[c]| < FsmTable.UINT_MAX && WritableBlocks(t.Meta(c), t.cap, its) && Audible(t.cap, its)
  }

  lemma IsStored(t: Table, c: nat, start: nat)
    requires TableFits(t) && c < |t.P.paths| && ColumnStorable(t, c, start)
    ensures var m, its := t.Meta(c), ColumnOf(t.P.paths[c], t.vs[start..]);
            && 0 < |m.path| < FsmTable.UINT_MAX && t.cap > 0
            && AllFit(m, its) && (its != [] ==> its[0].rep == 0)
            && StoredColumn(m, t.cap, start, t.vs[start..], FileOf(m, t.cap, start, its))
  {
    hide ColumnOf, WritableBlocks, Audible, FileOf, AllFit, Plan.Valid, Encode, Project, FsmTable.TreePaths, Typed,
         FitsObject;
    var us := t.vs[start..];
    assert Conforming(t.Meta(c), t.vs);
    assert Conforming(t.Meta(c), us);
    ColumnFits(t.Meta(c), us);
    NotEmptyPath(t.Meta(c), us);
  }

  lemma FileEnds(m: Meta, cap: nat, start: nat, vs: seq<Value>, file: seq<Block>)
    requires StoredColumn(m, cap, start, vs, file)
    ensures Begin(cap, start, |file|) <= start + |vs| + cap
  {
    TotalRecords(m, cap, start, vs, file);
    hide StoredColumn;
    Times(|file|, cap);
  }

  /** A column that begins with the block of record `root` is written, and a reader put at its front. */
  method OpenColumn(m: Meta, cap: nat, root: nat, its: seq<Item>, ghost t: Table, ghost c: nat)
    returns (rd: ColumnReader.ColumnReader)
    requires TableFits(t) && c < |t.P.paths| && m == t.Meta(c) && cap == t.cap > 0
    requires ColumnStorable(t, c, CalcAlignBegin(root, cap))
    requires its == ColumnOf(t.P.paths[c], t.vs[CalcAlignBegin(root, cap)..])
    ensures fresh(rd) && ReadsColumn(rd, t.Meta(c), t.cap, t.vs)
    ensures rd.start == CalcAlignBegin(root, cap) && rd.Valid() && rd.cur.None? && rd.cabIdx == 0
    ensures forall r: nat | r >= rd.start :: Poised(rd, r)
  {
    hide StoredColumn, Directory, AllFit, ColumnOf, FileOf, Begin, Plan.Valid, Encode, Project, FsmTable.TreePaths,
         Conforming, CalcAlignBegin;
    ghost var start := CalcAlignBegin(root, cap);
    IsStored(t, c, start);
    var file := StoreColumn(m, cap, root, its);
    NoTrap(m, cap, start, t.vs[start..], file, 0);
    FileEnds(m, cap, start, t.vs[start..], file);
    rd := new ColumnReader.ColumnReader(m, file, cap, start);
  }

  /** Columns as they were shredded. */
  ghost predicate Shredded(t: Table, cols: seq<seq<Item>>) {
    |cols| == |t.P.paths| && forall c :: 0 <= c < |cols| ==> cols[c] == ColumnOf(t.P.paths[c], t.vs)
  }

  /** Readers of all columns, and the depth of the deepest path with the root. */
  method OpenColumns(P: Plan, dts: seq<DataType>, cap: nat, cols: seq<seq<Item>>, ghost t: Table)
    returns (crds: seq<ColumnReader.ColumnReader>, depth: nat)
    requires Storable(t) && t.P == P && t.dts == dts && t.cap == cap && Shredded(t, cols)
    ensures fresh(crds) && t.Reading(crds) && AllPoised(crds, 0) && depth > 0
    ensures forall c :: 0 <= c < |t.P.paths| ==> |t.P.paths[c]| < depth
  {
    hide Plan.Valid, Encode, Project, FsmTable.TreePaths, ColumnStorable, Conforming, ReadsColumn, Poised, ColumnOf,
         ColumnReader.ColumnReader.Valid, CalcAlignBegin;
    crds, depth := [], 1;
    while |crds| < |P.paths|
      invariant |crds| <= |t.P.paths| && fresh(crds) && depth > 0
      invariant forall i, j :: 0 <= i < j < |crds| ==> crds[i] != crds[j]
      invariant forall c :: 0 <= c < |crds| ==> ReadsColumn(crds[c], t.Meta(c), t.cap, t.vs)
      invariant forall c :: 0 <= c < |crds| ==> Poised(crds[c], 0)
      invariant forall c :: 0 <= c < |crds| ==> |t.P.paths[c]| < depth
    {
      var c := |crds|;
      AlignedBegin(0, cap);
      assert t.vs[0..] == t.vs;
      var rd := OpenColumn(Meta(P.rept, P.paths[c], dts[c]), cap, 0, cols[c], t, c);
      crds := crds + [rd];
      if depth <= |P.paths[c]| { depth := |P.paths[c]| + 1; }
    }
  }

  /** Round trip of a table: storing the shredded columns and assembling the files gives the projections of
      all records, in order. */
  method StoreAndAssemble(P: Plan, dts: seq<DataType>, cap: nat, cols: seq<seq<Item>>, ghost t: Table)
    returns (rows: Bytes)
    requires Storable(t) && t.P == P && t.dts == dts && t.cap == cap && Shredded(t, cols)
    ensures rows == Concat(Rows(t.P, t.vs))
  {
    hide Plan.Valid, Encode, Project, ColumnStorable, Conforming, ReadsColumn, Poised, AllPoised, Rows, Concat,
         Attached, Storable, Shredded, FsmTable.TreePaths, FsmTable.FSMTable.Valid, RecordBuilder.RecordBuilder.Idle;
    StorableTable(t);
    var crds, depth := OpenColumns(P, dts, cap, cols, t);
    var asm := new RecordNestedAssembler(P.rept, depth);
    PathsFit(t);
    PoisedAttached(crds);
    asm.Reinit(P, crds);
    var num := AssembleTable(asm, t);
    rows := asm.build.buf;
    assert [] + rows == rows;
  }

  lemma StorableTable(t: Table)
    requires Storable(t)
    ensures t.Valid() && t.P.Valid() && t.P.paths != [] && FsmTable.TreePaths(t.P.paths)
  {
    hide Plan.Valid, FsmTable.TreePaths, ColumnStorable, Conforming, Encode, Project;
  }

  lemma PathsFit(t: Table)
    requires Storable(t)
    ensures forall c :: 0 <= c < |t.P.paths| ==> 0 < |t.P.paths[c]| < FsmTable.UINT_MAX
  {
    forall c | 0 <= c < |t.P.paths|
      ensures 0 < |t.P.paths[c]| < FsmTable.UINT_MAX
    {
      IsStored(t, c, 0);
    }
  }

  lemma PoisedAttached(crds: seq<ColumnReader.ColumnReader>)
    requires forall i, j :: 0 <= i < j < |crds| ==> crds[i] != crds[j]
    requires AllPoised(crds, 0)
    ensures Attached(crds)
  {
  }
}
