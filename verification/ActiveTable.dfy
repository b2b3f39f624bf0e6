// A stored table whose columns become valid at different records: at every record the assembler works with
// the columns that are valid there.

module ActiveTables {
  import opened Bytes
  import opened Paths
  import opened Records
  import opened RoundTrip
  import opened Bits
  import opened CabFormat
  import opened Assembler
  import opened ActiveColumns
  import opened Pipeline
  import ColumnReader
  import FsmTable
  import RecordBuilder

  /** The readers, or the data types, of some columns. */
  function Pick<T>(xs: seq<T>, cs: seq<nat>): (ys: seq<T>)
    requires forall i :: 0 <= i < |cs| ==> cs[i] < |xs|
    ensures |ys| == |cs|
  {
    seq(|cs|, i requires 0 <= i < |cs| => xs[cs[i]])
  }

  /** The table as it is assembled at record r. */
  function TableAt(t: Table, valid: seq<nat>, r: int): Table
    requires |valid| == |t.P.paths| == |t.dts|
  {
    Table(ActivePlan(t.P, valid, r), Pick(t.dts, Active(valid, r)), t.cap, t.vs)
  }

  /** A table with a column that is valid from the first record on, and rows that fit a 32-bit size whatever
      columns take part. */
  ghost predicate LateTable(t: Table, valid: seq<nat>) {
    && t.Valid() && |valid| == |t.P.paths| && 0 in valid && FsmTable.TreePaths(t.P.paths)
    && (forall c :: 0 <= c < |t.P.paths| ==> |t.P.paths[c]| < FsmTable.UINT_MAX)
    && forall r: nat, v :: v in t.vs ==> RowFits(ActivePlan(t.P, valid, r), v)
  }

  ghost predicate RowFits(P: Plan, v: Value) {
    v.Obj? && |Encode(Project(P, v))| < 0x1_0000_0000
  }

  lemma SomeActive(valid: seq<nat>, r: nat)
    requires 0 in valid
    ensures Active(valid, r) != []
  {
    var c :| 0 <= c < |valid| && valid[c] == 0;
    ActiveExact(valid, r, c);
  }

  lemma PlanAtValid(P: Plan, valid: seq<nat>, r: int)
    requires |valid| == |P.paths| && P.Valid()
    ensures ActivePlan(P, valid, r).Valid()
    ensures FsmTable.TreePaths(P.paths) ==> FsmTable.TreePaths(ActivePlan(P, valid, r).paths)
  {
    hide Active, Less, FsmTable.TreePair;
    ActiveExact(valid, r, 0);
  }

  /** At every record there is a proper table. */
  lemma TableAtValid(t: Table, valid: seq<nat>, r: nat)
    requires LateTable(t, valid)
    ensures TableAt(t, valid, r).Valid() && FsmTable.TreePaths(TableAt(t, valid, r).P.paths)
  {
    hide Plan.Valid, FsmTable.TreePaths, Active, Conforming, Encode, Project;
    PlanAtValid(t.P, valid, r);
    SomeActive(valid, r);
    var u := TableAt(t, valid, r);
    forall i | 0 <= i < |u.P.paths|
      ensures Conforming(u.Meta(i), u.vs)
    {
      assert u.Meta(i) == t.Meta(Active(valid, r)[i]);
    }
    forall v | v in t.vs
      ensures v.Obj? && |Encode(Project(u.P, v))| < 0x1_0000_0000
    {
      assert RowFits(ActivePlan(t.P, valid, r), v);
    }
  }

  /** The row of record r: its projection on the columns that are valid there. */
  function RowAt(t: Table, valid: seq<nat>, r: nat): Bytes
    requires r < |t.vs| && |valid| == |t.P.paths|
  {
    if t.vs[r].Obj? then Encode(Project(ActivePlan(t.P, valid, r), t.vs[r])) else []
  }

  function RowsTo(t: Table, valid: seq<nat>, n: nat): Bytes
    requires n <= |t.vs| && |valid| == |t.P.paths|
  {
    if n == 0 then [] else RowsTo(t, valid, n - 1) + RowAt(t, valid, n - 1)
  }

  // ---- Readers ----

  /** Every reader's file has its column from a record on that is not behind the first valid one. */
  ghost predicate ReadsAll(t: Table, valid: seq<nat>, crds: seq<ColumnReader.ColumnReader>) {
    && |crds| == |valid| == |t.P.paths| == |t.dts|
    && (forall i, j :: 0 <= i < j < |crds| ==> crds[i] != crds[j])
    && forall c :: 0 <= c < |crds| ==> ReadsColumn(crds[c], t.Meta(c), t.cap, t.vs) && crds[c].start <= valid[c]
  }

  ghost predicate Unused(rd: ColumnReader.ColumnReader)
    reads rd
  {
    rd.Valid() && rd.cur.None? && rd.cabIdx == 0
  }

  /** In front of record r the readers of earlier valid columns can be asked for it, and the others have not
      been used. */
  ghost predicate Waiting(t: Table, valid: seq<nat>, crds: seq<ColumnReader.ColumnReader>, r: nat)
    requires |valid| == |crds|
    reads crds
  {
    forall c :: 0 <= c < |crds| ==> if valid[c] < r then Askable(crds[c], t.vs, r) else Unused(crds[c])
  }

  /** A new column's reader can be asked for any record from its first valid one on. */
  lemma UnusedAskable(rd: ColumnReader.ColumnReader, vs: seq<Value>, r: nat)
    requires Unused(rd) && rd.start <= r
    ensures Askable(rd, vs, r)
  {
    hide ColumnReader.ColumnReader.Valid;
  }

  /** At record r the valid columns' readers are those of the table at r, and can be asked for it. */
  lemma ReadersAt(t: Table, valid: seq<nat>, crds: seq<ColumnReader.ColumnReader>, r: nat)
    requires ReadsAll(t, valid, crds) && Waiting(t, valid, crds, r)
    ensures var ready := Pick(crds, Active(valid, r));
            TableAt(t, valid, r).Reading(ready) && AllAskable(TableAt(t, valid, r), ready, r)
  {
    hide Active, ReadsColumn, Askable, Unused;
    var cs := Active(valid, r);
    ActiveExact(valid, r, 0);
    forall i | 0 <= i < |cs|
      ensures ReadsColumn(crds[cs[i]], TableAt(t, valid, r).Meta(i), t.cap, t.vs) && Askable(crds[cs[i]], t.vs, r)
    {
      ActiveExact(valid, r, cs[i]);
      if valid[cs[i]] == r { UnusedAskable(crds[cs[i]], t.vs, r); }
    }
  }

  /** A reader that does not take part is none of those that do. */
  lemma NotPicked(valid: seq<nat>, crds: seq<ColumnReader.ColumnReader>, r: nat, c: nat)
    requires |crds| == |valid| && c < |crds| && valid[c] > r
    requires forall i, j :: 0 <= i < j < |crds| ==> crds[i] != crds[j]
    ensures crds[c] !in Pick(crds, Active(valid, r))
  {
    hide Active;
    var cs := Active(valid, r);
    forall i | 0 <= i < |cs|
      ensures crds[cs[i]] != crds[c]
    {
      ActiveExact(valid, r, cs[i]);
    }
  }

  /** Readers that were asked for record r and those that were left alone are in front of the next record. */
  lemma WaitingNext(t: Table, valid: seq<nat>, crds: seq<ColumnReader.ColumnReader>, r: nat)
    requires ReadsAll(t, valid, crds) && AllAskable(TableAt(t, valid, r), Pick(crds, Active(valid, r)), r + 1)
    requires forall c :: 0 <= c < |crds| && valid[c] > r ==> Unused(crds[c])
    ensures Waiting(t, valid, crds, r + 1)
  {
    hide Active, ReadsColumn, Askable, Unused;
    var cs := Active(valid, r);
    forall c | 0 <= c < |crds| && valid[c] <= r
      ensures Askable(crds[c], t.vs, r + 1)
    {
      ActiveExact(valid, r, c);
      var i :| 0 <= i < |cs| && cs[i] == c;
      assert Pick(crds, cs)[i] == crds[c];
    }
  }

  // ---- Assembling ----

  /** In front of record r: the assembler works with the columns that were valid at the record before. */
  ghost predicate InFrontOf(t: Table, cols: AssembleColumn, asm: RecordNestedAssembler,
        crds: seq<ColumnReader.ColumnReader>, r: nat)
    reads cols, asm, asm.build, asm.fsm, asm.fsm.table, asm.crds, crds
  {
    && LateTable(t, cols.valid) && cols.Valid() && cols.paths == t.P.paths && cols.last == r - 1
    && ReadsAll(t, cols.valid, crds) && Waiting(t, cols.valid, crds, r)
    && Working(t, cols.valid, asm, crds, r - 1)
  }

  /** The assembler works with the columns that are valid at a record, and has levels for all of the table's. */
  ghost predicate Working(t: Table, valid: seq<nat>, asm: RecordNestedAssembler,
        crds: seq<ColumnReader.ColumnReader>, r: int)
    requires ReadsAll(t, valid, crds)
    reads asm, asm.build, asm.fsm, asm.fsm.table, asm.crds
  {
    && asm.Valid() && asm.plan == ActivePlan(t.P, valid, r) && asm.crds == Pick(crds, Active(valid, r))
    && forall c :: 0 <= c < |t.P.paths| ==> |t.P.paths[c]| <= |asm.build.objs|
  }

  /** The first half of `prepareColumnReader`: when columns become valid the assembler is told. */
  method UpdateColumns(cols: AssembleColumn, asm: RecordNestedAssembler, crds: seq<ColumnReader.ColumnReader>, r: nat,
        ghost t: Table)
    requires InFrontOf(t, cols, asm, crds, r)
    modifies cols, asm, asm.fsm
    ensures cols.Valid() && cols.last == r && Working(t, cols.valid, asm, crds, r)
  {
    hide Active, LateTable, ReadsColumn, Askable, Unused, Plan.Valid, FsmTable.TreePaths;
    var reinit := cols.Prepare(r);
    if reinit {
      ReadersAt(t, cols.valid, crds, r);
      AskableAttached(TableAt(t, cols.valid, r), Pick(crds, Active(cols.valid, r)), r);
      TableAtValid(t, cols.valid, r);
      PathsAt(t, cols.valid, r);
      asm.Reinit(Plan(cols.curPath, asm.build.rept), Pick(crds, cols.curCrds));
    }
  }

  lemma PathsAt(t: Table, valid: seq<nat>, r: nat)
    requires LateTable(t, valid)
    ensures var ps := TableAt(t, valid, r).P.paths;
            ps != [] && forall i :: 0 <= i < |ps| ==> ps[i] in t.P.paths && 0 < |ps[i]| < FsmTable.UINT_MAX
  {
    hide Active, Conforming, Encode, Project, Plan.Valid, FsmTable.TreePaths;
    SomeActive(valid, r);
    var cs := Active(valid, r);
    forall i | 0 <= i < |cs|
      ensures 0 < |t.P.paths[cs[i]]| < FsmTable.UINT_MAX
    {
      NotEmptyPath(t.Meta(cs[i]), t.vs);
    }
  }

  /** One record: `prepareColumnReader` and `assemble`. */
  method AssembleNext(cols: AssembleColumn, asm: RecordNestedAssembler, crds: seq<ColumnReader.ColumnReader>, r: nat,
        ghost t: Table)
    returns (got: bool)
    requires InFrontOf(t, cols, asm, crds, r) && r < ColumnReader.TWO_63
    modifies cols, asm, asm.fsm, asm.build, crds
    ensures got == (r < |t.vs|)
    ensures got ==> InFrontOf(t, cols, asm, crds, r + 1)
    ensures got ==> asm.build.buf == old(asm.build.buf) + RowAt(t, cols.valid, r)
    ensures !got ==> asm.build.buf == old(asm.build.buf)
  {
    hide Active, ReadsColumn, Askable, Unused, Plan.Valid, FsmTable.TreePaths, Conforming, Encode, Project,
         RecordNestedAssembler.Valid;
    UpdateColumns(cols, asm, crds, r, t);
    ReadersAt(t, cols.valid, crds, r);
    TableAtValid(t, cols.valid, r);
    got := AssembleRecord(asm, r, TableAt(t, cols.valid, r));
    if got {
      forall c | 0 <= c < |crds| && cols.valid[c] > r
        ensures Unused(crds[c])
      {
        NotPicked(cols.valid, crds, r, c);
      }
      WaitingNext(t, cols.valid, crds, r);
    }
  }

  lemma FewLate(t: Table, valid: seq<nat>)
    requires LateTable(t, valid)
    ensures |t.vs| < ColumnReader.TWO_63
  {
    FewRecords(t);
  }

  /** The whole table, to its end: every record's row has the columns that are valid at the record. */
  method AssembleLate(cols: AssembleColumn, asm: RecordNestedAssembler, crds: seq<ColumnReader.ColumnReader>,
        ghost t: Table)
    returns (num: nat)
    requires InFrontOf(t, cols, asm, crds, 0)
    modifies cols, asm, asm.fsm, asm.build, crds
    ensures num == |t.vs| && asm.build.buf == old(asm.build.buf) + RowsTo(t, cols.valid, |t.vs|)
  {
    hide InFrontOf, RowAt;
    FrontFacts(t, cols, asm, crds, 0);
    FewLate(t, cols.valid);
    num := 0;
    while true
      invariant num <= |t.vs| && InFrontOf(t, cols, asm, crds, num)
      invariant asm.build.buf == old(asm.build.buf) + RowsTo(t, cols.valid, num)
      decreases |t.vs| - num
    {
      var got := AssembleNext(cols, asm, crds, num, t);
      if !got { break; }
      assert old(asm.build.buf) + (RowsTo(t, cols.valid, num) + RowAt(t, cols.valid, num))
          == old(asm.build.buf) + RowsTo(t, cols.valid, num) + RowAt(t, cols.valid, num);
      num := num + 1;
    }
  }

  lemma FrontFacts(t: Table, cols: AssembleColumn, asm: RecordNestedAssembler, crds: seq<ColumnReader.ColumnReader>,
        r: nat)
    requires InFrontOf(t, cols, asm, crds, r)
    ensures LateTable(t, cols.valid) && |cols.valid| == |t.P.paths|
  {
  }

  // ---- Storing ----

  /** The items of column c as it was shredded: from the first record of the block in which its leaf was created. */
  ghost predicate ColumnFrom(t: Table, c: nat, root: nat, its: seq<Item>)
    requires c < |t.P.paths| == |t.dts| && t.cap > 0
  {
    var start := CalcAlignBegin(root, t.cap);
    ColumnStorable(t, c, start) && its == ColumnOf(t.P.paths[c], t.vs[start..])
  }

  ghost predicate ShreddedLate(t: Table, valid: seq<nat>, items: seq<seq<Item>>) {
    && TableFits(t) && LateTable(t, valid) && |items| == |valid|
    && forall c :: 0 <= c < |items| ==> ColumnFrom(t, c, valid[c], items[c])
  }

  /** Writes every column from its own first block on, and assembles the table from the files. */
  method StoreAndAssembleLate(P: Plan, dts: seq<DataType>, cap: nat, valid: seq<nat>, items: seq<seq<Item>>,
        ghost t: Table)
    returns (rows: Bytes)
    requires ShreddedLate(t, valid, items) && t.P == P && t.dts == dts && t.cap == cap
    ensures rows == RowsTo(t, valid, |t.vs|)
  {
    hide TableFits, LateTable, ColumnFrom, ReadsColumn, Unused, FsmTable.FSMTable.Valid,
         RecordBuilder.RecordBuilder.Idle, Plan.Valid, Conforming, Encode, Project, Active, RowsTo;
    var crds := OpenLate(P, dts, cap, valid, items, t);
    var cols := new AssembleColumn(P.paths, valid);
    var asm := new RecordNestedAssembler(P.rept, cols.maxDepth);
    NoneYet(t, valid, crds);
    var num := AssembleLate(cols, asm, crds, t);
    rows := asm.build.buf;
    assert [] + rows == rows;
  }

  lemma NoneYet(t: Table, valid: seq<nat>, crds: seq<ColumnReader.ColumnReader>)
    requires |valid| == |t.P.paths| == |crds|
    ensures ActivePlan(t.P, valid, -1) == Plan([], t.P.rept) && Pick(crds, Active(valid, -1)) == []
  {
    if Active(valid, -1) != [] {
      ActiveExact(valid, -1, Active(valid, -1)[0]);
    }
  }

  method OpenLate(P: Plan, dts: seq<DataType>, cap: nat, valid: seq<nat>, items: seq<seq<Item>>, ghost t: Table)
    returns (crds: seq<ColumnReader.ColumnReader>)
    requires ShreddedLate(t, valid, items) && t.P == P && t.dts == dts && t.cap == cap
    ensures fresh(crds) && ReadsAll(t, valid, crds) && Waiting(t, valid, crds, 0)
  {
    hide TableFits, ColumnStorable, ReadsColumn, Plan.Valid, Conforming, Encode, Project, Active, FsmTable.TreePaths,
         ColumnReader.ColumnReader.Valid, CalcAlignBegin, ColumnOf, Poised, RowFits;
    crds := [];
    while |crds| < |P.paths|
      invariant |crds| <= |t.P.paths| && fresh(crds)
      invariant forall i, j :: 0 <= i < j < |crds| ==> crds[i] != crds[j]
      invariant forall c :: 0 <= c < |crds| ==> Opened(t, valid, crds[c], c)
    {
      var c := |crds|;
      AlignedBegin(valid[c], cap);
      assert ColumnFrom(t, c, valid[c], items[c]);
      var rd := OpenColumn(Meta(P.rept, P.paths[c], dts[c]), cap, valid[c], items[c], t, c);
      crds := crds + [rd];
    }
    assert forall c :: 0 <= c < |crds| ==> Opened(t, valid, crds[c], c);
  }

  /** The column's reader is at the front of its file. */
  ghost predicate Opened(t: Table, valid: seq<nat>, rd: ColumnReader.ColumnReader, c: nat)
    requires c < |t.P.paths| == |t.dts| == |valid|
    reads rd
  {
    ReadsColumn(rd, t.Meta(c), t.cap, t.vs) && rd.start <= valid[c] && Unused(rd)
  }
}
