// Inputs for which the code does less than it intends.  The exact conditions are beside the functions
// they are about; each lemma or method here is one input that fails its condition.

module SilentBlocks {
  import opened Wrappers
  import opened Records
  import opened CabFormat
  import opened CabImage
  import opened CabWriter
  import opened CabReader

  const TAGS: Meta := Meta({}, [1], Text)

  /** Items of n records in which the column's leaf is absent. */
  function Absent(n: nat): (its: seq<Item>)
    ensures |its| == n
  {
    seq(n, _ => Item(0, 0, None))
  }

  lemma {:induction false} AbsentZeroes(n: nat)
    ensures Zeroes(Absent(n)) == n
  {
    if n > 0 {
      AbsentZeroes(n - 1);
      assert Absent(n)[..n - 1] == Absent(n - 1);
    }
  }

  lemma {:induction false} OneBlock(cap: nat, n: nat)
    requires n <= cap
    ensures BlocksOf(cap, Absent(n)) == [Absent(n)]
  {
    if n > 0 {
      OneBlock(cap, n - 1);
      AbsentZeroes(n - 1);
      assert Absent(n)[..n - 1] == Absent(n - 1) && Absent(n - 1) + [Item(0, 0, None)] == Absent(n);
      hide Zeroes;
    }
  }

  lemma TwoBlocks(cap: nat)
    ensures BlocksOf(cap, Absent(cap + 1)) == [Absent(cap), Absent(1)]
  {
    OneBlock(cap, cap);
    AbsentZeroes(cap);
    assert Absent(cap + 1)[..cap] == Absent(cap) && [Item(0, 0, None)] == Absent(1);
    hide Zeroes;
  }

  lemma {:induction false} NoValues(n: nat)
    ensures ValueBytes(Text, Vals(Absent(n))) == []
  {
    if n > 0 {
      NoValues(n - 1);
      assert Vals(Absent(n))[..n - 1] == Vals(Absent(n - 1));
    }
  }

  lemma AbsentWritable(n: nat)
    ensures Writable(Text, Vals(Absent(n)))
  {
    NoValues(n);
    hide ValueBytes;
  }

  lemma AbsentColumn()
    ensures Column(TAGS, 8, Absent(9))
  {
    hide BlocksOf, Writable, Vals;
    TwoBlocks(8);
    AbsentWritable(8);
    AbsentWritable(1);
  }

  lemma FirstSilent()
    ensures |BlocksOf(8, Absent(9))| == 2 && Silent(BlocksOf(8, Absent(9))[0], false)
  {
    TwoBlocks(8);
    hide BlocksOf;
  }

  /** Nine records without the leaf, in blocks of eight: a column that can be written, and is not read back. */
  lemma NineAbsent()
    ensures Column(TAGS, 8, Absent(9)) && !Audible(8, Absent(9))
    ensures FileItems(TAGS, FileOf(TAGS, 8, 0, Absent(9))) != Absent(9)
  {
    hide BlocksOf, FileOf, FileItems, WritableBlocks, AllFit, Silent, Absent;
    AbsentColumn();
    FirstSilent();
    FileBack(TAGS, 8, 0, Absent(9));
  }

  /** The search for their first record does not end, from whatever block it starts. */
  lemma FirstTrapped(idx: int, turns: nat)
    requires 0 <= idx < |FileOf(TAGS, 8, 0, Absent(9))|
    ensures Trapped(8, 0, FileOf(TAGS, 8, 0, Absent(9)), 0)
    ensures !Halts(FileOf(TAGS, 8, 0, Absent(9)), idx, 0, turns)
  {
    hide BlocksOf, FileOf, Halts, Directory, Column, Silent, Absent;
    AbsentColumn();
    FirstSilent();
    FileDirectory(TAGS, 8, 0, Absent(9));
    var file := FileOf(TAGS, 8, 0, Absent(9));
    SearchHaltsIff(TAGS, 8, 0, file, idx, 0);
  }
}

module LongArrays {
  import opened Wrappers
  import opened JsonText
  import opened JsonPrint

  /** n elements 1, without white space. */
  function Elems(n: nat): (es: seq<Part>)
    ensures |es| == n
  {
    seq(n, _ => Part("", "", "", Tok("1"), "", ""))
  }

  lemma {:induction false} ElemsProper(n: nat)
    ensures AllProper(Elems(n), false)
  {
    if n > 0 {
      ElemsProper(n - 1);
      assert Elems(n)[1..] == Elems(n - 1);
      assert NumberToken("1");
    }
  }

  /** One member with an array of that many elements. */
  function Members(n: nat): seq<Part> {
    [Part("\"a\"", "", "", Array("", Elems(n)), "", "")]
  }

  lemma MembersProper(n: nat)
    ensures Proper(Object("", Members(n)))
  {
    ElemsProper(n);
    hide Elems;
    var p := Members(n)[0];
    assert Proper(p.val);
    assert "\"a\""[1..] == "a\"" && "a\""[1..] == "\"";
    assert StringToken(p.name);
    assert PartProper(p, true) && AllProper([], true);
    assert Members(n)[1..] == [];
  }

  /** A record that is written with an array of 4096 elements is refused. */
  lemma LongRefused()
    ensures Proper(Object("", Members(4096)))
    ensures ReadObject(Text(Object("", Members(4096))), 0) == None
  {
    hide Text, ReadObject, Elems;
    var s := Object("", Members(4096));
    MembersProper(4096);
    assert !Small(Members(4096)[0].val);
    RecordPrinted(Text(s), 0, "", Members(4096));
  }
}

module LostSeeks {
  import opened Records
  import opened CabFormat
  import opened CabImage
  import opened CabWriter
  import opened CabReader
  import opened ColumnReader
  import opened SilentBlocks

  /** The file of one record without the leaf. */
  function OneRecord(): (file: seq<Block>) { FileOf(TAGS, 8, 0, Absent(1)) }

  lemma OneRecordFile()
    ensures Directory(TAGS, 8, 0, OneRecord()) && |OneRecord()| == 1
    ensures OneRecord()[0].info.bgnRecd == 0 && OneRecord()[0].info.recdNum == 1
  {
    hide BlocksOf, Writable, FileOf, Directory, Absent, Published, Counted, BlockItems;
    OneBlock(8, 1);
    AbsentWritable(1);
    AbsentFits(1);
    FileDirectory(TAGS, 8, 0, Absent(1));
    FileBlock(TAGS, 8, 0, Absent(1), 0);
    BlockBack(TAGS, 0, Absent(1), true);
    CountedFacts(TAGS, 0, Absent(1));
    AbsentZeroes(1);
  }

  lemma AbsentFits(n: nat)
    ensures AllFit(TAGS, Absent(n)) && (n > 0 ==> Absent(n)[0].rep == 0)
  {
  }

  /** A new reader finds record 0.  Another one is asked for record 1, which is not there, and then does not
      find record 0 either. */
  method SeekBack() returns (fresh0: bool, past: bool, back: bool)
    ensures fresh0 && !past && !back
  {
    hide FileOf, Directory, BlockItems, OneRecord, Trapped, Boundary;
    OneRecordFile();
    NotTrapped(0);
    NotTrapped(1);
    var file := OneRecord();
    var first := new ColumnReader(TAGS, file, 8, 0);
    assert Counts(file, 0, 0);
    fresh0 := first.Prepare2ReadRecord(0);
    var second := new ColumnReader(TAGS, file, 8, 0);
    past := second.Prepare2ReadRecord(1);
    back := second.Prepare2ReadRecord(0);
  }

  lemma NotTrapped(r: nat)
    ensures !Trapped(8, 0, OneRecord(), r)
  {
    OneRecordFile();
    hide OneRecord, Directory;
  }
}

module SmallBuffers {
  import opened Wrappers
  import opened Bytes
  import opened Paths
  import opened RowCodec
  import opened Records
  import opened CabFormat
  import opened CabImage
  import opened CabWriter
  import opened CabReader
  import opened Assembler
  import opened Pipeline
  import opened SilentBlocks
  import ColumnAssembler
  import ColumnReader
  import FsmTable

  /** A table of one column and one empty record. */
  function OneRow(): Table { Table(Plan([[1]], {}), [Text], 8, [Obj([])]) }

  lemma RowBytes()
    ensures |Encode(Project(OneRow().P, Obj([])))| == 8
  {
    var P := OneRow().P;
    assert ProjectMembers(P, Obj([]), 0, 1, 1) == [];
    assert Project(P, Obj([])) == Object([]);
    hide ProjectMembers, Project;
    assert Encode(Object([])) == EncodeObject([]);
    EmptyStruct();
  }

  lemma EmptyStruct()
    ensures |EncodeObject([])| == 8
  {
  }

  lemma RowStorable()
    ensures Storable(OneRow())
  {
    RowBytes();
    RowColumn();
    OneBlock(8, 1);
    AbsentWritable(1);
    hide BlocksOf, Encode, Project, Conforming, ColumnOf, Writable;
  }

  lemma RowColumn()
    ensures ColumnOf([1], [Obj([])]) == Absent(1) && Conforming(TAGS, [Obj([])])
  {
  }

  /** The row has 8 bytes, and so has the buffer; but the longest row is configured to 16 bytes, and the table
      seems to be at its end before a row was given. */
  method FirstRowMissed() returns (got: int)
    ensures got == 0 && ColumnAssembler.ShortRows(OneRow(), 8)
  {
    hide Storable, Encode, Project, Shredded, FsmTable.FSMTable.Valid, Plan.Valid, Attached, FsmTable.TreePaths,
         AllPoised, Table.Reading, RecordNestedAssembler.Valid, ColumnAssembler.ShortRows;
    var t := OneRow();
    RowStorable();
    RowShredded();
    RowShort(8);
    RowShort(16);
    StorableTable(t);
    PathsFit(t);
    var crds, depth := OpenColumns(t.P, t.dts, t.cap, [Absent(1)], t);
    var asm := new RecordNestedAssembler({}, depth);
    ReadersApart(t, crds);
    PoisedAttached(crds);
    asm.Reinit(t.P, crds);
    var rows := new ColumnAssembler.ColumnAssembler(asm, 100, 16, 8, t);
    var rbgn;
    got, rbgn := rows.GetNext();
  }

  lemma ReadersApart(t: Table, crds: seq<ColumnReader.ColumnReader>)
    requires t.Reading(crds)
    ensures |crds| == |t.P.paths| && forall i, j :: 0 <= i < j < |crds| ==> crds[i] != crds[j]
  {
  }

  lemma RowShredded()
    ensures Shredded(OneRow(), [Absent(1)])
  {
    RowColumn();
  }

  lemma RowShort(n: nat)
    requires n >= 8
    ensures ColumnAssembler.ShortRows(OneRow(), n)
  {
    RowStorable();
    RowBytes();
    hide Encode, Project, Table.Valid;
    StorableTable(OneRow());
  }
}
