// RecordNestedAssembler: rebuilds one record after the other from the readers of its columns.

module Assembler {
  import opened Wrappers
  import opened Bytes
  import opened Paths
  import opened RowCodec
  import opened Records
  import opened BuildSpec
  import opened Machine
  import opened RoundTrip
  import FsmTable
  import ColumnReader
  import RecordBuilder

  // ---- The readers of the current columns ----

  ghost predicate Attached(crds: seq<ColumnReader.ColumnReader>)
    reads crds
  {
    && (forall i, j :: 0 <= i < j < |crds| ==> crds[i] != crds[j])
    && forall i :: 0 <= i < |crds| ==> crds[i].Valid()
  }

  /** All readers have a block loaded. */
  ghost predicate Readers(crds: seq<ColumnReader.ColumnReader>)
    reads crds
  {
    Attached(crds) && forall i :: 0 <= i < |crds| ==> crds[i].cur.Some?
  }

  /** What is still to be read of every column. */
  ghost function Rests(crds: seq<ColumnReader.ColumnReader>): (rs: seq<seq<Item>>)
    reads crds
    ensures |rs| == |crds|
  {
    seq(|crds|, i requires 0 <= i < |crds| reads crds => crds[i].Rest())
  }

  /** Where the readers stand in their directories. */
  ghost function Blocks(crds: seq<ColumnReader.ColumnReader>): seq<(Option<nat>, int)>
    reads crds
  {
    seq(|crds|, i requires 0 <= i < |crds| reads crds => (crds[i].cur, crds[i].cabIdx))
  }

  /** Repetition levels stay within the columns' paths. */
  ghost predicate RepsFit(P: Plan, rests: seq<seq<Item>>) {
    && |rests| == |P.paths|
    && forall c, k :: 0 <= c < |rests| && 0 <= k < |rests[c]| ==> rests[c][k].rep <= |P.paths[c]|
  }

  lemma FitsOn(P: Plan, rests: seq<seq<Item>>, c: nat)
    requires RepsFit(P, rests) && c < |rests| && rests[c] != []
    ensures RepsFit(P, rests[c := rests[c][1..]])
    ensures HeadRep(rests[c][1..]) <= |P.paths[c]|
  {
    var next: seq<seq<Item>> := rests[c := rests[c][1..]];
    forall d: nat, k: nat | 0 <= d < |next| && 0 <= k < |next[d]|
      ensures next[d][k].rep <= |P.paths[d]|
    {
      if d == c { assert next[d][k] == rests[c][k + 1]; }
    }
    if |rests[c]| > 1 { assert rests[c][1..][0] == rests[c][1]; }
  }

  /** Reads from one column: the others stay where they are. */
  method ReadFrom(crds: seq<ColumnReader.ColumnReader>, c: nat, stale: nat) returns (got: bool, it: Item, next: nat)
    requires Readers(crds) && c < |crds|
    modifies crds[c]
    ensures got == (old(Rests(crds))[c] != [])
    ensures got ==> Readers(crds) && it == old(Rests(crds))[c][0] && next == HeadRep(old(Rests(crds))[c][1..])
    ensures got ==> Rests(crds) == old(Rests(crds))[c := old(Rests(crds))[c][1..]]
    ensures Blocks(crds) == old(Blocks(crds))
  {
    hide ColumnReader.ColumnReader.Valid, ColumnReader.ColumnReader.Rest;
    got, it, next := crds[c].ReadItem(stale);
  }

  // ---- The assembler ----

  class RecordNestedAssembler {
    const build: RecordBuilder.RecordBuilder   // m_build
    const fsm: FsmTable.FSMTable               // m_fsm
    var plan: Plan                             // m_path, with the repeated nodes of m_tree
    var crds: seq<ColumnReader.ColumnReader>                      // m_crds

    /** `init`: no column is valid yet. */
    constructor (rept: set<Sign>, maxDepth: nat)
      requires maxDepth > 0
      ensures Valid() && plan == Plan([], rept) && crds == []
      ensures fresh(build) && fresh(fsm) && |build.objs| == maxDepth && build.buf == []
    {
      build := new RecordBuilder.RecordBuilder(rept, maxDepth);
      fsm := new FsmTable.FSMTable();
      plan, crds := Plan([], rept), [];
    }

    /** `reinit`: other columns are valid from now on. */
    method Reinit(P: Plan, readers: seq<ColumnReader.ColumnReader>)
      requires Valid() && P.Valid() && P.rept == build.rept && P.paths != [] && FsmTable.TreePaths(P.paths)
      requires forall c :: 0 <= c < |P.paths| ==> 0 < |P.paths[c]| <= |build.objs| && |P.paths[c]| < FsmTable.UINT_MAX
      requires |readers| == |P.paths| && Attached(readers)
      modifies this`plan, this`crds, fsm
      ensures Valid() && plan == P && crds == readers
    {
      hide FsmTable.FSMTable.Valid, Plan.Valid, Attached, FsmTable.TreePaths;
      plan, crds := P, readers;
      fsm.Init(P);
    }

    /** Between two records. */
    ghost predicate Valid()
      reads this, build, fsm, fsm.table, crds
    {
      && build.Idle() && build.objs != [] && build.rept == plan.rept
      && plan.Valid() && |crds| == |plan.paths| && Attached(crds)
      && (plan.paths != [] ==> fsm.Valid() && fsm.plan == plan)
      && forall c :: 0 <= c < |plan.paths| ==> |plan.paths[c]| <= |build.objs|
    }

    /** `getCommonLevel`. */
    method GetCommonLevel(cur: nat, nxt: nat, nrep: nat) returns (lvl: nat)
      requires plan.paths != [] && fsm.Valid() && fsm.plan == plan
      requires cur < |plan.paths| && nxt < |plan.paths|
      ensures lvl == CommonLevel(plan, cur, nxt, nrep)
    {
      hide FsmTable.FSMTable.Valid, Plan.Common, Plan.Same;
      if cur == nxt { return nrep; }
      TableLevels();
      if nxt <= cur {
        lvl := fsm.GetCommonReptLevel(cur, nxt);
        lvl := if nrep < lvl then nrep else lvl;
      } else {
        lvl := fsm.GetLowestSameLevel(nxt, cur);
      }
    }

    lemma TableLevels()
      requires fsm.Valid()
      ensures fsm.Levels()
    {
    }

    /** What stays the same while a record is rebuilt. */
    ghost predicate Columns()
      reads this, fsm, fsm.table, build`objs
    {
      && plan.paths != [] && fsm.Valid() && fsm.plan == plan && build.rept == plan.rept
      && |crds| == |plan.paths|
      && forall c :: 0 <= c < |plan.paths| ==> |plan.paths[c]| <= |build.objs|
    }

    /** A record is being rebuilt. */
    ghost predicate Running()
      reads this, build, fsm, fsm.table, crds
    {
      Columns() && build.Valid() && Readers(crds) && RepsFit(plan, Rests(crds))
    }

    /** The state of the machine in front of reading column c. */
    ghost function Reading(c: nat, front: bool): Result
      requires c < |plan.paths| == |crds|
      reads this, build, crds
    {
      Read(plan, c, front, Rests(crds), build.st)
    }

    /** The state of the machine behind that. */
    ghost function Jumping(c: nat): Result
      requires c < |plan.paths| == |crds|
      reads this, build, crds
    {
      Jump(plan, c, Rests(crds), build.st)
    }

    /** The first half of a turn: reads an item and builds what it says. */
    method TakeItem(c: nat, front: bool, stale: nat) returns (got: bool, nrep: nat)
      requires Running() && c < |plan.paths| && Reading(c, front) != Abort
      modifies build, crds
      ensures !got ==> old(Reading(c, front)) == Eof
      ensures |build.objs| == old(|build.objs|) && Blocks(crds) == old(Blocks(crds))
      ensures got ==> Running() && build.base == old(build.base)
      ensures got ==> old(Reading(c, front)) == Jumping(c) && Remaining(Rests(crds)) < old(Remaining(Rests(crds)))
      ensures got ==> nrep == HeadRep(Rests(crds)[c]) <= |plan.paths[c]|
    {
      hide Read, Jump, Take, Move, LeafValue, RecordBuilder.RecordBuilder.Valid, ColumnReader.ColumnReader.Valid,
           ColumnReader.ColumnReader.Rest, FsmTable.FSMTable.Valid, RepsFit, Remaining, HeadRep, Rests, Readers;
      ghost var rest, b := Rests(crds), build.st;
      ReadUnfolded(plan, c, front, rest, b);
      var it;
      got, it, nrep := ReadFrom(crds, c, stale);
      if got {
        RemainingPop(rest, c);
        FitsOn(plan, rest, c);
        TakeUnfolded(plan, c, front, rest[c][0], b);
        build.Move2Level(it.def, plan.paths[c], front);
        if it.def == |plan.paths[c]| {
          build.AppendLeaf(it.val.value);
        }
      }
    }

    /** The second half of a turn: on to the next column, or the end of the record. */
    method MoveOn(c: nat, nrep: nat) returns (done: bool, nidx: nat, mv2frt: bool)
      requires Running() && c < |plan.paths| && Jumping(c) != Abort
      requires nrep == HeadRep(Rests(crds)[c]) <= |plan.paths[c]|
      requires Jumping(c).Done? ==> |Jumping(c).row| < 0x1_0000_0000
      modifies build
      ensures |build.objs| == old(|build.objs|)
      ensures done ==> Ended(old(build.base), old(Jumping(c))) && Rests(crds) == old(Jumping(c)).rest
      ensures !done ==> Running() && build.base == old(build.base) && nidx < |plan.paths|
      ensures !done ==> old(Jumping(c)) == Reading(nidx, mv2frt)
    {
      hide Jump, Read, Return, EndOf, Finish, RecordBuilder.RecordBuilder.Valid, RecordBuilder.RecordBuilder.Idle,
           ColumnReader.ColumnReader.Valid, ColumnReader.ColumnReader.Rest, RepsFit, Remaining, HeadRep, Rests, Readers,
           CommonLevel, Plan.Next, FsmTable.FSMTable.Valid;
      JumpUnfolded(plan, c, Rests(crds), build.st);
      var p := plan.paths[c];
      var next := fsm.Get(c, nrep);
      if next < 0 || next >= |crds| {
        EndUnfolded(plan, build.st, p);
        build.Return2Level(0, p, false);
        SizeWord(build.base, build.st);
        var size := build.End2Build();
        done, nidx, mv2frt := true, 0, false;
      } else {
        var tgt := GetCommonLevel(c, next, nrep);
        done, nidx, mv2frt := false, next, next <= c;
        build.Return2Level(tgt, p, mv2frt);
      }
    }

    /** The record is in the buffer, behind what was there before, with its size in its first word. */
    ghost predicate Ended(before: Bytes, res: Result)
      reads build
    {
      && build.Idle() && res.Done? && build.buf == before + res.row
      && |res.row| >= 4 && Load(build.buf[|before|..|before| + 4]) == |res.row|
    }

    /** What `assemble` promises for a state of the columns. */
    ghost predicate Ready()
      reads this, build, fsm, fsm.table, crds
    {
      && Valid() && Readers(crds) && RepsFit(plan, Rests(crds))
      && Outcome() != Abort && (Outcome().Done? ==> |Outcome().row| < 0x1_0000_0000)
    }

    ghost function Outcome(): Result
      requires |crds| == |plan.paths|
      reads this, crds
    {
      Machine.Assemble(plan, Rests(crds))
    }

    /** The loop of `assemble`. */
    method Turns() returns (eof: bool)
      requires Running() && Reading(0, false) != Abort
      requires Reading(0, false).Done? ==> |Reading(0, false).row| < 0x1_0000_0000
      modifies build, crds
      ensures |build.objs| == old(|build.objs|) && Blocks(crds) == old(Blocks(crds))
      ensures eof ==> old(Reading(0, false)) == Eof
      ensures !eof ==> Ended(old(build.base), old(Reading(0, false)))
      ensures !eof ==> Readers(crds) && Rests(crds) == old(Reading(0, false)).rest
    {
      hide Read, Jump, RecordBuilder.RecordBuilder.Valid, RecordBuilder.RecordBuilder.Idle,
           ColumnReader.ColumnReader.Valid, ColumnReader.ColumnReader.Rest, RepsFit, Remaining, HeadRep, Rests, Readers,
           FsmTable.FSMTable.Valid, Load;
      ghost var res := Reading(0, false);
      var cidx: nat, mv2frt, stale: nat := 0, false, 0;
      while true
        invariant cidx < |plan.paths| && Running()
        invariant build.base == old(build.base) && |build.objs| == old(|build.objs|)
        invariant Blocks(crds) == old(Blocks(crds))
        invariant Reading(cidx, mv2frt) == res
        decreases Remaining(Rests(crds))
      {
        var got, nrep := TakeItem(cidx, mv2frt, stale);
        if !got { return true; }
        var done;
        done, cidx, mv2frt := MoveOn(cidx, nrep);
        if done { return false; }
        stale := nrep;
      }
    }

    /** `assemble`: 1 when a record was rebuilt, 0 when a column ran out of items; the comparison of the
        bytes used with the record's size never fails.  The buffer grows by exactly the record's bytes. */
    method Assemble() returns (s: int)
      requires Ready()
      modifies build, crds
      ensures s == (if old(Outcome()).Done? then 1 else 0) && Blocks(crds) == old(Blocks(crds))
      ensures |build.objs| == old(|build.objs|)
      ensures s == 1 ==> Valid() && Readers(crds) && build.buf == old(build.buf) + old(Outcome()).row
      ensures s == 1 ==> Rests(crds) == old(Outcome()).rest
    {
      hide Read, Jump, Finish, RecordBuilder.RecordBuilder.Valid, ColumnReader.ColumnReader.Valid,
           ColumnReader.ColumnReader.Rest, RepsFit, HeadRep, Rests, FsmTable.FSMTable.Valid, Load, Plan.Valid, Attached;
      var recdBgn := |build.buf|;
      build.Begin2Build();
      if plan.paths == [] {
        SizeWord(build.base, build.st);
        var size := build.End2Build();
      } else {
        var eof := Turns();
        if eof { return 0; }
      }
      var recdUsed := |build.buf| - recdBgn;
      var recdSize := Load(build.buf[recdBgn..recdBgn + 4]);
      if recdUsed != recdSize { return -1; }
      s := 1;
    }
  }

  lemma JumpUnfolded(P: Plan, c: nat, rest: seq<seq<Item>>, b: Build)
    requires c < |P.paths| == |rest|
    ensures var r := HeadRep(rest[c]);
            var n := P.Next(c, r);
            Jump(P, c, rest, b)
            == if n < 0 || n >= |P.paths| then
                 match EndOf(P, b, P.paths[c])
                 case None => Abort
                 case Some(row) => Done(row, rest)
               else if CommonLevel(P, c, n, r) > |P.paths[c]| then Abort
               else
                 match Return(P.rept, b, CommonLevel(P, c, n, r), P.paths[c], n <= c)
                 case None => Abort
                 case Some(b1) => Read(P, n, n <= c, rest, b1)
  {
    hide EndOf, Return, Read, HeadRep, CommonLevel;
  }

  lemma EndUnfolded(P: Plan, b: Build, p: Path)
    requires EndOf(P, b, p).Some?
    ensures Return(P.rept, b, 0, p, false).Some?
    ensures Finish(Return(P.rept, b, 0, p, false).value) == EndOf(P, b, p)
  {
    hide Return, Finish;
  }

  /** A finished record is a struct, and the first word of a struct is its size. */
  lemma SizeWord(before: Bytes, b: Build)
    requires Finish(b).Some? && |Finish(b).value| < 0x1_0000_0000
    ensures var row := Finish(b).value;
            |row| >= 4 && Load((before + row)[|before|..|before| + 4]) == |row|
  {
    hide PackArr, Trailer, Concat, Offsets, Blobs, Ids;
    var row := Finish(b).value;
    var x := PackArr(b).value;
    var fs := AppendFieldVal(x.Top().fields, x.pend).value;
    assert row == EncodeObject(fs);
    StructSize(Ids(fs), Blobs(fs));
    assert (before + row)[|before|..|before| + 4] == row[..4];
  }

  lemma StructSize(ids: seq<nat>, blobs: seq<Bytes>)
    requires |Struct(ids, blobs)| < 0x1_0000_0000
    ensures |Struct(ids, blobs)| >= 4 && Load(Struct(ids, blobs)[..4]) == |Struct(ids, blobs)|
  {
    var n := |Struct(ids, blobs)|;
    hide Trailer, Concat, Offsets, Load, Store;
    assert Struct(ids, blobs)[..4] == Store(n, HEAD);
    assert Power256(0) == 1 && Power256(1) == 256 && Power256(2) == 0x1_0000 && Power256(3) == 0x100_0000;
    LoadStore(n, HEAD);
  }

  lemma ReadUnfolded(P: Plan, c: nat, front: bool, rest: seq<seq<Item>>, b: Build)
    requires c < |P.paths| == |rest|
    ensures rest[c] == [] ==> Read(P, c, front, rest, b) == Eof
    ensures rest[c] != [] ==>
              Read(P, c, front, rest, b)
              == match Take(P, c, front, rest[c][0], b)
                 case None => Abort
                 case Some(b1) => Jump(P, c, rest[c := rest[c][1..]], b1)
  {
    hide Take, Jump;
  }

  lemma TakeUnfolded(P: Plan, c: nat, front: bool, it: Item, b: Build)
    requires c < |P.paths| && Take(P, c, front, it, b).Some?
    ensures b.lv != [] && it.def <= |P.paths[c]|
    ensures Move(P.rept, b, it.def, P.paths[c], front).Some?
    ensures var b1 := Move(P.rept, b, it.def, P.paths[c], front).value;
            if it.def < |P.paths[c]| then Take(P, c, front, it, b) == Some(b1)
            else b1.lv != [] && it.val.Some? && Take(P, c, front, it, b) == LeafValue(b1, it.val.value)
  {
    hide Move, LeafValue;
  }
}
