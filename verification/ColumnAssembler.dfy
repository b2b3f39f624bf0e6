// ColumnAssembler: rows are assembled a batch at a time into a buffer, and handed out one by one.

module ColumnAssembler {
  import opened Wrappers
  import opened Bytes
  import opened Paths
  import opened RowCodec
  import opened Records
  import opened RoundTrip
  import opened Assembler
  import opened Pipeline
  import ColumnReader
  import FsmTable
  import RecordBuilder

  lemma {:induction false} ConcatFront(rows: seq<Bytes>)
    requires rows != []
    ensures Concat(rows) == rows[0] + Concat(rows[1..])
  {
    if |rows| == 1 {
      assert rows[..0] == [] && rows[1..] == [];
    } else {
      var front := rows[..|rows| - 1];
      ConcatFront(front);
      assert rows[1..][..|rows| - 2] == front[1..];
      assert rows[0] + (Concat(front[1..]) + rows[|rows| - 1]) == rows[0] + Concat(front[1..]) + rows[|rows| - 1];
    }
  }

  /** An assembled row begins with its own length. */
  lemma RowLength(P: Plan, v: Value)
    requires v.Obj? && |Encode(Project(P, v))| < 0x1_0000_0000
    ensures var row := Encode(Project(P, v)); |row| >= 4 && Load(row[..4]) == |row|
  {
    var fs := EncodeFields(ProjectMembers(P, v, 0, 0, |P.paths|));
    hide ProjectMembers, EncodeFields;
    assert Encode(Project(P, v)) == EncodeObject(fs);
    StructSize(Ids(fs), Blobs(fs));
  }

  /** From position `next` on, the buffer holds rows [from, to) of the table. */
  ghost predicate Held(buf: Bytes, next: nat, rows: seq<Bytes>, from: nat, to: nat) {
    from <= to <= |rows| && next <= |buf| && buf[next..] == Concat(rows[from..to])
  }

  lemma HeldMore(buf: Bytes, next: nat, rows: seq<Bytes>, from: nat, to: nat)
    requires Held(buf, next, rows, from, to) && to < |rows|
    ensures Held(buf + rows[to], next, rows, from, to + 1)
  {
    assert rows[from..to + 1][..to - from] == rows[from..to];
    assert (buf + rows[to])[next..] == buf[next..] + rows[to];
  }

  /** The first row that is held, and what is held behind it. */
  lemma HeldNext(buf: Bytes, next: nat, rows: seq<Bytes>, from: nat, to: nat)
    requires Held(buf, next, rows, from, to) && from < to
    ensures next + |rows[from]| <= |buf| && buf[next..next + |rows[from]|] == rows[from]
    ensures Held(buf, next + |rows[from]|, rows, from + 1, to)
  {
    var row := rows[from];
    ConcatFront(rows[from..to]);
    assert rows[from..to][1..] == rows[from + 1..to];
    hide Concat;
    assert buf[next..][..|row|] == row && buf[next..][|row|..] == Concat(rows[from + 1..to]);
    assert buf[next..][..|row|] == buf[next..next + |row|];
    assert buf[next..][|row|..] == buf[next + |row|..];
  }

  lemma NothingHeld(rows: seq<Bytes>, i: nat)
    requires i <= |rows|
    ensures Held([], 0, rows, i, i)
  {
    assert rows[i..i] == [];
  }

  /** Rows of the table, none longer than the configured maximum. */
  ghost predicate ShortRows(t: Table, maxLen: nat) {
    t.Valid() && forall r :: 0 <= r < |t.vs| ==> t.vs[r].Obj? && |Encode(Project(t.P, t.vs[r]))| <= maxLen
  }

  ghost function TableRows(t: Table): (rows: seq<Bytes>)
    ensures |rows| == |t.vs|
  {
    seq(|t.vs|, r requires 0 <= r < |t.vs| => if t.vs[r].Obj? then Encode(Project(t.P, t.vs[r])) else [])
  }

  lemma RowAt(t: Table, maxLen: nat, r: nat)
    requires ShortRows(t, maxLen) && r < |t.vs|
    ensures t.vs[r].Obj? && TableRows(t)[r] == Encode(Project(t.P, t.vs[r]))
    ensures 4 <= |TableRows(t)[r]| <= maxLen && Load(TableRows(t)[r][..4]) == |TableRows(t)[r]|
  {
    hide Plan.Valid, Encode, Project, Load, Conforming;
    assert t.vs[r] in t.vs;
    RowLength(t.P, t.vs[r]);
  }

  class ColumnAssembler {
    const asm: RecordNestedAssembler    // m_assemble, which shares the buffer
    const recdCap: nat                  // m_recd_cap: rows of a batch
    const maxLen: nat                   // m_recd_max_len
    var cap: nat                        // capacity of m_buf
    var dblBuf: bool                    // m_dbl_buf
    var bufRnum: nat                    // m_buf_rnum
    var nextRbgn: nat                   // m_next_rbgn
    var curRecd: nat                    // m_cur_recd_idx
    var totalRnum: nat                  // m_total_rnum
    ghost const t: Table

    ghost predicate Working()
      reads asm, asm.build, asm.fsm, asm.fsm.table, asm.crds, this`curRecd
    {
      && recdCap > 0 && ShortRows(t, maxLen)
      && asm.Valid() && asm.plan == t.P && t.Reading(asm.crds)
      && AllAskable(t, asm.crds, curRecd) && curRecd <= |t.vs|
    }

    /** The rows that were buffered and not handed out lie in the buffer, which is not overfull. */
    ghost predicate Valid()
      reads this, asm, asm.build, asm.fsm, asm.fsm.table, asm.crds
    {
      && Working()
      && bufRnum <= curRecd == totalRnum && |asm.build.buf| <= cap
      && Held(asm.build.buf, nextRbgn, TableRows(t), curRecd - bufRnum, curRecd)
    }

    /** How many rows have been handed out. */
    ghost function Given(): int
      reads this
    {
      curRecd - bufRnum
    }

    /** Capacity of the buffer when it is filled the next time. */
    ghost function Room(): nat
      reads this
    {
      if dblBuf then 2 * cap else cap
    }

    constructor (asm: RecordNestedAssembler, recdCap: nat, maxLen: nat, cap: nat, ghost t: Table)
      requires recdCap > 0 && ShortRows(t, maxLen)
      requires asm.Valid() && asm.plan == t.P && t.Reading(asm.crds) && AllPoised(asm.crds, 0) && asm.build.buf == []
      ensures Valid() && bufRnum == Given() == 0 && this.asm == asm && this.t == t && this.maxLen == maxLen &&
          Room() == cap
    {
      hide RecordNestedAssembler.Valid, Table.Reading, AllPoised, AllAskable, Held, ShortRows, Concat, Encode, Project;
      this.asm, this.recdCap, this.maxLen, this.cap, this.t := asm, recdCap, maxLen, cap, t;
      dblBuf, bufRnum, nextRbgn, curRecd, totalRnum := false, 0, 0, 0, 0;
      new;
      PoisedAskable(t, asm.crds, 0);
      NothingHeld(TableRows(t), 0);
    }

    /** `bufferMore`: as many rows as the batch, the space and the table allow. */
    method BufferMore() returns (rnum: nat)
      requires Working() && bufRnum == 0 && nextRbgn == 0 && asm.build.buf == []
      modifies this, asm.build, asm.crds
      ensures Working() && bufRnum == 0 && nextRbgn == 0 && totalRnum == old(totalRnum)
      ensures curRecd == old(curRecd) + rnum && |asm.build.buf| <= cap
      ensures Held(asm.build.buf, 0, TableRows(t), old(curRecd), curRecd)
      ensures rnum == 0 <==> old(curRecd) == |t.vs| || old(Room()) < maxLen
    {
      hide Held, RecordNestedAssembler.Valid, Table.Reading, AllAskable, ShortRows, Concat;
      if dblBuf {
        dblBuf := false;
        cap := cap * 2;
      }
      rnum := 0;
      NothingHeld(TableRows(t), curRecd);
      while rnum < recdCap
        invariant Working() && bufRnum == 0 && nextRbgn == 0 && totalRnum == old(totalRnum) && cap == old(Room())
        invariant curRecd == old(curRecd) + rnum && |asm.build.buf| <= cap
        invariant rnum == 0 ==> asm.build.buf == []
        invariant rnum > 0 ==> old(curRecd) < |t.vs| && old(Room()) >= maxLen
        invariant Held(asm.build.buf, 0, TableRows(t), old(curRecd), curRecd)
      {
        dblBuf := cap - |asm.build.buf| < maxLen;
        if dblBuf { break; }
        var got := BufferOne(old(curRecd));
        if !got { break; }
        rnum := rnum + 1;
      }
    }

    /** One more row of a batch that began with row `from`. */
    method BufferOne(ghost from: nat) returns (got: bool)
      requires Working() && Held(asm.build.buf, 0, TableRows(t), from, curRecd)
      modifies this`curRecd, asm.build, asm.crds
      ensures Working() && got == (old(curRecd) < |t.vs|) && curRecd == old(curRecd) + if got then 1 else 0
      ensures Held(asm.build.buf, 0, TableRows(t), from, curRecd)
      ensures !got ==> asm.build.buf == old(asm.build.buf)
      ensures got ==> |asm.build.buf| <= |old(asm.build.buf)| + maxLen
    {
      hide Held, RecordNestedAssembler.Valid, Table.Reading, AllAskable, ShortRows, Concat, Encode, Project,
           Table.Valid;
      ShortTable(t, maxLen);
      ghost var before := asm.build.buf;
      got := AssembleRecord(asm, curRecd, t);
      if got {
        RowAt(t, maxLen, curRecd);
        HeldMore(before, 0, TableRows(t), from, curRecd);
        curRecd := curRecd + 1;
      }
    }

    /** `getNext`: the rows of the table in order, one a call, each at the begin that is returned; 0 when all
        have been handed out, and also when the buffer is smaller than the longest row may be. */
    method GetNext() returns (got: int, rbgn: nat)
      requires Valid()
      modifies this, asm.build, asm.crds
      ensures Valid() && (got == 0 || got == 1) && Given() == old(Given()) + got
      ensures got == 0 <==> old(bufRnum) == 0 && (old(Given()) == |t.vs| || old(Room()) < maxLen)
      ensures got == 1 ==>
                var row := TableRows(t)[old(Given())];
                rbgn + |row| <= |asm.build.buf| && asm.build.buf[rbgn..rbgn + |row|] == row
    {
      hide Held, RecordNestedAssembler.Valid, Table.Reading, AllAskable, ShortRows, Concat, Load, Encode, Project;
      rbgn := 0;
      if bufRnum == 0 {
        Clear();
        got := BufferMore();
        if got <= 0 {
          NothingHeld(TableRows(t), curRecd);
          return;
        }
        bufRnum := got;
        totalRnum := totalRnum + got;
      }
      RowAt(t, maxLen, Given());
      HeldNext(asm.build.buf, nextRbgn, TableRows(t), Given(), curRecd);
      ghost var row := TableRows(t)[Given()];
      bufRnum := bufRnum - 1;
      rbgn := nextRbgn;
      assert asm.build.buf[rbgn..rbgn + HEAD] == asm.build.buf[rbgn..rbgn + |row|][..HEAD];
      nextRbgn := nextRbgn + Load(asm.build.buf[rbgn..rbgn + HEAD]);
      got := 1;
    }

    /** The buffer is emptied for the next batch. */
    method Clear()
      requires Working()
      modifies this`nextRbgn, asm.build`buf
      ensures Working() && nextRbgn == 0 && asm.build.buf == []
    {
      hide Table.Reading, AllAskable, ShortRows, FsmTable.FSMTable.Valid, Plan.Valid, Attached;
      asm.build.buf := [];
      nextRbgn := 0;
    }
  }

  lemma ShortTable(t: Table, maxLen: nat)
    requires ShortRows(t, maxLen)
    ensures t.Valid() && |t.vs| < ColumnReader.TWO_63
  {
    hide Plan.Valid, Encode, Project, Conforming;
  }
}
