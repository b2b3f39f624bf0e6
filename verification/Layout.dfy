// How the open structs of a record builder lie in its buffer.

module Layout {
  import opened Wrappers
  import opened Bytes
  import opened RowCodec
  import opened BuildSpec

  /** A RowObjectBuilder; `bgn` is where its size word lies in the buffer. */
  datatype ObjectBuilder = ObjectBuilder(init: bool, bgn: nat, ids: seq<nat>, offs: seq<nat>, vlen: nat)

  /** A RowArrayBuilder. */
  datatype ArrayBuilder = ArrayBuilder(init: bool, bgn: nat, offs: seq<nat>, vlen: nat)

  const ClosedObject := ObjectBuilder(false, 0, [], [], 0)
  const ClosedArray := ArrayBuilder(false, 0, [], 0)

  /** A size word that has been reserved and not yet written. */
  const Reserved: Bytes := [0, 0, 0, 0]

  function Vals(fields: seq<Field>): Bytes { Concat(Blobs(fields)) }

  function LevelBytes(l: Level): Bytes {
    Reserved + Vals(l.fields) + (match l.arr case None => [] case Some(a) => Reserved + Concat(a.elems))
  }

  function Image(lv: seq<Level>): Bytes {
    if lv == [] then [] else Image(lv[..|lv| - 1]) + LevelBytes(lv[|lv| - 1])
  }

  lemma ImageSnoc(lv: seq<Level>, l: Level)
    ensures Image(lv + [l]) == Image(lv) + LevelBytes(l)
    ensures Image([]) == []
  {
    assert (lv + [l])[..|lv|] == lv;
  }

  /** The builders of one level stand for abstract level l, whose object begins at pos. */
  ghost predicate LevelRep(o: ObjectBuilder, a: ArrayBuilder, hole: bool, l: Level, pos: nat) {
    && o.init && o.bgn == pos
    && o.ids == Ids(l.fields) && o.offs == Offsets(Blobs(l.fields)) && o.vlen == |Vals(l.fields)|
    && match l.arr
       case None => a == ClosedArray
       case Some(x) =>
         && a.init && a.bgn == pos + HEAD + |Vals(l.fields)|
         && a.offs == Offsets(x.elems) && a.vlen == |Concat(x.elems)|
         && hole == x.hole
  }

  /** Everything a RecordBuilder stores while it builds. */
  datatype Memory = Memory(buf: Bytes, objs: seq<ObjectBuilder>, arrs: seq<ArrayBuilder>, holes: seq<bool>,
                           next: nat, structLen: nat)

  ghost predicate Represents(m: Memory, base: Bytes, b: Build) {
    && |m.objs| == |m.arrs| == |m.holes|
    && m.next == |b.lv| <= |m.objs|
    && m.structLen == |b.pend|
    && m.buf == base + Image(b.lv) + b.pend
    && (forall i :: 0 <= i < m.next ==>
          LevelRep(m.objs[i], m.arrs[i], m.holes[i], b.lv[i], |base| + |Image(b.lv[..i])|))
    && (forall i :: m.next <= i < |m.objs| ==> m.objs[i] == ClosedObject && m.arrs[i] == ClosedArray)
  }

  /** Byte conservation: the buffer has grown by the reserved heads, the accounted values and the
      pending struct, and by nothing else. */
  function Accounted(m: Memory, k: nat): nat
    requires k <= |m.objs| && k <= |m.arrs|
  {
    if k == 0 then 0
    else Accounted(m, k - 1) + HEAD + m.objs[k - 1].vlen + (if m.arrs[k - 1].init then HEAD + m.arrs[k - 1].vlen else 0)
  }

  lemma LevelLength(o: ObjectBuilder, a: ArrayBuilder, hole: bool, l: Level, pos: nat)
    requires LevelRep(o, a, hole, l, pos)
    ensures |LevelBytes(l)| == HEAD + o.vlen + (if a.init then HEAD + a.vlen else 0)
  {
    hide Concat, Vals;
  }

  lemma {:induction false} ImageAccounted(m: Memory, base: Bytes, b: Build, k: nat)
    requires Represents(m, base, b) && k <= m.next
    ensures |Image(b.lv[..k])| == Accounted(m, k)
  {
    hide Image, LevelRep, LevelBytes;
    if k > 0 {
      ImageAccounted(m, base, b, k - 1);
      var l := b.lv[k - 1];
      assert b.lv[..k] == b.lv[..k - 1] + [l];
      ImageSnoc(b.lv[..k - 1], l);
      LevelLength(m.objs[k - 1], m.arrs[k - 1], m.holes[k - 1], l, |base| + |Image(b.lv[..k - 1])|);
    } else {
      assert b.lv[..0] == [];
      ImageSnoc([], Level([], None));
    }
  }

  lemma BytesConserved(m: Memory, base: Bytes, b: Build)
    requires Represents(m, base, b)
    ensures |m.buf| == |base| + Accounted(m, m.next) + m.structLen
  {
    ImageAccounted(m, base, b, m.next);
    assert b.lv[..m.next] == b.lv;
  }

  // ---- Changing the deepest level ----

  function UpTo(b: Build): seq<Level>
    requires b.lv != []
  {
    b.lv[..|b.lv| - 1]
  }

  function TopPos(base: Bytes, b: Build): nat
    requires b.lv != []
  {
    |base| + |Image(UpTo(b))|
  }

  lemma TopFacts(m: Memory, base: Bytes, b: Build)
    requires Represents(m, base, b) && b.lv != []
    ensures var k := m.next - 1;
            && 0 <= k < |m.objs| && |m.objs| == |m.arrs| == |m.holes|
            && LevelRep(m.objs[k], m.arrs[k], m.holes[k], b.Top(), TopPos(base, b))
    ensures m.buf == base + Image(UpTo(b)) + LevelBytes(b.Top()) + b.pend
    ensures m.structLen == |b.pend|
  {
    hide Image, LevelRep, LevelBytes;
    assert b.lv == UpTo(b) + [b.Top()];
    ImageSnoc(UpTo(b), b.Top());
    assert base + Image(b.lv) == base + Image(UpTo(b)) + LevelBytes(b.Top());
  }

  /** Levels above the deepest are represented as before. */
  ghost predicate UpperRep(m: Memory, base: Bytes, lv: seq<Level>, n: nat) {
    && n <= |m.objs| && |m.objs| == |m.arrs| == |m.holes| && n <= |lv|
    && forall i :: 0 <= i < n ==> LevelRep(m.objs[i], m.arrs[i], m.holes[i], lv[i], |base| + |Image(lv[..i])|)
  }

  lemma UpperKept(m: Memory, m1: Memory, base: Bytes, lv: seq<Level>, lv1: seq<Level>, n: nat)
    requires UpperRep(m, base, lv, n)
    requires |m1.objs| == |m1.arrs| == |m1.holes| >= n && n <= |lv1|
    requires m1.objs[..n] == m.objs[..n] && m1.arrs[..n] == m.arrs[..n] && m1.holes[..n] == m.holes[..n] &&
        lv1[..n] == lv[..n]
    ensures UpperRep(m1, base, lv1, n)
  {
    hide Image, LevelRep;
    forall i | 0 <= i < n
      ensures LevelRep(m1.objs[i], m1.arrs[i], m1.holes[i], lv1[i], |base| + |Image(lv1[..i])|)
    {
      assert lv1[..i] == lv1[..n][..i] == lv[..i];
      assert lv1[i] == lv1[..n][i] == lv[i];
      assert m1.objs[i] == m1.objs[..n][i] && m1.arrs[i] == m1.arrs[..n][i] && m1.holes[i] == m1.holes[..n][i];
    }
  }

  /** A change of the deepest level's builders and of the buffer behind its begin. */
  lemma TopChanged(m: Memory, base: Bytes, b: Build, t: Level, pend: Bytes, o: ObjectBuilder, a: ArrayBuilder,
        hole: bool, buf: Bytes)
    requires Represents(m, base, b) && b.lv != []
    requires LevelRep(o, a, hole, t, TopPos(base, b))
    requires buf == base + Image(UpTo(b)) + LevelBytes(t) + pend
    ensures var k := m.next - 1;
            && 0 <= k < |m.objs| && |m.objs| == |m.arrs| == |m.holes|
            && Represents(Memory(buf, m.objs[k := o], m.arrs[k := a], m.holes[k := hole], m.next, |pend|),
                          base, b.WithTop(t).(pend := pend))
  {
    hide Image, LevelRep, LevelBytes, Concat;
    var k := m.next - 1;
    var b1 := b.WithTop(t).(pend := pend);
    var m1 := Memory(buf, m.objs[k := o], m.arrs[k := a], m.holes[k := hole], m.next, |pend|);
    assert b1.lv[..k] == UpTo(b);
    ImageSnoc(UpTo(b), t);
    assert base + Image(b1.lv) == base + Image(UpTo(b)) + LevelBytes(t);
    UpperKept(m, m1, base, b.lv, b1.lv, k);
  }

  /** The deepest level has been packaged into the pending bytes. */
  lemma TopRemoved(m: Memory, base: Bytes, b: Build, pend: Bytes, buf: Bytes)
    requires Represents(m, base, b) && b.lv != []
    requires buf == base + Image(UpTo(b)) + pend
    ensures var k := m.next - 1;
            && 0 <= k < |m.objs| && |m.objs| == |m.arrs| == |m.holes|
            && Represents(Memory(buf, m.objs[k := ClosedObject], m.arrs[k := ClosedArray], m.holes, k, |pend|),
                          base, Build(UpTo(b), pend))
  {
    hide Image, LevelRep, LevelBytes;
    var k := m.next - 1;
    var m1 := Memory(buf, m.objs[k := ClosedObject], m.arrs[k := ClosedArray], m.holes, k, |pend|);
    UpperKept(m, m1, base, b.lv, UpTo(b), k);
  }

  /** A new object has been opened below the deepest level. */
  lemma LevelOpened(m: Memory, base: Bytes, b: Build)
    requires Represents(m, base, b) && b.pend == [] && m.next < |m.objs|
    ensures |m.objs| == |m.arrs| == |m.holes|
    ensures Represents(m.(buf := m.buf + Reserved, objs := m.objs[m.next := ObjectBuilder(true, |m.buf|, [], [], 0)],
                          next := m.next + 1),
                       base, OpenLevel(b))
  {
    hide Image, LevelRep, LevelBytes;
    var k := m.next;
    OpenedRep(|m.buf|, m.holes[k]);
    var o := ObjectBuilder(true, |m.buf|, [], [], 0);
    var b1 := OpenLevel(b);
    var m1 := m.(buf := m.buf + Reserved, objs := m.objs[k := o], next := k + 1);
    ImageSnoc(b.lv, Level([], None));
    assert m.buf == base + Image(b.lv);
    assert base + Image(b.lv) + Reserved == base + Image(b1.lv);
    assert b1.lv[..k] == b.lv[..k] == b.lv;
    UpperKept(m, m1, base, b.lv, b1.lv, k);
  }

  lemma OpenedRep(pos: nat, hole: bool)
    ensures LevelRep(ObjectBuilder(true, pos, [], [], 0), ClosedArray, hole, Level([], None), pos)
    ensures LevelBytes(Level([], None)) == Reserved
  {
    EmptyLevel();
  }

  lemma EmptyLevel()
    ensures Vals([]) == [] && Ids([]) == [] && Blobs([]) == [] && Offsets([]) == []
    ensures LevelBytes(Level([], None)) == Reserved
  {
    assert Blobs([]) == [];
    assert Ids([]) == [];
  }

  // ---- Growing elements and members ----

  lemma ConcatSnoc(es: seq<Bytes>, e: Bytes)
    ensures Concat(es + [e]) == Concat(es) + e
    ensures Offsets(es + [e]) == Offsets(es) + [|Concat(es)|]
  {
    assert (es + [e])[..|es|] == es;
  }

  lemma ConcatAppend(es: seq<Bytes>, v: Bytes)
    requires AppendVal(es, v).Some?
    ensures Concat(AppendVal(es, v).value) == Concat(es) + v
    ensures Offsets(AppendVal(es, v).value) == Offsets(es)
  {
    if v == [] {
      assert Concat(es) + v == Concat(es);
    } else {
      var front, last := es[..|es| - 1], es[|es| - 1];
      ConcatSnoc(front, last);
      ConcatSnoc(front, last + v);
      assert es == front + [last];
      assert Concat(front) + (last + v) == Concat(front) + last + v;
    }
  }

  lemma BlobsSnoc(fs: seq<Field>, f: Field)
    ensures Blobs(fs + [f]) == Blobs(fs) + [f.blob] && Ids(fs + [f]) == Ids(fs) + [f.id]
  {
  }

  /** A new member without bytes. */
  lemma FieldSnoc(fs: seq<Field>, s: nat)
    ensures Vals(fs + [Field(s, [])]) == Vals(fs)
    ensures Ids(fs + [Field(s, [])]) == Ids(fs) + [s]
    ensures Offsets(Blobs(fs + [Field(s, [])])) == Offsets(Blobs(fs)) + [|Vals(fs)|]
  {
    BlobsSnoc(fs, Field(s, []));
    ConcatSnoc(Blobs(fs), []);
    assert Concat(Blobs(fs)) + [] == Concat(Blobs(fs));
  }

  lemma FieldAppend(fs: seq<Field>, v: Bytes)
    requires AppendFieldVal(fs, v).Some?
    ensures Vals(AppendFieldVal(fs, v).value) == Vals(fs) + v
    ensures Ids(AppendFieldVal(fs, v).value) == Ids(fs)
    ensures Offsets(Blobs(AppendFieldVal(fs, v).value)) == Offsets(Blobs(fs))
  {
    if v == [] {
      assert Vals(fs) + v == Vals(fs);
    } else {
      var front, last := fs[..|fs| - 1], fs[|fs| - 1];
      assert fs == front + [last];
      BlobsSnoc(front, last);
      BlobsSnoc(front, Field(last.id, last.blob + v));
      ConcatAppend(Blobs(fs), v);
      assert Blobs(fs)[..|fs| - 1] == Blobs(front);
      assert AppendVal(Blobs(fs), v).value == Blobs(front) + [last.blob + v];
    }
  }

  // ---- Packaging ----

  /** The buffer after `package`: the trailer is appended and the size word written. */
  function Packaged(buf: Bytes, bgn: nat, ids: seq<nat>, offs: seq<nat>, vlen: nat): Bytes
    requires bgn + HEAD <= |buf|
  {
    var tail := Trailer(ids, offs, vlen);
    buf[..bgn] + Store(HEAD + vlen + |tail|, HEAD) + buf[bgn + HEAD..] + tail
  }

  lemma PackagedStruct(x: Bytes, ids: seq<nat>, blobs: seq<Bytes>)
    ensures var buf := x + Reserved + Concat(blobs);
            Packaged(buf, |x|, ids, Offsets(blobs), |Concat(blobs)|) == x + Struct(ids, blobs)
  {
    hide Concat, Trailer, Offsets, Store;
    var vals := Concat(blobs);
    var buf := x + Reserved + vals;
    var tail := Trailer(ids, Offsets(blobs), |vals|);
    var size := Store(HEAD + |vals| + |tail|, HEAD);
    assert buf[..|x|] == x;
    assert buf[|x| + HEAD..] == vals;
    assert x + (size + vals + tail) == x + size + vals + tail;
  }

  // ---- The builder's steps, in memory ----

  /** Bytes for the last member, at the end of the level. */
  lemma FieldLevelGrows(fields: seq<Field>, v: Bytes)
    requires AppendFieldVal(fields, v).Some?
    ensures LevelBytes(Level(AppendFieldVal(fields, v).value, None)) == LevelBytes(Level(fields, None)) + v
  {
    hide Vals, AppendFieldVal;
    FieldAppend(fields, v);
    var fs := AppendFieldVal(fields, v).value;
    assert Reserved + Vals(fs) + [] == (Reserved + Vals(fields) + []) + v;
  }

  /** Bytes for the last element, at the end of the level. */
  lemma ElemLevelGrows(fields: seq<Field>, a: Arr, v: Bytes)
    requires AppendVal(a.elems, v).Some?
    ensures LevelBytes(Level(fields, Some(Arr(AppendVal(a.elems, v).value, a.hole))))
        == LevelBytes(Level(fields, Some(a))) + v
  {
    hide Vals, AppendVal, Concat;
    ConcatAppend(a.elems, v);
    var es := AppendVal(a.elems, v).value;
    assert Reserved + Vals(fields) + (Reserved + Concat(es))
        == (Reserved + Vals(fields) + (Reserved + Concat(a.elems))) + v;
  }

  lemma ArrayLevelOpens(fields: seq<Field>)
    ensures LevelBytes(Level(fields, Some(Arr([], true)))) == LevelBytes(Level(fields, None)) + Reserved
    ensures |LevelBytes(Level(fields, None))| == HEAD + |Vals(fields)|
  {
    hide Vals;
    assert Concat([]) == [];
  }

  lemma ObjectRepGrows(o: ObjectBuilder, a: ArrayBuilder, hole: bool, fields: seq<Field>, v: Bytes, pos: nat)
    requires LevelRep(o, a, hole, Level(fields, None), pos) && AppendFieldVal(fields, v).Some?
    ensures a == ClosedArray
    ensures LevelRep(o.(vlen := o.vlen + |v|), a, hole, Level(AppendFieldVal(fields, v).value, None), pos)
  {
    hide Vals, AppendFieldVal, Offsets, Blobs, Ids;
    FieldAppend(fields, v);
  }

  lemma ArrayRepGrows(o: ObjectBuilder, a: ArrayBuilder, hole: bool, fields: seq<Field>, x: Arr, v: Bytes, pos: nat)
    requires LevelRep(o, a, hole, Level(fields, Some(x)), pos) && AppendVal(x.elems, v).Some?
    ensures a.init
    ensures LevelRep(o, a.(vlen := a.vlen + |v|), hole, Level(fields, Some(Arr(AppendVal(x.elems, v).value, x.hole))),
        pos)
  {
    hide Vals, AppendVal, Concat, Offsets, Blobs, Ids;
    ConcatAppend(x.elems, v);
  }

  ghost predicate Ready1(m: Memory, base: Bytes, b: Build) {
    b.lv != [] && Represents(m, base, b)
  }

  /** A further element of the deepest array. */
  lemma StepElem(m: Memory, base: Bytes, b: Build, a: Arr)
    requires Ready1(m, base, b) && b.pend == [] && b.Top().arr == Some(a)
    ensures var k := m.next - 1;
            && 0 <= k < |m.objs| && |m.objs| == |m.arrs| == |m.holes| && m.arrs[k].init
            && Represents(m.(arrs := m.arrs[k := m.arrs[k].(offs := m.arrs[k].offs + [m.arrs[k].vlen])],
                holes := m.holes[k := false]),
                          base, b.WithTop(b.Top().(arr := Some(Arr(a.elems + [[]], false)))))
  {
    hide Image, Concat, Offsets, Vals;
    TopFacts(m, base, b);
    var k := m.next - 1;
    var t := b.Top().(arr := Some(Arr(a.elems + [[]], false)));
    var a1 := m.arrs[k].(offs := m.arrs[k].offs + [m.arrs[k].vlen]);
    ConcatSnoc(a.elems, []);
    assert Concat(a.elems) + [] == Concat(a.elems);
    assert LevelBytes(t) == LevelBytes(b.Top());
    TopChanged(m, base, b, t, [], m.objs[k], a1, false, m.buf);
    assert m.objs[k := m.objs[k]] == m.objs;
    assert b.WithTop(t).(pend := []) == b.WithTop(t);
  }

  /** The current element is marked as empty. */
  lemma StepHole(m: Memory, base: Bytes, b: Build, a: Arr)
    requires Ready1(m, base, b) && b.pend == [] && b.Top().arr == Some(a)
    ensures var k := m.next - 1;
            && 0 <= k < |m.objs| && |m.objs| == |m.arrs| == |m.holes| && m.arrs[k].init
            && Represents(m.(holes := m.holes[k := true]), base, b.WithTop(b.Top().(arr := Some(Arr(a.elems, true)))))
  {
    hide Image, Concat, Offsets, Vals;
    TopFacts(m, base, b);
    var k := m.next - 1;
    var t := b.Top().(arr := Some(Arr(a.elems, true)));
    assert LevelBytes(t) == LevelBytes(b.Top());
    TopChanged(m, base, b, t, [], m.objs[k], m.arrs[k], true, m.buf);
    assert m.objs[k := m.objs[k]] == m.objs && m.arrs[k := m.arrs[k]] == m.arrs;
    assert b.WithTop(t).(pend := []) == b.WithTop(t);
  }

  /** A new member of the deepest object. */
  lemma StepField(m: Memory, base: Bytes, b: Build, s: nat)
    requires Ready1(m, base, b) && b.pend == [] && b.Top().arr == None
    ensures var k := m.next - 1;
            && 0 <= k < |m.objs| && |m.objs| == |m.arrs| == |m.holes|
            && var o := m.objs[k].(ids := m.objs[k].ids + [s], offs := m.objs[k].offs + [m.objs[k].vlen]);
               Represents(m.(objs := m.objs[k := o]), base, b.WithTop(Level(b.Top().fields + [Field(s, [])], None)))
  {
    hide Image, Concat, Offsets, Vals, Ids, Blobs;
    TopFacts(m, base, b);
    var k := m.next - 1;
    var t := Level(b.Top().fields + [Field(s, [])], None);
    FieldSnoc(b.Top().fields, s);
    assert LevelBytes(t) == LevelBytes(b.Top());
    TopChanged(m, base, b, t, [],
               m.objs[k].(ids := m.objs[k].ids + [s], offs := m.objs[k].offs + [m.objs[k].vlen]), m.arrs[k],
                   m.holes[k], m.buf);
    assert m.holes[k := m.holes[k]] == m.holes && m.arrs[k := m.arrs[k]] == m.arrs;
    assert b.WithTop(t).(pend := []) == b.WithTop(t);
  }

  /** The array of the deepest object's last member is opened. */
  lemma StepArray(m: Memory, base: Bytes, b: Build)
    requires Ready1(m, base, b) && b.pend == [] && b.Top().arr == None
    ensures var k := m.next - 1;
            && 0 <= k < |m.objs| && |m.objs| == |m.arrs| == |m.holes|
            && m.arrs[k] == ClosedArray
            && Represents(m.(buf := m.buf + Reserved, arrs := m.arrs[k := ArrayBuilder(true, |m.buf|, [], 0)],
                holes := m.holes[k := true]),
                          base, b.WithTop(b.Top().(arr := Some(Arr([], true)))))
  {
    hide Image, Vals, Ids, Blobs, LevelBytes, Concat, Offsets;
    TopFacts(m, base, b);
    var k := m.next - 1;
    var t := b.Top().(arr := Some(Arr([], true)));
    ArrayLevelOpens(b.Top().fields);
    assert b.Top() == Level(b.Top().fields, None);
    assert m.buf == base + Image(UpTo(b)) + LevelBytes(b.Top());
    assert m.buf + Reserved == base + Image(UpTo(b)) + LevelBytes(t) + [];
    NewArrayRep(m.objs[k], m.arrs[k], m.holes[k], b.Top().fields, TopPos(base, b));
    TopChanged(m, base, b, t, [], m.objs[k], ArrayBuilder(true, |m.buf|, [], 0), true, m.buf + Reserved);
    assert m.objs[k := m.objs[k]] == m.objs;
    assert b.WithTop(t).(pend := []) == b.WithTop(t);
  }

  lemma NewArrayRep(o: ObjectBuilder, a: ArrayBuilder, hole: bool, fields: seq<Field>, pos: nat)
    requires LevelRep(o, a, hole, Level(fields, None), pos)
    ensures a == ClosedArray
    ensures LevelRep(o, ArrayBuilder(true, pos + HEAD + |Vals(fields)|, [], 0), true,
        Level(fields, Some(Arr([], true))), pos)
  {
    hide Vals, Ids, Blobs;
    assert Concat([]) == [] && Offsets([]) == [];
  }

  /** The pending struct is accounted to the last member. */
  lemma StepTakePend(m: Memory, base: Bytes, b: Build)
    requires Ready1(m, base, b) && b.Top().arr == None && TakePend(b).Some?
    ensures var k := m.next - 1;
            && 0 <= k < |m.objs| && |m.objs| == |m.arrs| == |m.holes|
            && Represents(m.(objs := m.objs[k := m.objs[k].(vlen := m.objs[k].vlen + m.structLen)], structLen := 0),
                          base, TakePend(b).value)
  {
    hide Image, LevelBytes, AppendFieldVal, LevelRep;
    TopFacts(m, base, b);
    var k := m.next - 1;
    var fields := b.Top().fields;
    var t := Level(AppendFieldVal(fields, b.pend).value, None);
    assert b.Top() == Level(fields, None);
    FieldLevelGrows(fields, b.pend);
    ObjectRepGrows(m.objs[k], m.arrs[k], m.holes[k], fields, b.pend, TopPos(base, b));
    assert m.buf == base + Image(UpTo(b)) + LevelBytes(t) + [];
    TopChanged(m, base, b, t, [], m.objs[k].(vlen := m.objs[k].vlen + m.structLen), m.arrs[k], m.holes[k], m.buf);
    assert m.holes[k := m.holes[k]] == m.holes && m.arrs[k := m.arrs[k]] == m.arrs;
  }

  /** The pending struct is accounted to the deepest array's last element. */
  lemma StepElemPend(m: Memory, base: Bytes, b: Build, a: Arr, es: seq<Bytes>)
    requires Ready1(m, base, b) && b.Top().arr == Some(a) && AppendVal(a.elems, b.pend) == Some(es)
    ensures var k := m.next - 1;
            && 0 <= k < |m.objs| && |m.objs| == |m.arrs| == |m.holes| && m.arrs[k].init
            && Represents(m.(arrs := m.arrs[k := m.arrs[k].(vlen := m.arrs[k].vlen + m.structLen)], structLen := 0),
                          base, b.WithTop(b.Top().(arr := Some(Arr(es, a.hole)))).(pend := []))
  {
    hide Image, LevelBytes, AppendVal, LevelRep;
    TopFacts(m, base, b);
    var k := m.next - 1;
    var t := b.Top().(arr := Some(Arr(es, a.hole)));
    assert b.Top() == Level(b.Top().fields, Some(a));
    ElemLevelGrows(b.Top().fields, a, b.pend);
    ArrayRepGrows(m.objs[k], m.arrs[k], m.holes[k], b.Top().fields, a, b.pend, TopPos(base, b));
    assert m.buf == base + Image(UpTo(b)) + LevelBytes(t) + [];
    TopChanged(m, base, b, t, [], m.objs[k], m.arrs[k].(vlen := m.arrs[k].vlen + m.structLen), m.holes[k], m.buf);
    assert m.holes[k := m.holes[k]] == m.holes && m.objs[k := m.objs[k]] == m.objs;
  }

  /** A leaf value is copied behind everything and accounted to the last element. */
  lemma StepLeafElem(m: Memory, base: Bytes, b: Build, v: Bytes, a: Arr)
    requires Ready1(m, base, b) && LeafValue(b, v).Some? && b.Top().arr == Some(a)
    ensures var k := m.next - 1;
            && 0 <= k < |m.objs| && |m.objs| == |m.arrs| == |m.holes| && m.arrs[k].init
            && Represents(m.(buf := m.buf + v, arrs := m.arrs[k := m.arrs[k].(vlen := m.arrs[k].vlen + |v|)]),
                          base, LeafValue(b, v).value)
  {
    hide Image, LevelBytes, AppendVal, LevelRep;
    TopFacts(m, base, b);
    var k := m.next - 1;
    var t := b.Top().(arr := Some(Arr(AppendVal(a.elems, v).value, a.hole)));
    assert b.Top() == Level(b.Top().fields, Some(a));
    ElemLevelGrows(b.Top().fields, a, v);
    ArrayRepGrows(m.objs[k], m.arrs[k], m.holes[k], b.Top().fields, a, v, TopPos(base, b));
    assert m.buf + v == base + Image(UpTo(b)) + LevelBytes(t) + [];
    TopChanged(m, base, b, t, [], m.objs[k], m.arrs[k].(vlen := m.arrs[k].vlen + |v|), m.holes[k], m.buf + v);
    assert m.holes[k := m.holes[k]] == m.holes && m.objs[k := m.objs[k]] == m.objs;
    assert b.WithTop(t).(pend := []) == b.WithTop(t);
  }

  /** A leaf value is copied behind everything and accounted to the last member. */
  lemma StepLeafField(m: Memory, base: Bytes, b: Build, v: Bytes)
    requires Ready1(m, base, b) && LeafValue(b, v).Some? && b.Top().arr == None
    ensures var k := m.next - 1;
            && 0 <= k < |m.objs| && |m.objs| == |m.arrs| == |m.holes| && m.arrs[k] == ClosedArray
            && Represents(m.(buf := m.buf + v, objs := m.objs[k := m.objs[k].(vlen := m.objs[k].vlen + |v|)]),
                          base, LeafValue(b, v).value)
  {
    hide Image, LevelBytes, AppendFieldVal, LevelRep;
    TopFacts(m, base, b);
    var k := m.next - 1;
    var fields := b.Top().fields;
    var t := Level(AppendFieldVal(fields, v).value, None);
    assert b.Top() == Level(fields, None);
    FieldLevelGrows(fields, v);
    ObjectRepGrows(m.objs[k], m.arrs[k], m.holes[k], fields, v, TopPos(base, b));
    assert m.buf + v == base + Image(UpTo(b)) + LevelBytes(t) + [];
    TopChanged(m, base, b, t, [], m.objs[k].(vlen := m.objs[k].vlen + |v|), m.arrs[k], m.holes[k], m.buf + v);
    assert m.holes[k := m.holes[k]] == m.holes && m.arrs[k := m.arrs[k]] == m.arrs;
    assert b.WithTop(t).(pend := []) == b.WithTop(t);
  }

  /** What the builders of the deepest level reveal. */
  lemma OpenTop(m: Memory, base: Bytes, b: Build)
    requires Ready1(m, base, b)
    ensures var k := m.next - 1;
            && 0 <= k < |m.objs| && |m.objs| == |m.arrs| == |m.holes| && m.next == |b.lv|
            && m.objs[k].init && m.objs[k].ids == Ids(b.Top().fields)
            && m.arrs[k].init == b.Top().arr.Some?
            && (b.Top().arr.Some? ==> m.holes[k] == b.Top().arr.value.hole)
            && (b.Top().arr.None? ==> m.arrs[k] == ClosedArray)
            && m.structLen == |b.pend|
  {
    hide Image, Vals, Concat, Offsets, Blobs, Ids;
    TopFacts(m, base, b);
  }

  /** The deepest array, its last element complete, is packaged. */
  lemma StepPackArray(m: Memory, base: Bytes, b: Build, a: Arr)
    requires Ready1(m, base, b) && b.pend == [] && b.Top().arr == Some(a)
    ensures var k := m.next - 1;
            && 0 <= k < |m.objs| && |m.objs| == |m.arrs| == |m.holes|
            && m.arrs[k].init && m.arrs[k].bgn + HEAD <= |m.buf|
            && var buf := Packaged(m.buf, m.arrs[k].bgn, [], m.arrs[k].offs, m.arrs[k].vlen);
               Represents(m.(buf := buf, arrs := m.arrs[k := ClosedArray],
                             structLen := HEAD + m.arrs[k].vlen + |Trailer([], m.arrs[k].offs, m.arrs[k].vlen)|),
                          base, b.WithTop(b.Top().(arr := None)).(pend := EncodeArray(a.elems)))
  {
    hide Image, Concat, Offsets, Vals, Ids, Blobs, Trailer, Store, Packaged;
    TopFacts(m, base, b);
    var k := m.next - 1;
    var t := b.Top().(arr := None);
    var x := base + Image(UpTo(b)) + LevelBytes(t);
    PackagedStruct(x, [], a.elems);
    ArrayLast(base + Image(UpTo(b)), b.Top(), a);
    StructLength([], a.elems);
    TopChanged(m, base, b, t, EncodeArray(a.elems), m.objs[k], ClosedArray, m.holes[k], x + Struct([], a.elems));
    Same(m.holes, k);
    Same(m.objs, k);
  }

  /** An open array lies behind the rest of its level. */
  lemma ArrayLast(x: Bytes, l: Level, a: Arr)
    requires l.arr == Some(a)
    ensures x + LevelBytes(l) + [] == x + LevelBytes(l.(arr := None)) + Reserved + Concat(a.elems)
  {
    hide Concat, Vals;
    var y, c := Reserved + Vals(l.fields), Concat(a.elems);
    assert LevelBytes(l) == y + (Reserved + c);
    assert LevelBytes(l.(arr := None)) == y;
    assert x + (y + (Reserved + c)) == x + y + Reserved + c;
  }

  lemma Same<T>(s: seq<T>, k: nat)
    requires k < |s|
    ensures s[k := s[k]] == s
  {
  }

  /** The deepest object, its last member complete, is packaged. */
  lemma StepPackObject(m: Memory, base: Bytes, b: Build)
    requires Ready1(m, base, b) && b.pend == [] && b.Top().arr == None
    ensures var k := m.next - 1;
            && 0 <= k < |m.objs| && |m.objs| == |m.arrs| == |m.holes|
            && m.objs[k].init && m.objs[k].bgn + HEAD <= |m.buf|
            && var buf := Packaged(m.buf, m.objs[k].bgn, m.objs[k].ids, m.objs[k].offs, m.objs[k].vlen);
               Represents(m.(buf := buf, objs := m.objs[k := ClosedObject], next := k,
                             structLen := HEAD + m.objs[k].vlen
                                 + |Trailer(m.objs[k].ids, m.objs[k].offs, m.objs[k].vlen)|),
                          base, Build(UpTo(b), EncodeObject(b.Top().fields)))
  {
    hide Image, Concat, Offsets, Ids, Blobs, Trailer, Store, Packaged;
    TopFacts(m, base, b);
    var k := m.next - 1;
    var fs := b.Top().fields;
    var x := base + Image(UpTo(b));
    PackagedStruct(x, Ids(fs), Blobs(fs));
    assert LevelBytes(b.Top()) == Reserved + Concat(Blobs(fs)) + [];
    assert m.buf == x + Reserved + Concat(Blobs(fs));
    StructLength(Ids(fs), Blobs(fs));
    TopRemoved(m, base, b, EncodeObject(fs), x + EncodeObject(fs));
    assert m.arrs[k := m.arrs[k]] == m.arrs;
  }

  lemma StructLength(ids: seq<nat>, blobs: seq<Bytes>)
    ensures |Struct(ids, blobs)| == HEAD + |Concat(blobs)| + |Trailer(ids, Offsets(blobs), |Concat(blobs)|)|
  {
    hide Concat, Trailer, Offsets, Store;
  }
}
