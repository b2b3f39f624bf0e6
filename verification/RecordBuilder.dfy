// RecordBuilder: the builder of binary rows, over a byte buffer.
//
// Every method is proved against the corresponding operation of `BuildSpec` through `Represents`, which
// says where in the buffer the open structs lie.  Object and array builders are values in the vectors;
// the buffer is the sequence of bytes allocated so far, a reserved size word being zero until it is
// written.

module RecordBuilder {
  import opened Wrappers
  import opened Bytes
  import opened Paths
  import opened RowCodec
  import opened BuildSpec
  import opened Layout

  lemma LastId(fs: seq<Field>)
    ensures |Ids(fs)| == |fs|
    ensures fs != [] ==> Ids(fs)[|fs| - 1] == fs[|fs| - 1].id
  {
  }

  class RecordBuilder {
    const rept: set<Sign>           // which nodes of m_tree are repeated; a node's field id is its signature
    var buf: Bytes                  // m_buf
    var objs: seq<ObjectBuilder>    // m_objs
    var arrs: seq<ArrayBuilder>     // m_arrs
    var holes: seq<bool>            // m_empty_array_elem
    var nextIdx: nat                // m_next_idx
    var structLen: nat              // m_struct_len
    var recdSize: nat               // m_recd_size
    ghost var base: Bytes           // what the buffer held when the record was begun
    ghost var st: Build

    constructor (rept: set<Sign>, maxLevel: nat)
      ensures this.rept == rept && |objs| == maxLevel && Idle() && buf == []
    {
      this.rept := rept;
      buf, base := [], [];
      objs := seq(maxLevel, _ => ClosedObject);
      arrs := seq(maxLevel, _ => ClosedArray);
      holes := seq(maxLevel, _ => false);
      nextIdx, structLen, recdSize := 0, 0, 0;
      st := Build([], []);
    }

    function Mem(): Memory
      reads this
    {
      Memory(buf, objs, arrs, holes, nextIdx, structLen)
    }

    ghost predicate Valid()
      reads this
    {
      Represents(Mem(), base, st)
    }

    /** No record is being built. */
    ghost predicate Idle()
      reads this
    {
      && nextIdx == 0 && |objs| == |arrs| == |holes|
      && forall i :: 0 <= i < |objs| ==> objs[i] == ClosedObject && arrs[i] == ClosedArray
    }

    /** `begin2build`. */
    method Begin2Build()
      requires Idle() && objs != []
      modifies this
      ensures Valid() && st == Start() && base == old(buf) && |objs| == old(|objs|)
    {
      structLen, recdSize := 0, 0;
      base, st := buf, Build([], []);
      ImageSnoc([], Level([], None));
      assert base + Image([]) + [] == base;
      InitObject();
    }

    /** `m_objs[m_next_idx++].init()`. */
    method InitObject()
      requires Valid() && st.pend == [] && nextIdx < |objs|
      modifies this
      ensures Valid() && st == OpenLevel(old(st)) && base == old(base) && |objs| == old(|objs|)
    {
      hide Represents;
      LevelOpened(Mem(), base, st);
      objs := objs[nextIdx := ObjectBuilder(true, |buf|, [], [], 0)];
      buf := buf + Reserved;
      nextIdx := nextIdx + 1;
      st := OpenLevel(st);
    }

    /** `appendElem` on the deepest array, whose current element then is not empty any more. */
    method NewElem()
      requires Valid() && st.lv != [] && st.Top().arr.Some? && st.pend == []
      modifies this
      ensures Valid() && base == old(base) && |objs| == old(|objs|)
      ensures st == old(st).WithTop(old(st).Top().(arr := Some(Arr(old(st).Top().arr.value.elems + [[]], false))))
    {
      hide Represents;
      ghost var a := st.Top().arr.value;
      StepElem(Mem(), base, st, a);
      var k := nextIdx - 1;
      arrs := arrs[k := arrs[k].(offs := arrs[k].offs + [arrs[k].vlen])];
      holes := holes[k := false];
      st := st.WithTop(st.Top().(arr := Some(Arr(a.elems + [[]], false))));
    }

    /** `appendValue(m_struct_len)` on the deepest array. */
    method AccountToElem()
      requires Valid() && st.lv != [] && st.Top().arr.Some? && AppendVal(st.Top().arr.value.elems, st.pend).Some?
      modifies this
      ensures Valid() && base == old(base) && |objs| == old(|objs|)
      ensures var a := old(st).Top().arr.value;
              st == old(st).WithTop(old(st).Top().(
                arr := Some(Arr(AppendVal(a.elems, old(st).pend).value, a.hole)))).(pend := [])
    {
      hide Represents, AppendVal;
      ghost var a := st.Top().arr.value;
      ghost var es := AppendVal(a.elems, st.pend).value;
      StepElemPend(Mem(), base, st, a, es);
      var k := nextIdx - 1;
      arrs := arrs[k := arrs[k].(vlen := arrs[k].vlen + structLen)];
      structLen := 0;
      st := st.WithTop(st.Top().(arr := Some(Arr(es, a.hole)))).(pend := []);
    }

    /** Completes the current element of the deepest array. */
    method CompleteElem()
      requires Valid() && st.lv != [] && st.Top().arr.Some? && CompleteElems(st.Top().arr.value, st.pend).Some?
      modifies this
      ensures Valid() && base == old(base) && |objs| == old(|objs|)
      ensures var es := CompleteElems(old(st).Top().arr.value, old(st).pend).value;
              st == old(st).WithTop(old(st).Top().(arr := Some(Arr(es, false)))).(pend := [])
    {
      OpenTop(Mem(), base, st);
      hide Represents, AppendVal, Ids;
      if holes[nextIdx - 1] {
        NewElem();
      } else {
        AccountToElem();
      }
    }

    /** `packageArrayByIndex`, for the deepest level. */
    method PackageArray()
      requires Valid() && st.lv != [] && PackArr(st).Some?
      modifies this
      ensures Valid() && Some(st) == PackArr(old(st)) && base == old(base) && |objs| == old(|objs|)
      ensures st.Top().arr == None
    {
      OpenTop(Mem(), base, st);
      hide Represents, EncodeArray, CompleteElems, Ids;
      if arrs[nextIdx - 1].init {
        CompleteElem();
        PackOpenArray();
        assert old(st).WithTop(st.Top()).lv == st.lv;
      }
    }

    /** `RowArrayBuilder::package` and `clear`, for the deepest level. */
    method PackOpenArray()
      requires Valid() && st.lv != [] && st.pend == [] && st.Top().arr.Some?
      modifies this
      ensures Valid() && base == old(base) && |objs| == old(|objs|)
      ensures st == old(st).WithTop(old(st).Top().(arr := None)).(pend := EncodeArray(old(st).Top().arr.value.elems))
    {
      hide Represents, EncodeArray, Trailer, Packaged;
      ghost var a := st.Top().arr.value;
      StepPackArray(Mem(), base, st, a);
      var k := nextIdx - 1;
      var got := PackStruct(arrs[k].bgn, [], arrs[k].offs, arrs[k].vlen);
      structLen := got;
      arrs := arrs[k := ClosedArray];
      st := st.WithTop(st.Top().(arr := None)).(pend := EncodeArray(a.elems));
    }

    /** `RowStructOperator::package`: ids, offsets and Info behind the values, then the size word. */
    method PackStruct(bgn: nat, ids: seq<nat>, offs: seq<nat>, vlen: nat) returns (size: nat)
      requires bgn + HEAD <= |buf|
      modifies this`buf
      ensures buf == Packaged(old(buf), bgn, ids, offs, vlen)
      ensures size == HEAD + vlen + |Trailer(ids, offs, vlen)|
    {
      var flag := CalcFlag(vlen);
      var tab := WriteTable(ids, ID);
      var off := WriteTable(offs, OffsetUsed(flag));
      var tail := tab + off + Store(InfoWord(flag, |offs|), INFO);
      size := HEAD + vlen + |tail|;
      buf := buf[..bgn] + Store(size, HEAD) + buf[bgn + HEAD..] + tail;
    }

    /** `packageObjectByIndex`, for the deepest level, which is closed by it. */
    method PackageObject()
      requires Valid() && st.lv != [] && st.Top().arr == None && PackObj(st).Some?
      modifies this
      ensures Valid() && Some(st) == PackObj(old(st)) && base == old(base) && |objs| == old(|objs|)
    {
      hide Represents, EncodeObject, Trailer, Packaged, AppendFieldVal;
      AccountToMember();
      StepPackObject(Mem(), base, st);
      var k := nextIdx - 1;
      var got := PackStruct(objs[k].bgn, objs[k].ids, objs[k].offs, objs[k].vlen);
      structLen := got;
      objs := objs[k := ClosedObject];
      nextIdx := k;
      ghost var top := st.Top();
      st := Build(UpTo(st), EncodeObject(top.fields));
    }

    /** `appendValue(m_struct_len)` on the deepest object. */
    method AccountToMember()
      requires Valid() && st.lv != [] && st.Top().arr == None && TakePend(st).Some?
      modifies this
      ensures Valid() && Some(st) == TakePend(old(st)) && base == old(base) && |objs| == old(|objs|)
    {
      hide Represents, TakePend;
      StepTakePend(Mem(), base, st);
      var k := nextIdx - 1;
      objs := objs[k := objs[k].(vlen := objs[k].vlen + structLen)];
      structLen := 0;
      st := TakePend(st).value;
    }

    /** `packageByIndex(--m_next_idx)`. */
    method Package()
      requires Valid() && st.lv != [] && PackTop(st).Some?
      modifies this
      ensures Valid() && Some(st) == PackTop(old(st)) && base == old(base) && |objs| == old(|objs|)
    {
      hide Represents, PackArr, PackObj;
      PackageArray();
      PackageObject();
    }

    /** `return2BuildObject`. */
    method Return2BuildObject(level: nat)
      requires Valid() && level <= |st.lv| && CloseTo(st, level).Some?
      modifies this
      ensures Valid() && Some(st) == CloseTo(old(st), level) && base == old(base) && |objs| == old(|objs|)
    {
      NextIdx(Mem(), base, st);
      hide Represents, PackTop;
      while nextIdx > level
        invariant Valid() && nextIdx == |st.lv| >= level && base == old(base) && |objs| == old(|objs|)
        invariant CloseTo(st, level) == CloseTo(old(st), level)
        decreases nextIdx
      {
        Package();
        NextIdx(Mem(), base, st);
      }
    }

    /** `appendElement2Array`. */
    method AppendElement2Array(s: Sign)
      requires Valid() && st.lv != [] && AppendElem(rept, st, s).Some?
      modifies this
      ensures Valid() && Some(st) == AppendElem(rept, old(st), s) && base == old(base) && |objs| == old(|objs|)
    {
      hide Represents;
      if s in rept { NewElem(); }
    }

    /** `appendField2Struct`. */
    method AppendField2Struct(s: Sign)
      requires Valid() && st.lv != [] && AppendField(rept, st, s).Some?
      modifies this
      ensures Valid() && Some(st) == AppendField(rept, old(st), s) && base == old(base) && |objs| == old(|objs|)
    {
      IdsTop(Mem(), base, st);
      hide Represents, FinishField, Ids, AppendField;
      var ids := objs[nextIdx - 1].ids;
      if ids == [] {
        FieldFirst(rept, st, s);
        NewField(s);
      } else if ids[|ids| - 1] == s {
        FieldAgain(rept, st, s);
      } else {
        FieldOther(rept, st, s);
        FinishMember();
        NewField(s);
      }
    }

    /** The last member is complete: its array is packaged, and what is pending is accounted to it. */
    method FinishMember()
      requires Valid() && st.lv != [] && FinishField(st).Some?
      modifies this
      ensures Valid() && Some(st) == FinishField(old(st)) && base == old(base) && |objs| == old(|objs|)
    {
      hide Represents, PackArr, TakePend;
      PackageArray();
      AccountToMember();
    }

    /** `appendElem(id)` on the deepest object, and the array of the field when its node is repeated. */
    method NewField(s: Sign)
      requires Valid() && st.lv != [] && st.Top().arr == None && st.pend == []
      modifies this
      ensures Valid() && base == old(base) && |objs| == old(|objs|)
      ensures st == FieldAdded(rept, old(st), s)
    {
      hide Represents;
      StepField(Mem(), base, st, s);
      var k := nextIdx - 1;
      objs := objs[k := objs[k].(ids := objs[k].ids + [s], offs := objs[k].offs + [objs[k].vlen])];
      st := st.WithTop(Level(st.Top().fields + [Field(s, [])], None));
      if s in rept {
        ghost var before := st;
        StepArray(Mem(), base, st);
        arrs := arrs[k := ArrayBuilder(true, |buf|, [], 0)];
        buf := buf + Reserved;
        holes := holes[k := true];
        st := st.WithTop(st.Top().(arr := Some(Arr([], true))));
      }
    }

    /** One turn of the loop of `move2level`. */
    method OneDown(p: Path)
      requires Valid() && 0 < |st.lv| < |p| <= |objs|
      requires OneLevelDown(rept, st, p).Some?
      modifies this
      ensures Valid() && Some(st) == OneLevelDown(rept, old(st), p) && base == old(base) && |objs| == old(|objs|)
    {
      NextIdx(Mem(), base, st);
      hide Represents, AppendElem, AppendField;
      AppendElement2Array(p[nextIdx - 1]);
      NextIdx(Mem(), base, st);
      InitObject();
      NextIdx(Mem(), base, st);
      AppendField2Struct(p[nextIdx - 1]);
    }

    /** The loop of `move2level`, from the current level down to level d. */
    method DescendTo(d: nat, p: Path)
      requires Valid() && 0 < |st.lv| <= d <= |p| <= |objs| && Descend(rept, st, d, p).Some?
      modifies this
      ensures Valid() && Some(st) == Descend(rept, old(st), d, p) && base == old(base) && |objs| == old(|objs|)
    {
      NextIdx(Mem(), base, st);
      hide Represents, AppendElem, AppendField, Descend;
      while nextIdx < d
        invariant Valid() && nextIdx == |st.lv| && 0 < nextIdx <= d && base == old(base) && |objs| == old(|objs|)
        invariant Descend(rept, st, d, p) == Descend(rept, old(st), d, p)
      {
        DescendStep(rept, st, d, p);
        OneDown(p);
        NextIdx(Mem(), base, st);
      }
      DescendEnd(rept, st, d, p);
      if d == |p| { AppendElement2Array(p[d - 1]); }
    }

    /** `move2level`. */
    method Move2Level(d: nat, p: Path, app: bool)
      requires Valid() && st.lv != [] && d <= |p| <= |objs| && Move(rept, st, d, p, app).Some?
      modifies this
      ensures Valid() && Some(st) == Move(rept, old(st), d, p, app) && base == old(base) && |objs| == old(|objs|)
    {
      NextIdx(Mem(), base, st);
      hide Represents, AppendField, AppendElem, Descend;
      if d == 0 || nextIdx > d { return; }
      if app {
        if nextIdx == |p| {
          NewElem();
          return;
        }
        MarkHole();
      } else {
        AppendField2Struct(p[nextIdx - 1]);
      }
      DescendTo(d, p);
    }

    method MarkHole()
      requires Valid() && st.lv != [] && st.Top().arr.Some? && st.pend == []
      modifies this
      ensures Valid() && base == old(base) && |objs| == old(|objs|)
      ensures st == old(st).WithTop(old(st).Top().(arr := Some(Arr(old(st).Top().arr.value.elems, true))))
    {
      hide Represents;
      ghost var a := st.Top().arr.value;
      StepHole(Mem(), base, st, a);
      holes := holes[nextIdx - 1 := true];
      st := st.WithTop(st.Top().(arr := Some(Arr(a.elems, true))));
    }

    /** A leaf value: `Buffer::allocate`, the copy, and `appendLeafValue`. */
    method AppendLeaf(v: Bytes)
      requires Valid() && st.lv != [] && LeafValue(st, v).Some?
      modifies this
      ensures Valid() && Some(st) == LeafValue(old(st), v) && base == old(base) && |objs| == old(|objs|)
    {
      OpenTop(Mem(), base, st);
      hide Represents, LeafValue, Ids;
      if arrs[nextIdx - 1].init {
        LeafToElem(v);
      } else if objs[nextIdx - 1].init {
        LeafToMember(v);
      }
    }

    method LeafToElem(v: Bytes)
      requires Valid() && st.lv != [] && st.Top().arr.Some? && LeafValue(st, v).Some?
      modifies this
      ensures Valid() && Some(st) == LeafValue(old(st), v) && base == old(base) && |objs| == old(|objs|)
    {
      hide Represents, LeafValue;
      StepLeafElem(Mem(), base, st, v, st.Top().arr.value);
      var k := nextIdx - 1;
      arrs := arrs[k := arrs[k].(vlen := arrs[k].vlen + |v|)];
      buf := buf + v;
      st := LeafValue(st, v).value;
    }

    method LeafToMember(v: Bytes)
      requires Valid() && st.lv != [] && st.Top().arr.None? && LeafValue(st, v).Some?
      modifies this
      ensures Valid() && Some(st) == LeafValue(old(st), v) && base == old(base) && |objs| == old(|objs|)
    {
      hide Represents, LeafValue;
      StepLeafField(Mem(), base, st, v);
      var k := nextIdx - 1;
      objs := objs[k := objs[k].(vlen := objs[k].vlen + |v|)];
      buf := buf + v;
      st := LeafValue(st, v).value;
    }

    /** `return2BuildArray`. */
    method Return2BuildArray(level: nat, p: Path)
      requires Valid() && 0 < level <= |p| && level <= |st.lv| && CloseElem(st, level, p).Some?
      modifies this
      ensures Valid() && Some(st) == CloseElem(old(st), level, p) && base == old(base) && |objs| == old(|objs|)
    {
      NextIdx(Mem(), base, st);
      hide Represents, CloseTo, CompleteElems;
      if |p| == nextIdx && |p| == level { return; }
      Return2BuildObject(level);
      CompleteElem();
    }

    /** `return2level`. */
    method Return2Level(level: nat, p: Path, app: bool)
      requires Valid() && level <= |p| && Return(rept, st, level, p, app).Some?
      modifies this
      ensures Valid() && Some(st) == Return(rept, old(st), level, p, app) && base == old(base) && |objs| == old(|objs|)
    {
      NextIdx(Mem(), base, st);
      hide Represents, CloseElem, CloseTo, FinishField;
      if app {
        if level == 0 || nextIdx < level { return; }
        Return2BuildArray(level, p);
      } else {
        if nextIdx <= level { return; }
        Return2BuildObject(level + 1);
        FinishMember();
      }
    }

    /** `end2build`. */
    method End2Build() returns (size: nat)
      requires Valid() && Finish(st).Some?
      modifies this
      ensures Idle() && |objs| == old(|objs|)
      ensures buf == old(base) + Finish(old(st)).value
      ensures size == recdSize == |Finish(old(st)).value|
    {
      Package();
      recdSize := structLen;
      structLen := 0;
      size := recdSize;
      Ended(Memory(buf, objs, arrs, holes, nextIdx, recdSize), base, st);
    }
  }

  lemma DescendStep(rept: set<Sign>, b: Build, d: nat, p: Path)
    requires 0 < |b.lv| < d <= |p| && Descend(rept, b, d, p).Some?
    ensures OneLevelDown(rept, b, p).Some?
    ensures |OneLevelDown(rept, b, p).value.lv| == |b.lv| + 1
    ensures Descend(rept, OneLevelDown(rept, b, p).value, d, p) == Descend(rept, b, d, p)
  {
  }

  lemma DescendEnd(rept: set<Sign>, b: Build, d: nat, p: Path)
    requires 0 < |b.lv| == d <= |p|
    ensures Descend(rept, b, d, p) == if d == |p| then AppendElem(rept, b, p[d - 1]) else Some(b)
  {
  }

  /** What the id vector of the deepest object tells. */
  lemma IdsTop(m: Memory, base: Bytes, b: Build)
    requires b.lv != [] && Represents(m, base, b)
    ensures 0 < m.next <= |m.objs|
    ensures var ids, fs := m.objs[m.next - 1].ids, b.Top().fields;
            (ids == [] <==> fs == []) && (fs != [] ==> |ids| > 0 && ids[|ids| - 1] == fs[|fs| - 1].id)
  {
    OpenTop(m, base, b);
    LastId(b.Top().fields);
    hide Represents;
  }

  lemma FieldFirst(rept: set<Sign>, b: Build, s: Sign)
    requires b.lv != [] && AppendField(rept, b, s).Some? && b.Top().fields == []
    ensures b.pend == [] && b.Top().arr == None && FieldAdded(rept, b, s) == AppendField(rept, b, s).value
  {
  }

  lemma FieldAgain(rept: set<Sign>, b: Build, s: Sign)
    requires b.lv != [] && b.Top().fields != [] && b.Top().fields[|b.Top().fields| - 1].id == s
    ensures AppendField(rept, b, s) == Some(b)
  {
  }

  lemma FieldOther(rept: set<Sign>, b: Build, s: Sign)
    requires b.lv != [] && AppendField(rept, b, s).Some?
    requires b.Top().fields != [] && b.Top().fields[|b.Top().fields| - 1].id != s
    ensures FinishField(b).Some?
    ensures var b1 := FinishField(b).value;
            b1.lv != [] && b1.pend == [] && b1.Top().arr == None &&
                FieldAdded(rept, b1, s) == AppendField(rept, b, s).value
  {
  }

  function FieldAdded(rept: set<Sign>, b: Build, s: Sign): Build
    requires b.lv != []
  {
    b.WithTop(Level(b.Top().fields + [Field(s, [])], if s in rept then Some(Arr([], true)) else None))
  }

  lemma Ended(m: Memory, base: Bytes, b: Build)
    requires Represents(m, base, b) && b.lv == []
    ensures m.next == 0 && m.buf == base + b.pend && m.structLen == |b.pend|
  {
    ImageSnoc([], Level([], None));
  }

  lemma NextIdx(m: Memory, base: Bytes, b: Build)
    requires Represents(m, base, b)
    ensures m.next == |b.lv| <= |m.objs|
  {
  }

  /** Writing an array of unsigned integers of width w. */
  method WriteTable(ns: seq<nat>, w: nat) returns (b: Bytes)
    ensures b == Table(ns, w)
  {
    b := [];
    var i := 0;
    while i < |ns|
      invariant 0 <= i <= |ns| && b == Table(ns[..i], w)
    {
      assert ns[..i + 1][..i] == ns[..i];
      b := b + Store(ns[i], w);
      i := i + 1;
    }
    assert ns[..|ns|] == ns;
  }
}
