// States that the record builder passes through while it builds one field, and what its operations
// do to them.

module BuildFacts {
  import opened Wrappers
  import opened Bytes
  import opened Paths
  import opened RowCodec
  import opened Records
  import opened BuildSpec

  /** The builder stands at the level of field `s` and has not met it yet. */
  ghost predicate Ready(b: Build, s: Sign) {
    && b.lv != []
    && b.pend == []
    && b.Top().arr == None
    && (b.Top().fields != [] ==> b.Top().fields[|b.Top().fields| - 1].id != s)
  }

  function WithField(b: Build, s: Sign, v: Bytes, arr: Option<Arr>): Build
    requires b.lv != []
  {
    b.WithTop(Level(b.Top().fields + [Field(s, v)], arr))
  }

  /** Elements `es` of the array field s are complete and another may follow; with no element yet
      the field has not been met. */
  function Before(b: Build, s: Sign, es: seq<Bytes>): Build
    requires b.lv != []
  {
    if es == [] then b else WithField(b, s, [], Some(Arr(es, false)))
  }

  /** The occurrence of s behind `es` is there, and nothing below it. */
  function Present(rept: set<Sign>, b: Build, s: Sign, es: seq<Bytes>): Build
    requires b.lv != []
  {
    WithField(b, s, [], if s in rept then Some(Arr(es, true)) else None)
  }

  /** The occurrence of s behind `es` has begun to receive bytes. */
  function Deep(rept: set<Sign>, b: Build, s: Sign, es: seq<Bytes>): Build
    requires b.lv != []
  {
    WithField(b, s, [], if s in rept then Some(Arr(es + [[]], false)) else None)
  }

  /** The occurrence of s behind `es` is complete with content `row`, and everything below is packaged. */
  function AfterElem(rept: set<Sign>, b: Build, s: Sign, es: seq<Bytes>, row: Row): Build
    requires b.lv != []
  {
    match row
    case Empty => Present(rept, b, s, es)
    case Leaf(v) =>
      if s in rept then WithField(b, s, [], Some(Arr(es + [v], false)))
      else WithField(b, s, v, None)
    case _ => Deep(rept, b, s, es).(pend := Encode(row))
  }

  /** Field s is complete. */
  function AfterField(b: Build, s: Sign, v: Bytes): Build
    requires b.lv != []
  {
    WithField(b, s, v, None)
  }

  /** An object is open below `low`, with complete members `fs`. */
  function Open(low: Build, fs: seq<Field>): Build {
    Build(low.lv + [Level(fs, None)], [])
  }

  function FinishTo(b: Build, k: nat): Option<Build>
    requires |b.lv| >= k > 0
  {
    var b1 :- CloseTo(b, k);
    FinishField(b1)
  }

  // ---- Moving ----

  lemma AppendFieldNew(rept: set<Sign>, b: Build, s: Sign)
    requires Ready(b, s)
    ensures AppendField(rept, b, s) == Some(Present(rept, b, s, []))
  {
    var t := b.Top();
    assert b.WithTop(t.(fields := t.fields)).(pend := []) == b;
  }

  lemma AppendFieldAgain(rept: set<Sign>, b: Build, s: Sign, es: seq<Bytes>)
    requires b.lv != []
    ensures AppendField(rept, Present(rept, b, s, es), s) == Some(Present(rept, b, s, es))
  {
  }

  lemma AppendElemPresent(rept: set<Sign>, b: Build, s: Sign, es: seq<Bytes>)
    requires b.lv != [] && b.pend == []
    ensures AppendElem(rept, Present(rept, b, s, es), s) == Some(Deep(rept, b, s, es))
  {
  }

  /** What the first half of `Move` makes of a field that is met for the first or a further time. */
  lemma MoveMeets(rept: set<Sign>, b: Build, s: Sign, es: seq<Bytes>, d: nat, p: Path)
    requires Ready(b, s) && |b.lv| <= d <= |p| && p[|b.lv| - 1] == s && (es != [] ==> s in rept)
    requires |b.lv| < |p|
    ensures Move(rept, Before(b, s, es), d, p, es != []) == Descend(rept, Present(rept, b, s, es), d, p)
  {
    if es == [] {
      AppendFieldNew(rept, b, s);
    } else {
      var x := Before(b, s, es);
      assert x.WithTop(x.Top().(arr := Some(Arr(es, true)))) == Present(rept, b, s, es);
    }
  }

  lemma MoveAgain(rept: set<Sign>, b: Build, s: Sign, es: seq<Bytes>, d: nat, p: Path)
    requires b.lv != [] && |b.lv| <= d <= |p| && p[|b.lv| - 1] == s
    ensures Move(rept, Present(rept, b, s, es), d, p, false) == Descend(rept, Present(rept, b, s, es), d, p)
  {
    AppendFieldAgain(rept, b, s, es);
  }

  /** Going deeper passes through the state in which the object below s has just been opened. */
  lemma DescendOpens(rept: set<Sign>, b: Build, s: Sign, es: seq<Bytes>, d: nat, p: Path)
    requires b.lv != [] && |b.lv| < d <= |p| && p[|b.lv| - 1] == s
    ensures Descend(rept, Present(rept, b, s, es), d, p)
         == Move(rept, Open(Deep(rept, b, s, es).(pend := []), []), d, p, false)
    requires b.pend == []
  {
    AppendElemPresent(rept, b, s, es);
    var low := Deep(rept, b, s, es);
    assert OpenLevel(low) == Open(low, []);
  }

  lemma MoveToLeaf(rept: set<Sign>, b: Build, s: Sign, es: seq<Bytes>, p: Path)
    requires Ready(b, s) && |b.lv| == |p| && p[|p| - 1] == s && (es != [] ==> s in rept)
    ensures Move(rept, Before(b, s, es), |p|, p, es != []) == Some(Deep(rept, b, s, es))
  {
    if es == [] {
      AppendFieldNew(rept, b, s);
      AppendElemPresent(rept, b, s, []);
      hide AppendField, AppendElem;
    } else {
      var x := Before(b, s, es);
      assert x.WithTop(x.Top().(arr := Some(Arr(es + [[]], false)))) == Deep(rept, b, s, es);
    }
  }

  lemma LeafIntoArray(rept: set<Sign>, b: Build, s: Sign, es: seq<Bytes>, v: Bytes)
    requires Ready(b, s) && s in rept
    ensures LeafValue(Deep(rept, b, s, es), v) == Some(AfterElem(rept, b, s, es, Leaf(v)))
  {
    hide AppendFieldVal;
    var x := Deep(rept, b, s, es);
    assert (es + [[]])[..|es|] == es;
    assert [] + v == v;
    if v == [] { assert es + [[]] == es + [v]; }
    assert LeafValue(x, v) == Some(x.WithTop(x.Top().(arr := Some(Arr(es + [v], false)))));
  }

  lemma LeafIntoField(rept: set<Sign>, b: Build, s: Sign, v: Bytes)
    requires Ready(b, s) && s !in rept
    ensures LeafValue(Deep(rept, b, s, []), v) == Some(AfterElem(rept, b, s, [], Leaf(v)))
  {
    hide AppendVal;
    var x := Deep(rept, b, s, []);
    var fs := b.Top().fields;
    assert (fs + [Field(s, [])])[..|fs|] == fs;
    assert [] + v == v;
    assert LeafValue(x, v) == Some(x.WithTop(x.Top().(fields := fs + [Field(s, v)])));
  }

  /** Meeting a leaf value. */
  lemma MoveLeaf(rept: set<Sign>, b: Build, s: Sign, es: seq<Bytes>, p: Path, v: Bytes)
    requires Ready(b, s) && |b.lv| == |p| && p[|p| - 1] == s && (es != [] ==> s in rept)
    ensures var m := Move(rept, Before(b, s, es), |p|, p, es != []);
            m.Some? && m.value.lv != [] && LeafValue(m.value, v) == Some(AfterElem(rept, b, s, es, Leaf(v)))
  {
    hide Move, LeafValue, Deep, AfterElem, Before, Ready;
    MoveToLeaf(rept, b, s, es, p);
    DeepOpen(rept, b, s, es);
    if s in rept { LeafIntoArray(rept, b, s, es, v); } else { LeafIntoField(rept, b, s, v); }
  }

  lemma DeepOpen(rept: set<Sign>, b: Build, s: Sign, es: seq<Bytes>)
    requires Ready(b, s)
    ensures Deep(rept, b, s, es).lv != []
  {
  }

  // ---- Closing ----

  lemma CloseStep(b: Build, k: nat)
    requires |b.lv| > k
    ensures CloseTo(b, k) == match CloseTo(b, k + 1) case None => None case Some(x) => PackTop(x)
    decreases |b.lv|
  {
    if |b.lv| > k + 1 {
      match PackTop(b)
      case None =>
      case Some(b1) => CloseStep(b1, k);
    } else {
      match PackTop(b)
      case None =>
      case Some(b1) => assert CloseTo(b1, k) == Some(b1);
    }
  }

  /** Packaging a level whose last member has been finished is packaging the level. */
  lemma PackFinished(x: Build)
    requires x.lv != [] && FinishField(x).Some?
    ensures PackTop(x) == PackTop(FinishField(x).value)
  {
    var x1 := PackArr(x).value;
    var y := TakePend(x1).value;
    assert y.Top().arr == None && y.pend == [];
    assert y.lv[..|y.lv| - 1] == x1.lv[..|x1.lv| - 1];
  }

  /** Closing below an object whose members are finished leaves its bytes pending. */
  lemma CloseFinished(b: Build, low: Build, fs: seq<Field>)
    requires |b.lv| > |low.lv| && FinishTo(b, |low.lv| + 1) == Some(Open(low, fs))
    ensures CloseTo(b, |low.lv|) == Some(Build(low.lv, EncodeObject(fs)))
  {
    var k := |low.lv|;
    CloseStep(b, k);
    var x := CloseTo(b, k + 1).value;
    PackFinished(x);
    var y := Open(low, fs);
    assert y.lv[..|y.lv| - 1] == low.lv;
  }

  /** A finished level has nothing to finish. */
  lemma FinishOpen(low: Build, fs: seq<Field>)
    ensures FinishField(Open(low, fs)) == Some(Open(low, fs))
    ensures FinishTo(Open(low, fs), |low.lv| + 1) == Some(Open(low, fs))
  {
    var y := Open(low, fs);
    assert y.WithTop(y.Top().(fields := fs)).(pend := []) == y;
  }

  /** The end of a single occurrence finishes the field. */
  lemma FinishSingle(rept: set<Sign>, b: Build, s: Sign, row: Row)
    requires b.lv != [] && b.pend == [] && s !in rept && !row.Array?
    ensures FinishField(AfterElem(rept, b, s, [], row)) == Some(AfterField(b, s, Encode(row)))
  {
    var x := AfterElem(rept, b, s, [], row);
    var fs := b.Top().fields;
    var v := x.Top().fields[|fs|].blob;
    assert (fs + [Field(s, v)])[..|fs|] == fs;
    assert [] + x.pend == x.pend;
    if x.pend == [] {
      assert x.WithTop(x.Top().(fields := x.Top().fields)).(pend := []) == x;
    }
  }

  /** The end of the last element packages the array and finishes the field. */
  lemma FinishArray(rept: set<Sign>, b: Build, s: Sign, es: seq<Bytes>, row: Row)
    requires b.lv != [] && b.pend == [] && s in rept && !row.Array?
    ensures FinishField(AfterElem(rept, b, s, es, row))
         == Some(AfterField(b, s, EncodeArray(es + [Encode(row)])))
  {
    var x := AfterElem(rept, b, s, es, row);
    var fs := b.Top().fields;
    var v := EncodeArray(es + [Encode(row)]);
    if row.Object? {
      assert (es + [[]])[..|es|] == es;
      assert [] + x.pend == x.pend;
    }
    assert PackArr(x) == Some(WithField(b, s, [], None).(pend := v));
    var y := PackArr(x).value;
    assert (fs + [Field(s, [])])[..|fs|] == fs;
    assert [] + v == v;
  }

  /** The end of an element makes room for the next one. */
  lemma CloseElemNext(rept: set<Sign>, b: Build, s: Sign, es: seq<Bytes>, row: Row, x: Build, p: Path)
    requires b.lv != [] && b.pend == [] && s in rept && !row.Array? && |b.lv| <= |p|
    requires |x.lv| >= |b.lv| && CloseTo(x, |b.lv|) == Some(AfterElem(rept, b, s, es, row))
    requires |p| == |b.lv| ==> |x.lv| == |b.lv| && row.Leaf?
    ensures CloseElem(x, |b.lv|, p) == Some(Before(b, s, es + [Encode(row)]))
  {
    var y := AfterElem(rept, b, s, es, row);
    var a := y.Top().arr.value;
    var z := Before(b, s, es + [Encode(row)]);
    if |p| == |b.lv| {
      assert x == y == z;
    } else {
      var elems := if a.hole then a.elems + [[]] else a.elems;
      assert |elems| == |es| + 1 && elems[..|es|] == es;
      if row.Object? { assert [] + y.pend == y.pend; }
      if y.pend == [] { assert elems == es + [Encode(row)]; }
      assert AppendVal(elems, y.pend) == Some(es + [Encode(row)]);
      assert y.WithTop(y.Top().(arr := Some(Arr(es + [Encode(row)], false)))).(pend := []) == z;
    }
  }
}
