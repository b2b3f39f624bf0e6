// The record builder as a machine on values: what RecordBuilder does to its open objects and arrays,
// with the bytes of every finished piece kept beside the member or element that owns them.
//
// `lv[i]` stands for m_objs[i] and m_arrs[i]; |lv| is m_next_idx.  `pend` is the struct that was
// packaged last and is not yet accounted to its parent (m_struct_len counts its bytes).  An
// operation is None where the original asserts, and where it would put bytes behind a pending struct
// or give bytes to an element or member that does not exist.

module BuildSpec {
  import opened Wrappers
  import opened Bytes
  import opened Paths
  import opened RowCodec

  /** An open array; `hole` says that its current element has received nothing yet. */
  datatype Arr = Arr(elems: seq<Bytes>, hole: bool)

  datatype Level = Level(fields: seq<Field>, arr: Option<Arr>)

  datatype Build = Build(lv: seq<Level>, pend: Bytes) {
    function Top(): Level
      requires lv != []
    {
      lv[|lv| - 1]
    }

    function WithTop(t: Level): Build
      requires lv != []
    {
      this.(lv := lv[..|lv| - 1] + [t])
    }
  }

  function Start(): Build { Build([Level([], None)], []) }

  // ---- Accounting a value to the last element or member ----

  function AppendVal(elems: seq<Bytes>, v: Bytes): Option<seq<Bytes>> {
    if v == [] then Some(elems)
    else if elems == [] then None
    else Some(elems[..|elems| - 1] + [elems[|elems| - 1] + v])
  }

  function AppendFieldVal(fields: seq<Field>, v: Bytes): Option<seq<Field>> {
    if v == [] then Some(fields)
    else if fields == [] then None
    else
      var f := fields[|fields| - 1];
      Some(fields[..|fields| - 1] + [Field(f.id, f.blob + v)])
  }

  /** The pending struct becomes (part of) the value of the last member. */
  function TakePend(b: Build): Option<Build>
    requires b.lv != []
  {
    var fs :- AppendFieldVal(b.Top().fields, b.pend);
    Some(b.WithTop(b.Top().(fields := fs)).(pend := []))
  }

  // ---- Packaging ----

  /** Elements of an array when its current element is complete: an empty one is put in for a hole, and
      otherwise the pending struct is the element's (or the rest of its) content. */
  function CompleteElems(a: Arr, pend: Bytes): Option<seq<Bytes>> {
    if a.hole then (if pend == [] then Some(a.elems + [[]]) else None)
    else AppendVal(a.elems, pend)
  }

  function PackArr(b: Build): (r: Option<Build>)
    requires b.lv != []
    ensures r.Some? ==> |r.value.lv| == |b.lv|
  {
    match b.Top().arr
    case None => Some(b)
    case Some(a) =>
      var es :- CompleteElems(a, b.pend);
      Some(b.WithTop(b.Top().(arr := None)).(pend := EncodeArray(es)))
  }

  function PackObj(b: Build): (r: Option<Build>)
    requires b.lv != []
    ensures r.Some? ==> |r.value.lv| == |b.lv| - 1
  {
    var fs :- AppendFieldVal(b.Top().fields, b.pend);
    Some(Build(b.lv[..|b.lv| - 1], EncodeObject(fs)))
  }

  function PackTop(b: Build): (r: Option<Build>)
    requires b.lv != []
    ensures r.Some? ==> |r.value.lv| == |b.lv| - 1
  {
    var b1 :- PackArr(b);
    PackObj(b1)
  }

  /** Packages levels from the deepest on until at most k are open. */
  function CloseTo(b: Build, k: nat): (r: Option<Build>)
    ensures r.Some? && |b.lv| >= k ==> |r.value.lv| == k
    ensures |b.lv| <= k ==> r == Some(b)
    decreases |b.lv|
  {
    if |b.lv| <= k then Some(b)
    else
      var b1 :- PackTop(b);
      CloseTo(b1, k)
  }

  /** The part of a forward return behind `return2BuildObject`: the last member is complete. */
  function FinishField(b: Build): (r: Option<Build>)
    requires b.lv != []
    ensures r.Some? ==> |r.value.lv| == |b.lv|
  {
    var b1 :- PackArr(b);
    TakePend(b1)
  }

  // ---- Going down ----

  function AppendField(rept: set<Sign>, b: Build, s: Sign): (r: Option<Build>)
    requires b.lv != []
    ensures r.Some? ==> |r.value.lv| == |b.lv|
  {
    var fields := b.Top().fields;
    if fields != [] && fields[|fields| - 1].id == s then Some(b)
    else
      var b1 :-
        if fields == [] then (if b.pend == [] then Some(b) else None)
        else FinishField(b);
      var t := b1.Top();
      if t.arr.Some? then None
      else Some(b1.WithTop(Level(t.fields + [Field(s, [])], if s in rept then Some(Arr([], true)) else None)))
  }

  function AppendElem(rept: set<Sign>, b: Build, s: Sign): (r: Option<Build>)
    requires b.lv != []
    ensures r.Some? ==> |r.value.lv| == |b.lv|
  {
    if s !in rept then Some(b)
    else match b.Top().arr
      case None => None
      case Some(a) => if b.pend != [] then None else Some(b.WithTop(b.Top().(arr := Some(Arr(a.elems + [[]], false)))))
  }

  function OpenLevel(b: Build): Build {
    b.(lv := b.lv + [Level([], None)])
  }

  /** One level further down: an element of the array here, if it is one, an object, and its first member. */
  function OneLevelDown(rept: set<Sign>, b: Build, p: Path): (r: Option<Build>)
    requires 0 < |b.lv| < |p|
    ensures r.Some? ==> |r.value.lv| == |b.lv| + 1
  {
    if b.pend != [] then None
    else
      var b1 :- AppendElem(rept, b, p[|b.lv| - 1]);
      AppendField(rept, OpenLevel(b1), p[|b.lv|])
  }

  /** Opens objects from the current level down to level d of the path. */
  function Descend(rept: set<Sign>, b: Build, d: nat, p: Path): (r: Option<Build>)
    requires 0 < |b.lv| <= d <= |p|
    ensures r.Some? ==> |r.value.lv| == d
    decreases d - |b.lv|
  {
    if |b.lv| < d then
      var b1 :- OneLevelDown(rept, b, p);
      Descend(rept, b1, d, p)
    else if d == |p| then AppendElem(rept, b, p[d - 1])
    else Some(b)
  }

  /** `move2level`. */
  function Move(rept: set<Sign>, b: Build, d: nat, p: Path, app: bool): (r: Option<Build>)
    requires b.lv != [] && d <= |p|
  {
    var k := |b.lv|;
    if d == 0 || k > d then Some(b)
    else if app then
      match b.Top().arr
      case None => None
      case Some(a) =>
        if b.pend != [] then None
        else if k == |p| then Some(b.WithTop(b.Top().(arr := Some(Arr(a.elems + [[]], false)))))
        else Descend(rept, b.WithTop(b.Top().(arr := Some(Arr(a.elems, true)))), d, p)
    else
      var b1 :- AppendField(rept, b, p[k - 1]);
      Descend(rept, b1, d, p)
  }

  /** `appendLeafValue`. */
  function LeafValue(b: Build, v: Bytes): (r: Option<Build>)
    requires b.lv != []
    ensures r.Some? ==> |r.value.lv| == |b.lv|
  {
    if b.pend != [] then None
    else match b.Top().arr
    case Some(a) =>
      var es :- AppendVal(a.elems, v);
      Some(b.WithTop(b.Top().(arr := Some(a.(elems := es)))))
    case None =>
      var fs :- AppendFieldVal(b.Top().fields, v);
      Some(b.WithTop(b.Top().(fields := fs)))
  }

  // ---- Coming back ----

  /** `return2BuildArray`: closes the element that was built at an array's level. */
  function CloseElem(b: Build, L: nat, p: Path): (r: Option<Build>)
    requires 0 < L <= |p| && L <= |b.lv|
  {
    if |b.lv| == |p| == L then (if b.Top().arr.Some? then Some(b) else None)
    else
      var b1 :- CloseTo(b, L);
      match b1.Top().arr
      case None => None
      case Some(a) =>
        var es :- CompleteElems(a, b1.pend);
        Some(b1.WithTop(b1.Top().(arr := Some(Arr(es, false)))).(pend := []))
  }

  /** `return2level`. */
  function Return(rept: set<Sign>, b: Build, L: nat, p: Path, app: bool): (r: Option<Build>)
    requires L <= |p|
  {
    if app then
      if L == 0 || |b.lv| < L then Some(b)
      else if p[L - 1] !in rept then None
      else CloseElem(b, L, p)
    else if |b.lv| <= L then Some(b)
    else
      var b1 :- CloseTo(b, L + 1);
      FinishField(b1)
  }

  /** `end2build`: the bytes of the record. */
  function Finish(b: Build): Option<Bytes> {
    if |b.lv| != 1 then None
    else
      var b1 :- PackTop(b);
      Some(b1.pend)
  }
}
