// Typed records, the items a record leaves in a column, and the row a set of columns can rebuild.

module Records {
  import opened Wrappers
  import opened Bytes
  import opened Paths
  import RowCodec

  /** A record after its members have been matched to schema nodes.  Members without content
      (null, {} and []) have already been dropped. */
  datatype Value =
    | Prim(bin: Bytes)
    | Obj(members: seq<Member>)
    | Rep(elems: seq<Value>)

  datatype Member = Member(sign: Sign, val: Value)

  /** A column item: repetition level, definition level, value. */
  datatype Item = Item(rep: nat, def: nat, val: Option<Bytes>)

  /** The member of an object that belongs to schema node `s`. */
  function Find(ms: seq<Member>, s: Sign): (r: Option<Value>)
    ensures r.Some? ==> Member(s, r.value) in ms
    ensures r.None? ==> forall m :: m in ms ==> m.sign != s
  {
    if ms == [] then None
    else if ms[0].sign == s then Some(ms[0].val)
    else Find(ms[1..], s)
  }

  // ---- Records that agree with the schema along a path ----

  /** `v` is one occurrence of the node at level L of p: a leaf value, or an object. */
  ghost predicate FitsElem(rept: set<Sign>, v: Value, p: Path, L: nat)
    requires L <= |p|
    decreases v, 1
  {
    if L == |p| then v.Prim?
    else v.Obj? && FitsObject(rept, v, p, L)
  }

  ghost predicate FitsObject(rept: set<Sign>, v: Value, p: Path, L: nat)
    requires L < |p| && v.Obj?
    decreases v, 0
  {
    var m := Find(v.members, p[L]);
    m.Some? ==> FitsField(rept, m.value, p, L + 1)
  }

  /** `v` is the content of the field for the node at level L of p: all elements of an array
      (never empty, never an array again), or the one occurrence of a single node. */
  ghost predicate FitsField(rept: set<Sign>, v: Value, p: Path, L: nat)
    requires 0 < L <= |p|
    decreases v, 2
  {
    if p[L - 1] in rept then
      && v.Rep?
      && v.elems != []
      && forall i :: 0 <= i < |v.elems| ==> FitsElem(rept, v.elems[i], p, L)
    else FitsElem(rept, v, p, L)
  }

  // ---- Striping: the items of one column, by recursion on the record ----

  function StripeElem(v: Value, p: Path, L: nat, rep: nat): (items: seq<Item>)
    requires L <= |p|
    ensures items != [] && items[0].rep == rep && L <= items[0].def <= |p|
    decreases v, 1
  {
    if L < |p| && v.Obj? then StripeObject(v, p, L, rep)
    else [Item(rep, L, if v.Prim? then Some(v.bin) else None)]
  }

  /** An object that has no member for the next node of the path leaves one item without value. */
  function StripeObject(v: Value, p: Path, L: nat, rep: nat): (items: seq<Item>)
    requires L < |p| && v.Obj?
    ensures items != [] && items[0].rep == rep && L <= items[0].def <= |p|
    ensures (items[0].def > L) == Find(v.members, p[L]).Some?
    decreases v, 0
  {
    match Find(v.members, p[L])
    case None => [Item(rep, L, None)]
    case Some(w) => StripeField(w, p, L + 1, rep)
  }

  function StripeField(v: Value, p: Path, L: nat, rep: nat): (items: seq<Item>)
    requires 0 < L <= |p|
    ensures items != [] && items[0].rep == rep && L <= items[0].def <= |p|
    decreases v, 2
  {
    if v.Rep? && v.elems != [] then
      StripeElem(v.elems[0], p, L, rep) + StripeElems(v, 1, p, L)
    else StripeElem(v, p, L, rep)
  }

  /** Elements of an array from the i-th on; every one of them repeats at the array's level. */
  function StripeElems(v: Value, i: nat, p: Path, L: nat): (items: seq<Item>)
    requires L <= |p| && v.Rep? && i <= |v.elems|
    ensures i < |v.elems| ==> items != [] && items[0].rep == L
    decreases v, 1, |v.elems| - i
  {
    if i == |v.elems| then []
    else StripeElem(v.elems[i], p, L, L) + StripeElems(v, i + 1, p, L)
  }

  // ---- Projection: the row that the selected columns can express ----

  datatype Row =
    | Empty                       // a node that is there, with nothing selected below it: no bytes
    | Leaf(bin: Bytes)
    | Object(fields: seq<RowField>)
    | Array(elems: seq<Row>)

  datatype RowField = RowField(id: Sign, row: Row)

  /** One occurrence of the node at level L whose columns are [lo, hi). */
  function ProjectElem(P: Plan, v: Value, L: nat, lo: nat, hi: nat): Row
    requires lo < hi <= |P.paths|
    decreases v, 1
  {
    match v
    case Prim(b) => Leaf(b)
    case Rep(_) => Empty
    case Obj(_) =>
      var fs := ProjectMembers(P, v, L, lo, hi);
      if fs == [] then Empty else Object(fs)
  }

  /** The members of an object for the children of a node, in the order of the columns [c, hi). */
  function ProjectMembers(P: Plan, v: Value, L: nat, c: nat, hi: nat): seq<RowField>
    requires c <= hi <= |P.paths| && v.Obj?
    decreases v, 0, hi - c
  {
    if c == hi || L >= |P.paths[c]| then []
    else
      var s := P.paths[c][L];
      var g := P.GroupEnd(L + 1, c);
      var e := if g <= hi then g else hi;
      var rest := ProjectMembers(P, v, L, e, hi);
      match Find(v.members, s)
      case None => rest
      case Some(w) => [RowField(s, ProjectField(P, w, L + 1, c, e))] + rest
  }

  function ProjectField(P: Plan, v: Value, L: nat, lo: nat, hi: nat): Row
    requires lo < hi <= |P.paths|
    decreases v, 2
  {
    if v.Rep? then
      Array(seq(|v.elems|, i requires 0 <= i < |v.elems| => ProjectElem(P, v.elems[i], L, lo, hi)))
    else ProjectElem(P, v, L, lo, hi)
  }

  /** The row of a whole record: always an object, even one without members. */
  function Project(P: Plan, v: Value): Row
    requires v.Obj?
  {
    Object(ProjectMembers(P, v, 0, 0, |P.paths|))
  }

  // ---- Bytes of a row ----

  function Encode(r: Row): Bytes
    decreases r, 1
  {
    match r
    case Empty => []
    case Leaf(b) => b
    case Object(fs) => RowCodec.EncodeObject(EncodeFields(fs))
    case Array(es) => RowCodec.EncodeArray(EncodeElems(es))
  }

  function EncodeField(f: RowField): RowCodec.Field
    decreases f, 0
  {
    RowCodec.Field(f.id, Encode(f.row))
  }

  function EncodeFields(fs: seq<RowField>): (r: seq<RowCodec.Field>)
    ensures |r| == |fs|
    decreases fs, 0
  {
    seq(|fs|, i requires 0 <= i < |fs| => EncodeField(fs[i]))
  }

  function EncodeElems(es: seq<Row>): (r: seq<Bytes>)
    ensures |r| == |es|
    decreases es, 0
  {
    seq(|es|, i requires 0 <= i < |es| => Encode(es[i]))
  }
}
