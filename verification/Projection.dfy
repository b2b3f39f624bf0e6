// The projected row: its members are in signature order, and it keeps everything that the selected
// columns hold.

module Projection {
  import opened Wrappers
  import opened Bytes
  import opened Paths
  import opened Records
  import opened RoundTrip
  import opened RowReader

  // ---- Members of a projected object ----

  ghost predicate FieldsGrow(fs: seq<RowField>) {
    forall i, j :: 0 <= i < j < |fs| ==> fs[i].id < fs[j].id
  }

  function FindField(fs: seq<RowField>, s: Sign): (r: Option<Row>)
    ensures r.Some? ==> RowField(s, r.value) in fs
    ensures r.None? ==> forall f :: f in fs ==> f.id != s
  {
    if fs == [] then None
    else if fs[0].id == s then Some(fs[0].row)
    else FindField(fs[1..], s)
  }

  /** The next signature never falls along the columns that share a node. */
  lemma NodeMonotone(P: Plan, L: nat, c: nat, hi: nat, k: nat)
    requires P.Valid() && P.Shares(L, c, hi) && c <= k < hi && L < |P.paths[c]|
    ensures L < |P.paths[k]| && P.paths[c][L] <= P.paths[k][L]
  {
    P.InnerGroup(L, c, hi, k);
    if c < k {
      var p, q := P.paths[c], P.paths[k];
      LcpAtLeast(p, q, L);
      LcpPrefix(p, q);
      if Lcp(p, q) > L {
        assert p[..Lcp(p, q)][L] == q[..Lcp(p, q)][L];
      }
    }
  }

  lemma {:induction false} MembersGrow(P: Plan, v: Value, L: nat, c: nat, hi: nat)
    requires P.Valid() && v.Obj? && c <= hi <= |P.paths| && (c < hi ==> P.GroupTail(L, c, hi))
    ensures FieldsGrow(ProjectMembers(P, v, L, c, hi))
    ensures forall f :: f in ProjectMembers(P, v, L, c, hi) ==>
              c < hi && L < |P.paths[c]| && P.paths[c][L] <= f.id
    decreases hi - c
  {
    if c < hi && L < |P.paths[c]| {
      hide Plan.Valid, Plan.Group, Plan.Shares, Plan.GroupTail, Plan.GroupEnd, Plan.Left, ProjectField;
      P.ChildGroup(L, c, hi);
      var e := P.GroupEnd(L + 1, c);
      MembersGrow(P, v, L, e, hi);
      if e < hi {
        P.ChildrenGrow(L, c, e);
      }
    }
  }

  /** A selected node's member is in the projected object exactly when the record has it, with the
      projection of its content on the columns below the node. */
  lemma {:induction false} MemberOf(P: Plan, v: Value, L: nat, c: nat, hi: nat, k: nat) returns (lo: nat, e: nat)
    requires P.Valid() && v.Obj? && P.GroupTail(L, c, hi) && c <= k < hi && L < |P.paths[k]|
    ensures lo <= k < e <= |P.paths| && P.Group(L + 1, lo, e)
    ensures FindField(ProjectMembers(P, v, L, c, hi), P.paths[k][L])
         == match Find(v.members, P.paths[k][L])
            case None => None
            case Some(w) => Some(ProjectField(P, w, L + 1, lo, e))
    decreases hi - c
  {
    TailInner(P, L, c, hi, k);
    P.ChildGroup(L, c, hi);
    hide Plan.Valid, Plan.Group, Plan.Shares, Plan.GroupTail, Plan.Left, ProjectField, ProjectMembers, FindField;
    var g := P.GroupEnd(L + 1, c);
    FirstChild(P, v, L, c, hi);
    MembersGrow(P, v, L, g, hi);
    if k < g {
      lo, e := c, g;
      ChildSign(P, L, c, g, k);
      if g < hi {
        P.ChildrenGrow(L, c, g);
      }
      HeadFound(ProjectMembers(P, v, L, g, hi), P.paths[c][L]);
    } else {
      lo, e := MemberOf(P, v, L, g, hi, k);
      P.ChildrenGrow(L, c, g);
      TailMonotone(P, L, g, hi, k);
      TailFound(ProjectMembers(P, v, L, g, hi), P.paths[c][L], P.paths[k][L]);
    }
  }

  /** The members of a column range are that of the first child, if it is there, and the later ones. */
  lemma FirstChild(P: Plan, v: Value, L: nat, c: nat, hi: nat)
    requires v.Obj? && c < hi <= |P.paths| && L < |P.paths[c]| && P.GroupEnd(L + 1, c) <= hi
    ensures ProjectMembers(P, v, L, c, hi)
         == (match Find(v.members, P.paths[c][L])
             case None => []
             case Some(w) => [RowField(P.paths[c][L], ProjectField(P, w, L + 1, c, P.GroupEnd(L + 1, c)))])
            + ProjectMembers(P, v, L, P.GroupEnd(L + 1, c), hi)
  {
    hide ProjectField, Plan.GroupEnd;
  }

  lemma HeadFound(rest: seq<RowField>, s: Sign)
    requires forall f :: f in rest ==> s < f.id
    ensures FindField([] + rest, s) == None
    ensures forall row :: FindField([RowField(s, row)] + rest, s) == Some(row)
  {
    assert [] + rest == rest;
  }

  lemma TailFound(rest: seq<RowField>, s: Sign, t: Sign)
    requires s != t
    ensures FindField([] + rest, t) == FindField(rest, t)
    ensures forall row :: FindField([RowField(s, row)] + rest, t) == FindField(rest, t)
  {
    assert [] + rest == rest;
    assert forall row :: ([RowField(s, row)] + rest)[1..] == rest;
  }

  lemma ChildSign(P: Plan, L: nat, c: nat, g: nat, k: nat)
    requires P.Group(L + 1, c, g) && c <= k < g
    ensures L < |P.paths[k]| && L < |P.paths[c]| && P.paths[k][L] == P.paths[c][L]
  {
    P.SharesNode(L + 1, c, g, k, L);
  }

  lemma TailInner(P: Plan, L: nat, c: nat, hi: nat, k: nat)
    requires P.Valid() && P.GroupTail(L, c, hi) && c <= k < hi && L < |P.paths[k]|
    ensures L < |P.paths[c]|
  {
    if c < k && |P.paths[c]| == L {
      var p, q := P.paths[c], P.paths[k];
      assert Less(p, q);
      LcpAtLeast(p, q, L);
    }
  }

  lemma TailMonotone(P: Plan, L: nat, c: nat, hi: nat, k: nat)
    requires P.Valid() && P.GroupTail(L, c, hi) && c <= k < hi && L < |P.paths[c]|
    ensures L < |P.paths[k]| && P.paths[c][L] <= P.paths[k][L]
  {
    NodeMonotone(P, L, c, hi, k);
  }

  // ---- Order of the members at every depth ----

  /** Objects at any depth have strictly growing ids. */
  ghost predicate Sorted(r: Row)
    decreases r, 1
  {
    match r
    case Object(fs) => FieldsGrow(fs) && forall i :: 0 <= i < |fs| ==> SortedField(fs[i])
    case Array(es) => forall i :: 0 <= i < |es| ==> Sorted(es[i])
    case _ => true
  }

  ghost predicate SortedField(f: RowField)
    decreases f, 0
  {
    Sorted(f.row)
  }

  lemma {:induction false} MembersSorted(P: Plan, v: Value, L: nat, c: nat, hi: nat)
    requires P.Valid() && v.Obj? && c <= hi <= |P.paths| && (c < hi ==> P.GroupTail(L, c, hi))
    ensures forall f :: f in ProjectMembers(P, v, L, c, hi) ==> SortedField(f)
    decreases v, 0, hi - c
  {
    if c < hi && L < |P.paths[c]| {
      hide Plan.Valid, Plan.Group, Plan.Shares, Plan.GroupTail, Plan.GroupEnd, Plan.Left, ProjectField, Sorted;
      P.ChildGroup(L, c, hi);
      var e := P.GroupEnd(L + 1, c);
      MembersSorted(P, v, L, e, hi);
      match Find(v.members, P.paths[c][L])
      case None =>
      case Some(w) =>
        FieldSorted(P, w, L + 1, c, e);
    }
  }

  lemma {:induction false} FieldSorted(P: Plan, w: Value, L: nat, lo: nat, hi: nat)
    requires P.Valid() && P.Group(L, lo, hi)
    ensures Sorted(ProjectField(P, w, L, lo, hi))
    decreases w, 2
  {
    hide Plan.Valid, ProjectElem;
    if w.Rep? {
      forall i | 0 <= i < |w.elems|
        ensures Sorted(ProjectElem(P, w.elems[i], L, lo, hi))
      {
        ElemSorted(P, w.elems[i], L, lo, hi);
      }
    } else {
      ElemSorted(P, w, L, lo, hi);
    }
  }

  lemma {:induction false} ElemSorted(P: Plan, v: Value, L: nat, lo: nat, hi: nat)
    requires P.Valid() && P.Group(L, lo, hi)
    ensures Sorted(ProjectElem(P, v, L, lo, hi))
    decreases v, 1
  {
    if v.Obj? {
      P.GroupIsTail(L, lo, hi);
      hide Plan.Valid, Plan.Group, ProjectMembers, FieldsGrow, Plan.GroupTail;
      MembersGrow(P, v, L, lo, hi);
      MembersSorted(P, v, L, lo, hi);
    }
  }

  /** Every object of an assembled row has its members in strictly growing order of their ids. */
  lemma ProjectSorted(P: Plan, v: Value)
    requires P.Valid() && v.Obj?
    ensures Sorted(Project(P, v))
  {
    if P.paths != [] {
      P.RootGroup();
      P.GroupIsTail(0, 0, |P.paths|);
    }
    hide ProjectMembers, FieldsGrow, Plan.Group, Plan.GroupTail, Plan.Valid;
    MembersGrow(P, v, 0, 0, |P.paths|);
    MembersSorted(P, v, 0, 0, |P.paths|);
  }

  // ---- The row as a record ----

  /** A row read as a record: a node without bytes is an object without members. */
  function AsValue(r: Row): Value
    decreases r, 1
  {
    match r
    case Empty => Obj([])
    case Leaf(b) => Prim(b)
    case Object(fs) => Obj(AsMembers(fs))
    case Array(es) => Rep(AsElems(es))
  }

  function AsMembers(fs: seq<RowField>): (ms: seq<Member>)
    ensures |ms| == |fs|
    decreases fs, 0
  {
    if fs == [] then [] else [AsMember(fs[0])] + AsMembers(fs[1..])
  }

  function AsMember(f: RowField): Member
    decreases f, 0
  {
    Member(f.id, AsValue(f.row))
  }

  function AsElems(es: seq<Row>): (vs: seq<Value>)
    ensures |vs| == |es|
    decreases es, 0
  {
    seq(|es|, i requires 0 <= i < |es| => AsValue(es[i]))
  }

  lemma {:induction false} FindAs(fs: seq<RowField>, s: Sign)
    ensures Find(AsMembers(fs), s)
         == match FindField(fs, s) case None => None case Some(r) => Some(AsValue(r))
  {
    if fs != [] {
      hide AsValue;
      FindAs(fs[1..], s);
      assert AsMembers(fs)[1..] == AsMembers(fs[1..]);
    }
  }

  /** The record fits column k in what is below the node at level L. */
  ghost predicate Elem(P: Plan, v: Value, L: nat, lo: nat, hi: nat, k: nat) {
    && P.Valid() && P.Group(L, lo, hi) && lo <= k < hi
    && L <= |P.paths[k]| && FitsElem(P.rept, v, P.paths[k], L)
  }

  ghost predicate Object(P: Plan, v: Value, L: nat, lo: nat, hi: nat, k: nat) {
    && P.Valid() && P.GroupTail(L, lo, hi) && lo <= k < hi
    && L < |P.paths[k]| && v.Obj? && FitsObject(P.rept, v, P.paths[k], L)
  }

  ghost predicate Field(P: Plan, w: Value, L: nat, lo: nat, hi: nat, k: nat) {
    && P.Valid() && P.Group(L, lo, hi) && lo <= k < hi
    && 0 < L <= |P.paths[k]| && FitsField(P.rept, w, P.paths[k], L)
  }

  /** What striping sees of an object's members in column k. */
  ghost predicate SameObject(P: Plan, v: Value, u: Value, L: nat, k: nat) {
    && k < |P.paths| && L < |P.paths[k]| && v.Obj? && u.Obj?
    && FitsObject(P.rept, u, P.paths[k], L)
    && forall rep: nat :: StripeObject(u, P.paths[k], L, rep) == StripeObject(v, P.paths[k], L, rep)
  }

  ghost predicate SameElem(P: Plan, v: Value, u: Value, L: nat, k: nat) {
    && k < |P.paths| && L <= |P.paths[k]|
    && FitsElem(P.rept, u, P.paths[k], L)
    && forall rep: nat :: StripeElem(u, P.paths[k], L, rep) == StripeElem(v, P.paths[k], L, rep)
  }

  ghost predicate SameField(P: Plan, v: Value, u: Value, L: nat, k: nat) {
    && k < |P.paths| && 0 < L <= |P.paths[k]|
    && FitsField(P.rept, u, P.paths[k], L)
    && forall rep: nat :: StripeField(u, P.paths[k], L, rep) == StripeField(v, P.paths[k], L, rep)
  }

  lemma {:induction false} RestripeObject(P: Plan, v: Value, L: nat, lo: nat, hi: nat, k: nat)
    requires Object(P, v, L, lo, hi, k)
    ensures SameObject(P, v, Obj(AsMembers(ProjectMembers(P, v, L, lo, hi))), L, k)
    decreases v, 0
  {
    var p, fs := P.paths[k], ProjectMembers(P, v, L, lo, hi);
    var s := p[L];
    var clo, che := MemberOf(P, v, L, lo, hi, k);
    FindAs(fs, s);
    hide Plan.Valid, ProjectMembers, FitsField, StripeField, AsMembers, AsValue, ProjectField;
    var u := Obj(AsMembers(fs));
    match Find(v.members, s)
    case None =>
    case Some(w) =>
      RestripeField(P, w, L + 1, clo, che, k);
      assert FitsObject(P.rept, u, p, L);
      var field := AsValue(ProjectField(P, w, L + 1, clo, che));
      assert forall rep: nat :: StripeObject(u, p, L, rep) == StripeField(field, p, L + 1, rep);
      assert forall rep: nat :: StripeObject(v, p, L, rep) == StripeField(w, p, L + 1, rep);
  }

  lemma {:induction false} RestripeField(P: Plan, w: Value, L: nat, lo: nat, hi: nat, k: nat)
    requires Field(P, w, L, lo, hi, k)
    ensures SameField(P, w, AsValue(ProjectField(P, w, L, lo, hi)), L, k)
    decreases w, 2
  {
    hide Plan.Valid, FitsElem, StripeElem, ProjectElem, StripeElems, FitsField;
    var p, u := P.paths[k], AsValue(ProjectField(P, w, L, lo, hi));
    FieldShape(P.rept, w, p, L);
    if w.Rep? {
      forall i | 0 <= i < |w.elems|
        ensures SameElem(P, w.elems[i], u.elems[i], L, k)
      {
        RestripeElem(P, w.elems[i], L, lo, hi, k);
        ProjectedAt(P, w, L, lo, hi, i);
      }
      ArrayField(P, w, u, L, k);
    } else {
      ProjectedElem(P, w, L, lo, hi);
      RestripeElem(P, w, L, lo, hi, k);
      SingleField(P, w, u, L, k);
    }
  }

  lemma FieldShape(rept: set<Sign>, w: Value, p: Path, L: nat)
    requires 0 < L <= |p| && FitsField(rept, w, p, L)
    ensures w.Rep? <==> p[L - 1] in rept
    ensures w.Rep? ==> w.elems != [] && forall i :: 0 <= i < |w.elems| ==> FitsElem(rept, w.elems[i], p, L)
    ensures !w.Rep? ==> FitsElem(rept, w, p, L)
  {
  }

  lemma ProjectedAt(P: Plan, w: Value, L: nat, lo: nat, hi: nat, i: nat)
    requires lo < hi <= |P.paths| && w.Rep? && i < |w.elems|
    ensures var u := AsValue(ProjectField(P, w, L, lo, hi));
            u.Rep? && |u.elems| == |w.elems| && u.elems[i] == AsValue(ProjectElem(P, w.elems[i], L, lo, hi))
  {
    var row := ProjectField(P, w, L, lo, hi);
    assert AsValue(row) == Rep(AsElems(row.elems));
    assert row.elems[i] == ProjectElem(P, w.elems[i], L, lo, hi);
    assert AsElems(row.elems)[i] == AsValue(row.elems[i]);
  }

  lemma ProjectedElem(P: Plan, v: Value, L: nat, lo: nat, hi: nat)
    requires lo < hi <= |P.paths|
    ensures !AsValue(ProjectElem(P, v, L, lo, hi)).Rep?
  {
  }

  lemma SingleField(P: Plan, w: Value, u: Value, L: nat, k: nat)
    requires SameElem(P, w, u, L, k) && !w.Rep? && !u.Rep?
    requires L > 0 && P.paths[k][L - 1] !in P.rept
    ensures SameField(P, w, u, L, k)
  {
    hide StripeElem, FitsElem;
    assert forall rep: nat :: StripeField(u, P.paths[k], L, rep) == StripeElem(u, P.paths[k], L, rep);
    assert forall rep: nat :: StripeField(w, P.paths[k], L, rep) == StripeElem(w, P.paths[k], L, rep);
  }

  lemma ArrayField(P: Plan, w: Value, u: Value, L: nat, k: nat)
    requires w.Rep? && u.Rep? && |u.elems| == |w.elems| > 0
    requires forall j :: 0 <= j < |w.elems| ==> SameElem(P, w.elems[j], u.elems[j], L, k)
    requires k < |P.paths| && 0 < L <= |P.paths[k]| && P.paths[k][L - 1] in P.rept
    ensures SameField(P, w, u, L, k)
  {
    hide StripeElem, FitsElem;
    RestripeElems(P, w, u, 1, L, k);
    assert SameElem(P, w.elems[0], u.elems[0], L, k);
    var p := P.paths[k];
    assert forall rep: nat :: StripeField(u, p, L, rep) == StripeElem(u.elems[0], p, L, rep) + StripeElems(u, 1, p, L);
    assert forall rep: nat :: StripeField(w, p, L, rep) == StripeElem(w.elems[0], p, L, rep) + StripeElems(w, 1, p, L);
    assert forall j :: 0 <= j < |u.elems| ==> SameElem(P, w.elems[j], u.elems[j], L, k);
  }

  lemma {:induction false} RestripeElems(P: Plan, w: Value, u: Value, i: nat, L: nat, k: nat)
    requires w.Rep? && u.Rep? && |u.elems| == |w.elems| && i <= |w.elems|
    requires forall j :: 0 <= j < |w.elems| ==> SameElem(P, w.elems[j], u.elems[j], L, k)
    requires k < |P.paths| && L <= |P.paths[k]|
    ensures StripeElems(u, i, P.paths[k], L) == StripeElems(w, i, P.paths[k], L)
    decreases |w.elems| - i
  {
    hide StripeElem, FitsElem;
    if i < |w.elems| {
      assert SameElem(P, w.elems[i], u.elems[i], L, k);
      RestripeElems(P, w, u, i + 1, L, k);
    }
  }

  lemma {:induction false} RestripeElem(P: Plan, v: Value, L: nat, lo: nat, hi: nat, k: nat)
    requires Elem(P, v, L, lo, hi, k)
    ensures SameElem(P, v, AsValue(ProjectElem(P, v, L, lo, hi)), L, k)
    decreases v, 1
  {
    if L < |P.paths[k]| {
      P.GroupIsTail(L, lo, hi);
      hide Plan.Valid, ProjectMembers, FitsObject, StripeObject;
      RestripeObject(P, v, L, lo, hi, k);
      assert AsValue(ProjectElem(P, v, L, lo, hi)) == Obj(AsMembers(ProjectMembers(P, v, L, lo, hi)));
      hide *;
      ObjectElem(P, v, Obj(AsMembers(ProjectMembers(P, v, L, lo, hi))), L, k);
    } else {
      assert v.Prim? && AsValue(ProjectElem(P, v, L, lo, hi)) == v;
    }
  }

  lemma ObjectElem(P: Plan, v: Value, u: Value, L: nat, k: nat)
    requires SameObject(P, v, u, L, k)
    ensures SameElem(P, v, u, L, k)
  {
    assert forall rep: nat :: StripeElem(u, P.paths[k], L, rep) == StripeObject(u, P.paths[k], L, rep);
    assert forall rep: nat :: StripeElem(v, P.paths[k], L, rep) == StripeObject(v, P.paths[k], L, rep);
    hide StripeObject;
  }

  /** The projection keeps all that the selected columns hold: read as a record again it conforms to the
      same schema and leaves the same items in each of them. */
  lemma RestripeRecord(P: Plan, v: Value)
    requires P.Valid() && Conforms(P, v)
    ensures Conforms(P, AsValue(Project(P, v)))
    ensures StripeRecord(P, AsValue(Project(P, v))) == StripeRecord(P, v)
  {
    var u := AsValue(Project(P, v));
    forall k | 0 <= k < |P.paths|
      ensures SameObject(P, v, u, 0, k)
    {
      P.RootGroup();
      P.GroupIsTail(0, 0, |P.paths|);
      RestripeObject(P, v, 0, 0, |P.paths|, k);
    }
    hide ProjectMembers, FitsObject, StripeObject, Project, AsValue;
    IsObject(P, v);
    forall k | 0 <= k < |P.paths|
      ensures P.paths[k] != [] && FitsObject(P.rept, u, P.paths[k], 0)
      ensures StripeRecord(P, u)[k] == StripeRecord(P, v)[k]
    {
      assert SameObject(P, v, u, 0, k);
    }
  }

  lemma IsObject(P: Plan, v: Value)
    requires v.Obj?
    ensures AsValue(Project(P, v)).Obj?
  {
  }

  // ---- Looking up a member of an assembled object ----

  /** Some column of [c, hi) goes through the child s of its node at level L. */
  ghost predicate Chosen(P: Plan, L: nat, c: nat, hi: nat, s: Sign) {
    exists k :: c <= k < hi <= |P.paths| && Through(P.paths[k], L, s)
  }

  predicate Through(p: Path, L: nat, s: Sign) { L < |p| && p[L] == s }

  lemma {:induction false} MembersChosen(P: Plan, v: Value, L: nat, c: nat, hi: nat, f: RowField)
    requires v.Obj? && c <= hi <= |P.paths| && (c < hi ==> P.GroupTail(L, c, hi))
    requires f in ProjectMembers(P, v, L, c, hi)
    ensures Chosen(P, L, c, hi, f.id)
    decreases hi - c
  {
    hide Plan.Group, Plan.Shares, Plan.GroupTail, Plan.GroupEnd, Plan.Left, ProjectField;
    assert Through(P.paths[c], L, P.paths[c][L]);
    P.ChildGroup(L, c, hi);
    var e := P.GroupEnd(L + 1, c);
    if f.id != P.paths[c][L] {
      MembersChosen(P, v, L, e, hi, f);
    }
  }

  /** A member is in the projected object exactly when it is selected and the record has it. */
  lemma MembersExact(P: Plan, v: Value, L: nat, c: nat, hi: nat, s: Sign)
    requires P.Valid() && v.Obj? && c <= hi <= |P.paths| && (c < hi ==> P.GroupTail(L, c, hi))
    ensures FindField(ProjectMembers(P, v, L, c, hi), s).Some? <==> Chosen(P, L, c, hi, s) && Find(v.members, s).Some?
  {
    var fs := ProjectMembers(P, v, L, c, hi);
    hide ProjectMembers, Plan.Group, Plan.GroupTail, Plan.Valid, FindField;
    if FindField(fs, s).Some? {
      MembersChosen(P, v, L, c, hi, RowField(s, FindField(fs, s).value));
    }
    if Chosen(P, L, c, hi, s) {
      var k :| c <= k < hi <= |P.paths| && Through(P.paths[k], L, s);
      var lo, e := MemberOf(P, v, L, c, hi, k);
    }
  }

  lemma ShownIdsGrow(m: Bytes, at: nat, len: int, fs: seq<RowField>)
    requires Shows(m, at, len, Row.Object(fs)) && FieldsGrow(fs)
    ensures IdsGrow(m, at) && ElemNum(m, at) == |fs|
    ensures forall i :: 0 <= i < |fs| ==> ShowsField(m, at, i, fs[i])
  {
    forall i, j | 0 <= i < j < ElemNum(m, at)
      ensures RowId(m, at, i) < RowId(m, at, j)
    {
      assert ShowsField(m, at, i, fs[i]) && ShowsField(m, at, j, fs[j]);
    }
  }

  /** Looks up a member of an assembled record: found exactly when it is selected and the record has it,
      and then the bytes there are its projected content. */
  method LookupMember(ghost P: Plan, ghost v: Value, ghost pre: Bytes, m: Bytes, ghost post: Bytes, bgn: nat, s: Sign)
    returns (got: nat)
    requires P.Valid() && v.Obj? && RowFits(Project(P, v))
    requires m == pre + Encode(Project(P, v)) + post && bgn == |pre|
    ensures got < ElemNum(m, bgn) <==> Chosen(P, 0, 0, |P.paths|, s) && Find(v.members, s).Some?
    ensures got >= ElemNum(m, bgn) ==> got == UINT32_MAX
    ensures got < ElemNum(m, bgn) ==>
              var row := FindField(ProjectMembers(P, v, 0, 0, |P.paths|), s);
              row.Some? && Shows(m, BinVal(m, bgn, got), ObjectBinSize(m, bgn, got), row.value)
  {
    hide Shows, ShowsField, Encode, ProjectMembers, RowFits, Plan.Valid, RowId, Find, FindField, ElemNum, IdsGrow,
         FieldsGrow, Plan.Shares, Plan.GroupTail, Plan.Group;
    ghost var fs := ProjectMembers(P, v, 0, 0, |P.paths|);
    EncodeShown(pre, Project(P, v), post);
    RootTail(P);
    MembersGrow(P, v, 0, 0, |P.paths|);
    MembersExact(P, v, 0, 0, |P.paths|, s);
    ShownIdsGrow(m, bgn, |Encode(Project(P, v))|, fs);
    got := LookupID(m, bgn, s);
    if got < ElemNum(m, bgn) {
      FoundField(m, bgn, fs, got);
    } else {
      MissingField(m, bgn, fs, s);
    }
  }

  lemma RootTail(P: Plan)
    ensures P.paths != [] ==> P.GroupTail(0, 0, |P.paths|)
  {
    if P.paths != [] {
      P.RootGroup();
      P.GroupIsTail(0, 0, |P.paths|);
    }
  }

  lemma FoundField(m: Bytes, bgn: nat, fs: seq<RowField>, i: nat)
    requires i < |fs| && FieldsGrow(fs) && ShowsField(m, bgn, i, fs[i])
    ensures FindField(fs, RowId(m, bgn, i)) == Some(fs[i].row)
    ensures Shows(m, BinVal(m, bgn, i), ObjectBinSize(m, bgn, i), fs[i].row)
  {
    hide Shows, RowId, ObjectBinSize, BinVal;
    FindAt(fs, i);
  }

  lemma {:induction false} FindAt(fs: seq<RowField>, i: nat)
    requires i < |fs| && FieldsGrow(fs)
    ensures FindField(fs, fs[i].id) == Some(fs[i].row)
  {
    if i > 0 {
      FindAt(fs[1..], i - 1);
    }
  }

  lemma MissingField(m: Bytes, bgn: nat, fs: seq<RowField>, s: Sign)
    requires forall i :: 0 <= i < |fs| ==> ShowsField(m, bgn, i, fs[i]) && RowId(m, bgn, i) != s
    ensures FindField(fs, s) == None
  {
    hide Shows, RowId, ObjectBinSize, BinVal;
    forall f | f in fs ensures f.id != s {
      var i :| 0 <= i < |fs| && fs[i] == f;
      assert ShowsField(m, bgn, i, fs[i]);
    }
  }
}
