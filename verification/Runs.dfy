// The assembling machine over one occurrence of a schema node: by induction on the record, reading the
// columns below the node leads to the state in which the occurrence's row is complete.

module Runs {
  import opened Wrappers
  import opened Bytes
  import opened Paths
  import opened RowCodec
  import opened Records
  import opened BuildSpec
  import opened BuildFacts
  import opened Machine
  import opened Occurrences

  // ---- Sub-stretches of columns ----

  lemma ContinueAt(P: Plan, L: nat, z: Span, k: nat)
    requires P.Shares(L, z.lo, z.hi) && Continue(P, z, L) && z.lo <= k < z.hi
    ensures k < |P.paths| == |z.tail| && L <= |P.paths[k]|
    ensures HeadRep(z.tail[k]) == z.r && P.Jumps(k, z.r) && z.r <= P.ReptLevel(P.paths[k], L)
  {
    P.SharesRept(L, z.lo, z.hi, k);
    if z.r > 0 { P.SharesNode(L, z.lo, z.hi, k, z.r - 1); }
  }

  /** Columns [lo, e) of a span, in front of and behind them. */
  function FirstPart(z: Span, e: nat): Span {
    z.(hi := e, tail := Mixed(z, e))
  }

  function SecondPart(z: Span, e: nat): Span {
    z.(lo := e, rest := Mixed(z, e))
  }

  /** The columns in front of `e` are done, the others not yet. */
  function Mixed(z: Span, e: nat): (mid: seq<seq<Item>>)
    ensures |mid| == |z.rest|
  {
    seq(|z.rest|, k requires 0 <= k < |z.rest| => if z.lo <= k < e && k < |z.tail| then z.tail[k] else z.rest[k])
  }

  lemma SplitSpan(P: Plan, L: nat, z: Span, e: nat)
    requires Framed(P, z) && Continue(P, z, L) && P.Shares(L, z.lo, z.hi) && z.lo < e <= z.hi
    ensures Framed(P, FirstPart(z, e)) && Continue(P, FirstPart(z, e), L)
    ensures e < z.hi ==> Framed(P, SecondPart(z, e)) && Continue(P, SecondPart(z, e), L)
    ensures e == z.hi ==> FirstPart(z, e) == z
  {
    if e < z.hi {
      P.SharesRept(L, z.lo, z.hi, e);
      if z.r > 0 { P.SharesNode(L, z.lo, z.hi, e, z.r - 1); }
    }
    if e == z.hi { assert Mixed(z, e) == z.tail; }
  }

  lemma SplitObject(P: Plan, v: Value, L: nat, z: Span, e: nat)
    requires Framed(P, z) && ObjectAt(P, v, L, z) && z.lo < e <= z.hi
    ensures ObjectAt(P, v, L, FirstPart(z, e))
    ensures e < z.hi ==> ObjectAt(P, v, L, SecondPart(z, e))
  {
  }

  lemma SplitAbsent(P: Plan, L: nat, z: Span, e: nat)
    requires Framed(P, z) && AbsentAt(P, L, z) && z.lo < e < z.hi
    ensures AbsentAt(P, L, SecondPart(z, e))
  {
  }

  lemma CtxAlong(P: Plan, x: Ctx, L: nat, lo: nat, hi: nat, c: nat)
    requires P.Shares(L, lo, hi) && lo <= c < hi && CtxOk(P, x, L, P.paths[lo])
    ensures c < |P.paths| && CtxOk(P, x, L, P.paths[c])
  {
    if L > 0 { P.SharesNode(L, lo, hi, c, L - 1); }
  }

  // ---- A child that is not there ----

  /** Reading the one item of a column below a missing child. */
  lemma SkipRead(P: Plan, x: Ctx, f: Form, fs: seq<Field>, L: nat, z: Span)
    requires Framed(P, z) && AbsentAt(P, L, z) && ObjState(P, x, f, fs, L, z.lo)
    ensures Leads(P, z.lo, FrontOf(x, f), z.rest, StateOf(P, x, f, fs),
                  z.lo, Mixed(z, z.lo + 1), StateOf(P, x, Stay(f), fs))
  {
    var c := z.lo;
    MoveStays(P, x, f, fs, L, c);
    hide Read, Jump, Move;
    assert z.rest[c := z.tail[c]] == Mixed(z, c + 1);
    ReadItem(P, c, FrontOf(x, f), z.rest, StateOf(P, x, f, fs), Item(z.rep, L, None), z.tail[c],
        StateOf(P, x, Stay(f), fs));
  }

  /** The object stands the same for the next column of the missing child. */
  lemma SkipState(P: Plan, x: Ctx, f: Form, fs: seq<Field>, L: nat, z: Span)
    requires Framed(P, z) && AbsentAt(P, L, z) && ObjState(P, x, f, fs, L, z.lo) && z.lo + 1 < z.hi
    requires P.Shares(L + 1, z.lo, z.hi)
    ensures ObjState(P, x, Stay(f), fs, L, z.lo + 1)
    ensures P.Same(z.lo, z.lo + 1) >= L
    ensures P.Shares(L, z.lo, z.hi) && P.Shares(L + 1, z.lo + 1, z.hi)
  {
    P.SharesNode(L + 1, z.lo, z.hi, z.lo + 1, L);
    P.SharesSame(L + 1, z.lo, z.hi, z.lo, z.lo + 1);
    P.SharesLess(L + 1, L, z.lo, z.hi);
    CtxAlong(P, x, L, z.lo, z.hi, z.lo + 1);
  }

  /** Moving on to the next column of the missing child. */
  lemma SkipHop(P: Plan, x: Ctx, f: Form, fs: seq<Field>, L: nat, z: Span)
    requires Framed(P, z) && AbsentAt(P, L, z) && ObjState(P, x, f, fs, L, z.lo) && z.lo + 1 < z.hi
    requires P.Shares(L + 1, z.lo, z.hi) && Continue(P, z, L)
    ensures Hops(P, z.lo, Mixed(z, z.lo + 1), StateOf(P, x, Stay(f), fs),
                 z.lo + 1, FrontOf(x, Stay(f)), StateOf(P, x, Stay(f), fs))
  {
    hide *;
    SpanBounds(P, z);
    SkipState(P, x, f, fs, L, z);
    ContinueAt(P, L, z, z.lo);
    MixedHead(P, z);
    SkipReturn(P, x, f, fs, L, z.lo);
    HopForward(P, L, z.lo, Mixed(z, z.lo + 1), StateOf(P, x, Stay(f), fs), StateOf(P, x, Stay(f), fs));
  }

  lemma MixedHead(P: Plan, z: Span)
    requires Framed(P, z)
    ensures |Mixed(z, z.lo + 1)| == |P.paths| && Mixed(z, z.lo + 1)[z.lo] == z.tail[z.lo]
  {
  }

  lemma SkipReturn(P: Plan, x: Ctx, f: Form, fs: seq<Field>, L: nat, c: nat)
    requires ObjState(P, x, f, fs, L, c) && c + 1 < |P.paths| && P.Same(c, c + 1) >= L
    ensures FrontOf(x, Stay(f)) == false && P.Same(c, c + 1) <= |P.paths[c]|
    ensures Return(P.rept, StateOf(P, x, Stay(f), fs), P.Same(c, c + 1), P.paths[c], false)
         == Some(StateOf(P, x, Stay(f), fs))
  {
    ReturnIdle(P, x, Stay(f), fs, L, P.Same(c, c + 1), P.paths[c]);
  }

  ghost predicate SkipOk(P: Plan, x: Ctx, f: Form, fs: seq<Field>, L: nat, z: Span) {
    && Framed(P, z) && AbsentAt(P, L, z) && ObjState(P, x, f, fs, L, z.lo)
    && P.Shares(L + 1, z.lo, z.hi) && Continue(P, z, L)
  }

  lemma SkipRest(P: Plan, x: Ctx, f: Form, fs: seq<Field>, L: nat, z: Span)
    requires SkipOk(P, x, f, fs, L, z) && z.lo + 1 < z.hi
    ensures SkipOk(P, x, Stay(f), fs, L, SecondPart(z, z.lo + 1))
  {
    hide Framed, AbsentAt, ObjState, Continue, Mixed, Plan.Shares;
    SpanBounds(P, z);
    SkipState(P, x, f, fs, L, z);
    SplitAbsent(P, L, z, z.lo + 1);
    SplitSpan(P, L, z, z.lo + 1);
  }

  lemma SkipLast(P: Plan, x: Ctx, f: Form, fs: seq<Field>, L: nat, z: Span)
    requires SkipOk(P, x, f, fs, L, z) && z.lo + 1 == z.hi
    ensures Mixed(z, z.lo + 1) == z.tail
  {
  }

  /** Reading all columns of a missing child at most meets the object. */
  lemma SkipChild(P: Plan, x: Ctx, f: Form, fs: seq<Field>, L: nat, z: Span)
    requires SkipOk(P, x, f, fs, L, z)
    ensures Leads(P, z.lo, FrontOf(x, f), z.rest, StateOf(P, x, f, fs), z.hi - 1, z.tail, StateOf(P, x, Stay(f), fs))
    decreases z.hi - z.lo
  {
    hide Framed, AbsentAt, ObjState, Plan.Shares, Continue, Leads, StateOf, FrontOf, Mixed, Hops;
    var c, mid, b1 := z.lo, Mixed(z, z.lo + 1), StateOf(P, x, Stay(f), fs);
    SpanBounds(P, z);
    SkipRead(P, x, f, fs, L, z);
    if c + 1 < z.hi {
      SkipHop(P, x, f, fs, L, z);
      SkipRest(P, x, f, fs, L, z);
      SkipChild(P, x, Stay(f), fs, L, SecondPart(z, c + 1));
      LeadsOn(P, c, FrontOf(x, f), z.rest, StateOf(P, x, f, fs), c, mid, b1,
              c + 1, FrontOf(x, Stay(f)), b1, z.hi - 1, z.tail, b1);
    } else {
      SkipLast(P, x, f, fs, L, z);
    }
  }

  lemma SpanBounds(P: Plan, z: Span)
    requires Framed(P, z)
    ensures z.lo < z.hi <= |P.paths| == |z.rest| == |z.tail| && P.Valid()
  {
  }

  // ---- What is given and what is reached ----

  /** Bytes of the members that the columns [c, hi) contribute to an object. */
  function Members(P: Plan, v: Value, L: nat, c: nat, hi: nat): seq<Field> {
    if c <= hi <= |P.paths| && v.Obj? then EncodeFields(ProjectMembers(P, v, L, c, hi)) else []
  }

  function RowOfElem(P: Plan, v: Value, L: nat, z: Span): Row {
    if z.lo < z.hi <= |P.paths| then ProjectElem(P, v, L, z.lo, z.hi) else Empty
  }

  function RowOfField(P: Plan, w: Value, L: nat, z: Span): Row {
    if z.lo < z.hi <= |P.paths| then ProjectField(P, w, L, z.lo, z.hi) else Empty
  }

  /** Signature of the node at level L of column c. */
  function NodeSign(P: Plan, L: nat, c: nat): Sign {
    if c < |P.paths| && 0 < L <= |P.paths[c]| then P.paths[c][L - 1] else 0
  }

  ghost predicate ReadyAt(P: Plan, L: nat, c: nat, b: Base) {
    c < |P.paths| && 0 < L <= |P.paths[c]| && |b.lv| == L && Ready(b, NodeSign(P, L, c))
  }

  ghost predicate MembersOk(P: Plan, v: Value, L: nat, z: Span, x: Ctx, f: Form, fs: seq<Field>) {
    && Framed(P, z) && P.GroupTail(L, z.lo, z.hi)
    && ObjectAt(P, v, L, z) && Continue(P, z, L) && ObjState(P, x, f, fs, L, z.lo)
  }

  ghost predicate ChildOk(P: Plan, v: Value, L: nat, z: Span, x: Ctx, f: Form, fs: seq<Field>) {
    && Framed(P, z) && P.Group(L + 1, z.lo, z.hi)
    && ObjectAt(P, v, L, z) && Continue(P, z, L) && ObjState(P, x, f, fs, L, z.lo)
  }

  ghost predicate FieldOk(P: Plan, w: Value, L: nat, z: Span, b: Base) {
    && Framed(P, z) && L > 0 && P.Group(L, z.lo, z.hi)
    && FieldAt(P, w, L, z) && Continue(P, z, L - 1) && ReadyAt(P, L, z.lo, b)
  }

  ghost predicate ElemsOk(P: Plan, w: Value, i: nat, L: nat, z: Span, b: Base) {
    && Framed(P, z) && L > 0 && P.Group(L, z.lo, z.hi)
    && ElemsAt(P, w, i, L, z) && Continue(P, z, L - 1) && ReadyAt(P, L, z.lo, b)
    && NodeSign(P, L, z.lo) in P.rept
  }

  ghost predicate ElemOk(P: Plan, v: Value, L: nat, z: Span, b: Base, es: seq<Bytes>) {
    && Framed(P, z) && P.Group(L, z.lo, z.hi)
    && ElemAt(P, v, L, z) && Continue(P, z, L) && ReadyAt(P, L, z.lo, b)
    && (es != [] ==> NodeSign(P, L, z.lo) in P.rept)
  }

  /** The members of an object up to some column are complete. */
  ghost predicate MembersDone(P: Plan, x: Ctx, f: Form, L: nat, total: seq<Field>, b1: Build) {
    if x.Node? && f != Opened && total == [] then b1 == StateOf(P, x, Met, [])
    else |b1.lv| >= L + 1 && FinishTo(b1, L + 1) == Some(Open(Low(P, x), total))
  }

  ghost predicate FieldDone(L: nat, b: Base, s: Sign, v: Bytes, b1: Build) {
    |b1.lv| >= L > 0 && FinishTo(b1, L) == Some(AfterField(b, s, v))
  }

  ghost predicate ElemDone(P: Plan, L: nat, c: nat, b: Base, s: Sign, es: seq<Bytes>, row: Row, b1: Build) {
    && |b1.lv| >= L > 0
    && CloseTo(b1, L) == Some(AfterElem(P.rept, b, s, es, row))
    && !row.Array?
    && (c < |P.paths| && |P.paths[c]| == L ==> |b1.lv| == L && row.Leaf?)
  }

  // ---- One child of an object ----

  /** The member that one child contributes. */
  lemma ChildMember(P: Plan, v: Value, L: nat, z: Span, x: Ctx, f: Form, fs: seq<Field>)
    requires ChildOk(P, v, L, z, x, f, fs)
    ensures v.Obj? && z.lo < z.hi <= |P.paths| && L < |P.paths[z.lo]| && NodeSign(P, L + 1, z.lo) == P.paths[z.lo][L]
    ensures Members(P, v, L, z.lo, z.hi)
         == match Find(v.members, NodeSign(P, L + 1, z.lo))
            case None => []
            case Some(w) => [Field(NodeSign(P, L + 1, z.lo), Encode(RowOfField(P, w, L + 1, z)))]
  {
    P.GroupEndsAt(L + 1, z.lo, z.hi);
    hide Framed, Continue, ObjState, FitsObject, StripeObject, Plan.Group, Plan.Valid, Encode;
    var s := P.paths[z.lo][L];
    assert ProjectMembers(P, v, L, z.hi, z.hi) == [];
    match Find(v.members, s)
    case None => assert ProjectMembers(P, v, L, z.lo, z.hi) == [];
    case Some(w) =>
      var row := ProjectField(P, w, L + 1, z.lo, z.hi);
      assert ProjectMembers(P, v, L, z.lo, z.hi) == [RowField(s, row)];
      assert EncodeFields([RowField(s, row)]) == [Field(s, Encode(row))];
  }

  lemma ChildAbsent(P: Plan, v: Value, L: nat, z: Span, x: Ctx, f: Form, fs: seq<Field>)
    requires ChildOk(P, v, L, z, x, f, fs) && v.Obj? && Find(v.members, NodeSign(P, L + 1, z.lo)) == None
    ensures SkipOk(P, x, f, fs, L, z)
  {
    hide Framed, Continue, ObjState, FitsObject;
    forall k | z.lo <= k < z.hi
      ensures L < |P.paths[k]| && z.rest[k] == [Item(z.rep, L, None)] + z.tail[k]
    {
      P.SharesNode(L + 1, z.lo, z.hi, k, L);
    }
  }

  lemma ChildPresent(P: Plan, v: Value, w: Value, L: nat, z: Span, x: Ctx, f: Form, fs: seq<Field>)
    requires ChildOk(P, v, L, z, x, f, fs) && v.Obj? && Find(v.members, NodeSign(P, L + 1, z.lo)) == Some(w)
    ensures FieldAt(P, w, L + 1, z)
    ensures z.lo < |z.rest| == |P.paths| && z.rest[z.lo] != [] && L < z.rest[z.lo][0].def <= |P.paths[z.lo]|
  {
    hide Framed, Continue, ObjState;
    forall k | z.lo <= k < z.hi
      ensures L + 1 <= |P.paths[k]| && FitsField(P.rept, w, P.paths[k], L + 1)
      ensures z.rest[k] == StripeField(w, P.paths[k], L + 1, z.rep) + z.tail[k]
    {
      P.SharesNode(L + 1, z.lo, z.hi, k, L);
    }
  }

  /** Opened for the child, the object is the state its field starts from. */
  lemma ChildField(P: Plan, v: Value, w: Value, L: nat, z: Span, x: Ctx, f: Form, fs: seq<Field>)
    requires ChildOk(P, v, L, z, x, f, fs) && FieldAt(P, w, L + 1, z)
    ensures Open(Low(P, x), fs).lv != [] && FieldOk(P, w, L + 1, z, Open(Low(P, x), fs))
  {
    hide Framed, Continue, ObjectAt, FieldAt, Plan.Group;
  }

  lemma ChildDone(P: Plan, L: nat, x: Ctx, f: Form, fs: seq<Field>, s: Sign, v: Bytes, b1: Build)
    requires Open(Low(P, x), fs).lv != [] && FieldDone(L + 1, Open(Low(P, x), fs), s, v, b1)
    ensures MembersDone(P, x, f, L, fs + [Field(s, v)], b1)
  {
    hide FinishTo, Low, StateOf;
    assert AfterField(Open(Low(P, x), fs), s, v) == Open(Low(P, x), fs + [Field(s, v)]);
  }

  lemma IdleDone(P: Plan, v: Value, L: nat, z: Span, x: Ctx, f: Form, fs: seq<Field>)
    requires ChildOk(P, v, L, z, x, f, fs)
    ensures MembersDone(P, x, f, L, fs + [], StateOf(P, x, Stay(f), fs))
  {
    hide Framed, Continue, ObjectAt, Plan.Group, FinishField, CloseTo;
    assert fs + [] == fs;
    FinishOpen(Low(P, x), fs);
    OpenDepth(Low(P, x), fs);
  }

  lemma OpenDepth(low: Build, fs: seq<Field>)
    ensures |Open(low, fs).lv| == |low.lv| + 1
  {
  }

  lemma ChildAlike(P: Plan, v: Value, L: nat, z: Span, x: Ctx, f: Form, fs: seq<Field>)
    requires ChildOk(P, v, L, z, x, f, fs)
    requires z.lo < |z.rest| == |P.paths| && z.rest[z.lo] != [] && L < z.rest[z.lo][0].def <= |P.paths[z.lo]|
    ensures Alike(P, z.lo, z.rest, FrontOf(x, f), StateOf(P, x, f, fs), false, Open(Low(P, x), fs))
  {
    hide Framed, Continue, ObjectAt, Plan.Group, ObjState, Alike, StateOf, FrontOf, Open, Low;
    DeepAlike(P, x, f, fs, L, z.lo, z.rest);
  }

  /** One child of an object, absent or present, starting from any form of the object. */
  lemma RunChild(P: Plan, v: Value, L: nat, z: Span, x: Ctx, f: Form, fs: seq<Field>) returns (b1: Build)
    requires ChildOk(P, v, L, z, x, f, fs)
    ensures Leads(P, z.lo, FrontOf(x, f), z.rest, StateOf(P, x, f, fs), z.hi - 1, z.tail, b1)
    ensures MembersDone(P, x, f, L, fs + Members(P, v, L, z.lo, z.hi), b1)
    decreases v, 0, z.hi - z.lo, 0
  {
    hide *;
    var s := NodeSign(P, L + 1, z.lo);
    ChildMember(P, v, L, z, x, f, fs);
    match Find(v.members, s)
    case None =>
      ChildAbsent(P, v, L, z, x, f, fs);
      SkipChild(P, x, f, fs, L, z);
      b1 := StateOf(P, x, Stay(f), fs);
      IdleDone(P, v, L, z, x, f, fs);
    case Some(w) =>
      ChildPresent(P, v, w, L, z, x, f, fs);
      ChildAlike(P, v, L, z, x, f, fs);
      ChildField(P, v, w, L, z, x, f, fs);
      b1 := RunField(P, w, L + 1, z, Open(Low(P, x), fs));
      LeadsAlike(P, z.lo, z.rest, FrontOf(x, f), StateOf(P, x, f, fs), false, Open(Low(P, x), fs), z.hi - 1, z.tail,
          b1);
      ChildDone(P, L, x, f, fs, s, Encode(RowOfField(P, w, L + 1, z)), b1);
  }

  // ---- A field ----

  lemma FieldIsRep(P: Plan, w: Value, L: nat, z: Span, b: Base)
    requires FieldOk(P, w, L, z, b) && NodeSign(P, L, z.lo) in P.rept
    ensures ElemsOk(P, w, 0, L, z, b)
  {
    hide Framed, Continue, FitsElem, StripeElem, StripeElems;
    forall k | z.lo <= k < z.hi
      ensures P.paths[k][L - 1] in P.rept && FitsField(P.rept, w, P.paths[k], L) && w.Rep? && w.elems != []
    {
      P.SharesNode(L, z.lo, z.hi, k, L - 1);
    }
  }

  lemma FieldIsSingle(P: Plan, w: Value, L: nat, z: Span, b: Base)
    requires FieldOk(P, w, L, z, b) && NodeSign(P, L, z.lo) !in P.rept
    ensures !w.Rep? && ElemOk(P, w, L, z, b, [])
  {
    P.ReptLevelMono(P.paths[z.lo], L - 1, L);
    hide Framed, FitsObject, StripeObject, ReadyAt;
    forall k | z.lo <= k < z.hi
      ensures FitsElem(P.rept, w, P.paths[k], L) && !w.Rep?
    {
      P.SharesNode(L, z.lo, z.hi, k, L - 1);
      assert FitsField(P.rept, w, P.paths[k], L);
    }
  }

  lemma SingleDone(P: Plan, w: Value, L: nat, z: Span, b: Base, b1: Build)
    requires FieldOk(P, w, L, z, b) && NodeSign(P, L, z.lo) !in P.rept && !w.Rep?
    requires ElemDone(P, L, z.lo, b, NodeSign(P, L, z.lo), [], RowOfElem(P, w, L, z), b1)
    ensures FieldDone(L, b, NodeSign(P, L, z.lo), Encode(RowOfField(P, w, L, z)), b1)
  {
    FinishSingle(P.rept, b, NodeSign(P, L, z.lo), RowOfElem(P, w, L, z));
    hide FieldAt, Continue, Plan.Group, AfterElem, AfterField, FinishField, Encode, ProjectElem, Ready, NodeSign;
  }

  lemma RunField(P: Plan, w: Value, L: nat, z: Span, b: Base) returns (b1: Build)
    requires FieldOk(P, w, L, z, b)
    ensures Leads(P, z.lo, false, z.rest, b, z.hi - 1, z.tail, b1)
    ensures FieldDone(L, b, NodeSign(P, L, z.lo), Encode(RowOfField(P, w, L, z)), b1)
    decreases w, 2, 0, 0
  {
    hide *;
    BeforeFirst(b, NodeSign(P, L, z.lo));
    if NodeSign(P, L, z.lo) in P.rept {
      FieldIsRep(P, w, L, z, b);
      NoElemBytes(P, w, 0, L, z);
      b1 := RunElems(P, w, 0, L, z, b);
    } else {
      FieldIsSingle(P, w, L, z, b);
      b1 := RunElem(P, w, L, z, b, []);
      SingleDone(P, w, L, z, b, b1);
    }
  }

  lemma BeforeFirst(b: Base, s: Sign)
    ensures Before(b, s, []) == b
  {
  }

  // ---- The elements of an array ----

  /** Rows of the first elements of an array, as bytes. */
  function ElemBytes(P: Plan, w: Value, n: nat, L: nat, z: Span): (es: seq<Bytes>)
    ensures |es| == n
  {
    seq(n, i requires 0 <= i < n => if w.Rep? && i < |w.elems| then Encode(RowOfElem(P, w.elems[i], L, z)) else [])
  }

  lemma NoElemBytes(P: Plan, w: Value, n: nat, L: nat, z: Span)
    ensures ElemBytes(P, w, n, L, z) == [] <==> n == 0
  {
  }

  lemma ElemBytesNext(P: Plan, w: Value, n: nat, L: nat, z: Span)
    requires w.Rep? && n < |w.elems|
    ensures ElemBytes(P, w, n + 1, L, z) == ElemBytes(P, w, n, L, z) + [Encode(RowOfElem(P, w.elems[n], L, z))]
  {
    hide Encode, RowOfElem;
  }

  /** The rows do not depend on where in the columns an element lies. */
  lemma ElemBytesSpan(P: Plan, w: Value, n: nat, L: nat, z: Span, y: Span)
    requires z.lo == y.lo && z.hi == y.hi
    ensures ElemBytes(P, w, n, L, z) == ElemBytes(P, w, n, L, y) && RowOfField(P, w, L, z) == RowOfField(P, w, L, y)
  {
  }

  lemma ElemBytesAll(P: Plan, w: Value, L: nat, z: Span)
    requires w.Rep? && z.lo < z.hi <= |P.paths|
    ensures Encode(RowOfField(P, w, L, z)) == EncodeArray(ElemBytes(P, w, |w.elems|, L, z))
  {
    var rows := seq(|w.elems|, i requires 0 <= i < |w.elems| => ProjectElem(P, w.elems[i], L, z.lo, z.hi));
    assert RowOfField(P, w, L, z) == Array(rows);
    forall i | 0 <= i < |w.elems|
      ensures EncodeElems(rows)[i] == ElemBytes(P, w, |w.elems|, L, z)[i]
    {
    }
    hide ProjectElem, EncodeArray;
    assert EncodeElems(rows) == ElemBytes(P, w, |w.elems|, L, z);
  }

  /** Columns behind element i of an array. */
  function BehindElem(P: Plan, w: Value, i: nat, L: nat, z: Span): (mid: seq<seq<Item>>)
    requires |z.tail| == |P.paths| && w.Rep? && i < |w.elems|
    ensures |mid| == |z.tail|
  {
    seq(|z.tail|, k requires 0 <= k < |z.tail| =>
      if z.lo <= k < z.hi && L <= |P.paths[k]| then StripeElems(w, i + 1, P.paths[k], L) + z.tail[k] else z.tail[k])
  }

  function ThisElem(P: Plan, w: Value, i: nat, L: nat, z: Span): Span
    requires |z.tail| == |P.paths| && w.Rep? && i < |w.elems|
  {
    z.(tail := BehindElem(P, w, i, L, z), r := if i + 1 < |w.elems| then L else z.r)
  }

  function NextElems(P: Plan, w: Value, i: nat, L: nat, z: Span): Span
    requires |z.tail| == |P.paths| && w.Rep? && i < |w.elems|
  {
    z.(rest := BehindElem(P, w, i, L, z), rep := L)
  }

  lemma ElemsShape(P: Plan, w: Value, i: nat, L: nat, z: Span, b: Base)
    requires ElemsOk(P, w, i, L, z, b)
    ensures |z.tail| == |P.paths| && w.Rep? && i < |w.elems| && z.lo < z.hi <= |P.paths|
  {
  }

  lemma HeadOfElems(P: Plan, w: Value, i: nat, L: nat, z: Span, b: Base, k: nat)
    requires ElemsOk(P, w, i, L, z, b) && z.lo <= k < z.hi
    ensures |BehindElem(P, w, i, L, z)| == |P.paths|
    ensures HeadRep(BehindElem(P, w, i, L, z)[k]) == if i + 1 < |w.elems| then L else z.r
    ensures i + 1 == |w.elems| ==> BehindElem(P, w, i, L, z)[k] == z.tail[k]
  {
    hide FitsElem, StripeElem, Ready;
  }

  lemma LastElem(P: Plan, w: Value, i: nat, L: nat, z: Span, b: Base)
    requires ElemsOk(P, w, i, L, z, b) && i + 1 == |w.elems|
    ensures BehindElem(P, w, i, L, z) == z.tail
  {
    ElemsShape(P, w, i, L, z, b);
    forall k | 0 <= k < |P.paths|
      ensures BehindElem(P, w, i, L, z)[k] == z.tail[k]
    {
      if z.lo <= k < z.hi { HeadOfElems(P, w, i, L, z, b, k); }
    }
  }

  lemma ThisElemAt(P: Plan, w: Value, i: nat, L: nat, z: Span, b: Base)
    requires ElemsOk(P, w, i, L, z, b)
    ensures |z.tail| == |P.paths| && w.Rep? && i < |w.elems|
    ensures ElemAt(P, w.elems[i], L, ThisElem(P, w, i, L, z))
  {
    hide Framed, Continue, Plan.Group, ReadyAt, FitsElem, StripeElem, StripeElems;
  }

  lemma ThisElemContinues(P: Plan, w: Value, i: nat, L: nat, z: Span, b: Base)
    requires ElemsOk(P, w, i, L, z, b)
    ensures |z.tail| == |P.paths| && w.Rep? && i < |w.elems|
    ensures Continue(P, ThisElem(P, w, i, L, z), L)
  {
    ElemsShape(P, w, i, L, z, b);
    P.ReptLevelMono(P.paths[z.lo], L - 1, L);
    hide Framed, Plan.Group, Ready, ElemsAt, BehindElem, HeadRep;
    forall k | z.lo <= k < z.hi
      ensures HeadRep(ThisElem(P, w, i, L, z).tail[k]) == ThisElem(P, w, i, L, z).r
    {
      HeadOfElems(P, w, i, L, z, b, k);
    }
  }

  lemma SplitElem(P: Plan, w: Value, i: nat, L: nat, z: Span, b: Base)
    requires ElemsOk(P, w, i, L, z, b)
    ensures |z.tail| == |P.paths| && w.Rep? && i < |w.elems|
    ensures ElemOk(P, w.elems[i], L, ThisElem(P, w, i, L, z), b, ElemBytes(P, w, i, L, z))
  {
    ElemsShape(P, w, i, L, z, b);
    hide Framed, Continue, Plan.Group, ReadyAt, ElemAt, ElemsAt, NodeSign, ElemBytes, BehindElem;
    ThisElemAt(P, w, i, L, z, b);
    ThisElemContinues(P, w, i, L, z, b);
    SplitElemRest(P, w, i, L, z, b);
  }

  lemma SplitElemRest(P: Plan, w: Value, i: nat, L: nat, z: Span, b: Base)
    requires ElemsOk(P, w, i, L, z, b)
    ensures |z.tail| == |P.paths| && w.Rep? && i < |w.elems|
    ensures Framed(P, ThisElem(P, w, i, L, z))
    ensures i + 1 < |w.elems| ==> Framed(P, NextElems(P, w, i, L, z))
    ensures i + 1 < |w.elems| ==> ElemsAt(P, w, i + 1, L, NextElems(P, w, i, L, z))
  {
    hide FitsElem, StripeElem, HeadRep, ReadyAt, Plan.Group, Plan.Valid, Continue;
  }

  lemma NextElemsOk(P: Plan, w: Value, i: nat, L: nat, z: Span, b: Base)
    requires ElemsOk(P, w, i, L, z, b) && i + 1 < |w.elems|
    ensures ElemsOk(P, w, i + 1, L, NextElems(P, w, i, L, z), b)
  {
    ElemsShape(P, w, i, L, z, b);
    SplitElemRest(P, w, i, L, z, b);
    hide Framed, ElemsAt, ReadyAt, Plan.Group;
  }

  lemma BeforeBack(P: Plan, w: Value, i: nat, L: nat, z: Span, b: Base)
    requires ElemsOk(P, w, i, L, z, b) && i + 1 < |w.elems|
    ensures 0 < z.hi <= |P.paths| == |BehindElem(P, w, i, L, z)| && z.lo < |P.paths|
    ensures P.Valid() && P.Group(L, z.lo, z.hi) && 0 < L <= |P.paths[z.lo]| &&
        P.paths[z.lo][L - 1] == NodeSign(P, L, z.lo)
    ensures NodeSign(P, L, z.lo) in P.rept
    ensures HeadRep(BehindElem(P, w, i, L, z)[z.hi - 1]) == L
    ensures L <= |P.paths[z.hi - 1]| && (|P.paths[z.hi - 1]| == L <==> |P.paths[z.lo]| == L)
    ensures |b.lv| == L && b.pend == []
  {
    HeadOfElems(P, w, i, L, z, b, z.hi - 1);
    LeafEnds(P, L, z.lo, z.hi);
    hide Plan.Group, Plan.Valid, ElemsAt, BehindElem, HeadRep;
  }

  /** From the end of one element to the beginning of the next. */
  lemma NextElemHop(P: Plan, w: Value, i: nat, L: nat, z: Span, b: Base, x: Build)
    requires ElemsOk(P, w, i, L, z, b) && i + 1 < |w.elems|
    requires var s := NodeSign(P, L, z.lo);
             ElemDone(P, L, z.lo, b, s, ElemBytes(P, w, i, L, z), RowOfElem(P, w.elems[i], L, z), x)
    ensures Hops(P, z.hi - 1, BehindElem(P, w, i, L, z), x, z.lo, true,
                 Before(b, NodeSign(P, L, z.lo), ElemBytes(P, w, i + 1, L, z)))
  {
    ElemsShape(P, w, i, L, z, b);
    BeforeBack(P, w, i, L, z, b);
    ElemBytesNext(P, w, i, L, z);
    var s, es, row := NodeSign(P, L, z.lo), ElemBytes(P, w, i, L, z), RowOfElem(P, w.elems[i], L, z);
    hide ElemsOk, ElemBytes, RowOfElem, Encode, Hops, Plan.Group, Plan.Valid, BehindElem, CloseElem, CloseTo, AfterElem,
         Before, HeadRep, NodeSign;
    CloseElemNext(P.rept, b, s, es, row, x, P.paths[z.hi - 1]);
    HopBack(P, L, z.lo, z.hi, BehindElem(P, w, i, L, z), x, Before(b, s, es + [Encode(row)]));
  }

  lemma LeafEnds(P: Plan, L: nat, lo: nat, hi: nat)
    requires P.Valid() && P.Group(L, lo, hi)
    ensures L <= |P.paths[hi - 1]|
    ensures |P.paths[hi - 1]| == L <==> |P.paths[lo]| == L
  {
    if |P.paths[lo]| == L { P.LeafGroup(L, lo, hi); } else { P.InnerGroup(L, lo, hi, hi - 1); }
  }

  lemma ArrayDone(P: Plan, w: Value, i: nat, L: nat, z: Span, b: Base, x: Build)
    requires ElemsOk(P, w, i, L, z, b) && i + 1 == |w.elems|
    requires var s := NodeSign(P, L, z.lo);
             ElemDone(P, L, z.lo, b, s, ElemBytes(P, w, i, L, z), RowOfElem(P, w.elems[i], L, z), x)
    ensures FieldDone(L, b, NodeSign(P, L, z.lo), Encode(RowOfField(P, w, L, z)), x)
  {
    ElemsShape(P, w, i, L, z, b);
    ElemBytesNext(P, w, i, L, z);
    ElemBytesAll(P, w, L, z);
    var s, es, row := NodeSign(P, L, z.lo), ElemBytes(P, w, i, L, z), RowOfElem(P, w.elems[i], L, z);
    FinishArray(P.rept, b, s, es, row);
    hide ElemBytes, RowOfElem, RowOfField, Encode, ElemsAt, Plan.Group, Plan.Valid, AfterElem, AfterField, FinishField,
         EncodeArray;
  }

  lemma RunElems(P: Plan, w: Value, i: nat, L: nat, z: Span, b: Base) returns (b1: Build)
    requires ElemsOk(P, w, i, L, z, b)
    ensures Leads(P, z.lo, i > 0, z.rest, Before(b, NodeSign(P, L, z.lo), ElemBytes(P, w, i, L, z)), z.hi - 1, z.tail,
        b1)
    ensures FieldDone(L, b, NodeSign(P, L, z.lo), Encode(RowOfField(P, w, L, z)), b1)
    decreases w, 1, if w.Rep? then |w.elems| - i else 0, 0
  {
    hide *;
    var s, es := NodeSign(P, L, z.lo), ElemBytes(P, w, i, L, z);
    ElemsShape(P, w, i, L, z, b);
    SplitElem(P, w, i, L, z, b);
    NoElemBytes(P, w, i, L, z);
    ElemSpans(P, w, i, L, z);
    var x := RunElem(P, w.elems[i], L, ThisElem(P, w, i, L, z), b, es);
    if i + 1 < |w.elems| {
      NextElemHop(P, w, i, L, z, b, x);
      NextElemsOk(P, w, i, L, z, b);
      b1 := RunElems(P, w, i + 1, L, NextElems(P, w, i, L, z), b);
      LeadsOn(P, z.lo, i > 0, z.rest, Before(b, s, es), z.hi - 1, BehindElem(P, w, i, L, z), x,
              z.lo, true, Before(b, s, ElemBytes(P, w, i + 1, L, z)), z.hi - 1, z.tail, b1);
    } else {
      b1 := x;
      LastElem(P, w, i, L, z, b);
      ArrayDone(P, w, i, L, z, b, b1);
    }
  }

  /** What the stretches of one element and of the rest of the array share. */
  lemma ElemSpans(P: Plan, w: Value, i: nat, L: nat, z: Span)
    requires |z.tail| == |P.paths| && w.Rep? && i < |w.elems|
    ensures var y := ThisElem(P, w, i, L, z);
            && y.lo == z.lo && y.hi == z.hi && y.rest == z.rest && y.tail == BehindElem(P, w, i, L, z)
            && RowOfElem(P, w.elems[i], L, y) == RowOfElem(P, w.elems[i], L, z)
    ensures var y := NextElems(P, w, i, L, z);
            && y.lo == z.lo && y.hi == z.hi && y.rest == BehindElem(P, w, i, L, z) && y.tail == z.tail
            && ElemBytes(P, w, i + 1, L, y) == ElemBytes(P, w, i + 1, L, z)
            && RowOfField(P, w, L, y) == RowOfField(P, w, L, z)
  {
    ElemBytesSpan(P, w, i + 1, L, NextElems(P, w, i, L, z), z);
    hide ElemBytes, BehindElem, ProjectElem, ProjectField;
  }

  // ---- One occurrence ----

  lemma LeafItem(P: Plan, v: Value, L: nat, z: Span, b: Base, es: seq<Bytes>)
    requires ElemOk(P, v, L, z, b, es) && |P.paths[z.lo]| == L
    ensures v.Prim? && z.hi == z.lo + 1 && z.lo < |P.paths| == |z.rest| == |z.tail|
    ensures z.rest[z.lo] == [Item(z.rep, L, Some(v.bin))] + z.tail[z.lo]
    ensures z.rest[z.lo := z.tail[z.lo]] == z.tail
  {
    P.LeafGroup(L, z.lo, z.hi);
    assert FitsElem(P.rept, v, P.paths[z.lo], L);
    hide Plan.Group, Plan.Valid, ReadyAt, Continue;
  }

  lemma LeafTake(P: Plan, v: Value, L: nat, z: Span, b: Base, es: seq<Bytes>)
    requires ElemOk(P, v, L, z, b, es) && |P.paths[z.lo]| == L && v.Prim?
    ensures var s := NodeSign(P, L, z.lo);
            Take(P, z.lo, es != [], Item(z.rep, L, Some(v.bin)), Before(b, s, es))
                == Some(AfterElem(P.rept, b, s, es, Leaf(v.bin)))
  {
    hide Framed, ElemAt, Plan.Group, Continue, Move, LeafValue, AfterElem;
    MoveLeaf(P.rept, b, NodeSign(P, L, z.lo), es, P.paths[z.lo], v.bin);
  }

  lemma LeafDone(P: Plan, v: Value, L: nat, z: Span, b: Base, es: seq<Bytes>)
    requires ElemOk(P, v, L, z, b, es) && v.Prim?
    ensures var s := NodeSign(P, L, z.lo);
            ElemDone(P, L, z.lo, b, s, es, RowOfElem(P, v, L, z), AfterElem(P.rept, b, s, es, Leaf(v.bin)))
  {
    hide ElemAt, Plan.Group, Plan.Valid, Continue, Ready;
  }

  lemma RunLeaf(P: Plan, v: Value, L: nat, z: Span, b: Base, es: seq<Bytes>) returns (b1: Build)
    requires ElemOk(P, v, L, z, b, es) && |P.paths[z.lo]| == L
    ensures Leads(P, z.lo, es != [], z.rest, Before(b, NodeSign(P, L, z.lo), es), z.hi - 1, z.tail, b1)
    ensures ElemDone(P, L, z.lo, b, NodeSign(P, L, z.lo), es, RowOfElem(P, v, L, z), b1)
  {
    LeafItem(P, v, L, z, b, es);
    hide *;
    var s := NodeSign(P, L, z.lo);
    b1 := AfterElem(P.rept, b, s, es, Leaf(v.bin));
    LeafTake(P, v, L, z, b, es);
    LeafDone(P, v, L, z, b, es);
    ReadItem(P, z.lo, es != [], z.rest, Before(b, s, es), Item(z.rep, L, Some(v.bin)), z.tail[z.lo], b1);
  }

  lemma ElemIsObject(P: Plan, v: Value, L: nat, z: Span, b: Base, es: seq<Bytes>)
    requires ElemOk(P, v, L, z, b, es) && |P.paths[z.lo]| != L
    ensures MembersOk(P, v, L, z, Node(b, NodeSign(P, L, z.lo), es), Fresh, [])
  {
    hide FitsObject, StripeObject, Continue;
    P.GroupIsTail(L, z.lo, z.hi);
    forall k | z.lo <= k < z.hi
      ensures L < |P.paths[k]| && v.Obj? && FitsObject(P.rept, v, P.paths[k], L)
      ensures z.rest[k] == StripeObject(v, P.paths[k], L, z.rep) + z.tail[k]
    {
      P.InnerGroup(L, z.lo, z.hi, k);
      assert FitsElem(P.rept, v, P.paths[k], L);
    }
  }

  /** The row of an object, from its members. */
  lemma ObjectRow(P: Plan, v: Value, L: nat, z: Span)
    requires v.Obj? && z.lo < z.hi <= |P.paths|
    ensures var fs, row := Members(P, v, L, z.lo, z.hi), RowOfElem(P, v, L, z);
            if fs == [] then row == Empty else row.Object? && Encode(row) == EncodeObject(fs)
  {
    hide Encode, ProjectMembers, EncodeFields;
    ObjectBytes(ProjectMembers(P, v, L, z.lo, z.hi));
  }

  lemma ObjectBytes(fs: seq<RowField>)
    ensures Encode(Object(fs)) == EncodeObject(EncodeFields(fs)) && (EncodeFields(fs) == [] <==> fs == [])
  {
    hide EncodeObject;
  }

  /** An object with members, closed. */
  lemma CloseObject(P: Plan, L: nat, x: Ctx, fs: seq<Field>, row: Row, b1: Build)
    requires x.Node? && |x.b.lv| == L > 0 && row.Object? && Encode(row) == EncodeObject(fs)
    requires |b1.lv| >= L + 1 && FinishTo(b1, L + 1) == Some(Open(Low(P, x), fs))
    ensures CloseTo(b1, L) == Some(AfterElem(P.rept, x.b, x.s, x.es, row))
  {
    hide FinishTo, CloseTo, Encode, EncodeObject;
    CloseFinished(b1, Low(P, x), fs);
  }

  lemma ObjectDone(P: Plan, v: Value, L: nat, z: Span, b: Base, es: seq<Bytes>, b1: Build)
    requires ElemOk(P, v, L, z, b, es) && |P.paths[z.lo]| != L && v.Obj?
    requires MembersDone(P, Node(b, NodeSign(P, L, z.lo), es), Fresh, L, [] + Members(P, v, L, z.lo, z.hi), b1)
    ensures ElemDone(P, L, z.lo, b, NodeSign(P, L, z.lo), es, RowOfElem(P, v, L, z), b1)
  {
    ElemShape(P, v, L, z, b, es);
    var x, fs := Node(b, NodeSign(P, L, z.lo), es), Members(P, v, L, z.lo, z.hi);
    hide Framed, Plan.Group, Continue, ElemAt, Ready, FinishTo, CloseTo, Members, RowOfElem, NodeSign, AfterElem, Open,
         Low;
    assert [] + fs == fs;
    ObjectRow(P, v, L, z);
    if fs == [] {
      MetDone(P, b, NodeSign(P, L, z.lo), es);
    } else {
      CloseObject(P, L, x, fs, RowOfElem(P, v, L, z), b1);
    }
  }

  lemma MetDone(P: Plan, b: Base, s: Sign, es: seq<Bytes>)
    ensures var x := Node(b, s, es);
            |StateOf(P, x, Met, []).lv| == |b.lv| && StateOf(P, x, Met, []) == AfterElem(P.rept, b, s, es, Empty)
    ensures CloseTo(StateOf(P, Node(b, s, es), Met, []), |b.lv|) == Some(StateOf(P, Node(b, s, es), Met, []))
  {
  }

  lemma RunElem(P: Plan, v: Value, L: nat, z: Span, b: Base, es: seq<Bytes>) returns (b1: Build)
    requires ElemOk(P, v, L, z, b, es)
    ensures Leads(P, z.lo, es != [], z.rest, Before(b, NodeSign(P, L, z.lo), es), z.hi - 1, z.tail, b1)
    ensures ElemDone(P, L, z.lo, b, NodeSign(P, L, z.lo), es, RowOfElem(P, v, L, z), b1)
    decreases v, 1, 0, 0
  {
    hide *;
    var s := NodeSign(P, L, z.lo);
    ElemShape(P, v, L, z, b, es);
    if |P.paths[z.lo]| == L {
      b1 := RunLeaf(P, v, L, z, b, es);
    } else {
      ElemIsObject(P, v, L, z, b, es);
      b1 := RunMembers(P, v, L, z, Node(b, s, es), Fresh, []);
      MembersShape(P, v, L, z, Node(b, s, es), Fresh, []);
      FreshState(P, b, s, es);
      ObjectDone(P, v, L, z, b, es, b1);
    }
  }

  lemma ElemShape(P: Plan, v: Value, L: nat, z: Span, b: Base, es: seq<Bytes>)
    requires ElemOk(P, v, L, z, b, es)
    ensures z.lo < z.hi <= |P.paths| && |b.lv| == L > 0
  {
  }

  lemma FreshState(P: Plan, b: Base, s: Sign, es: seq<Bytes>)
    ensures StateOf(P, Node(b, s, es), Fresh, []) == Before(b, s, es)
    ensures FrontOf(Node(b, s, es), Fresh) == (es != [])
  {
  }

  // ---- The members of an object ----

  lemma MembersShape(P: Plan, v: Value, L: nat, z: Span, x: Ctx, f: Form, fs: seq<Field>)
    requires MembersOk(P, v, L, z, x, f, fs)
    ensures v.Obj? && z.lo < z.hi <= |P.paths| && L < |P.paths[z.lo]| && P.Valid() && P.Shares(L, z.lo, z.hi)
    ensures z.lo < P.GroupEnd(L + 1, z.lo) <= z.hi
  {
    P.ChildGroup(L, z.lo, z.hi);
  }

  lemma FirstChild(P: Plan, v: Value, L: nat, z: Span, x: Ctx, f: Form, fs: seq<Field>)
    requires MembersOk(P, v, L, z, x, f, fs)
    ensures ChildOk(P, v, L, FirstPart(z, P.GroupEnd(L + 1, z.lo)), x, f, fs)
    ensures P.GroupEnd(L + 1, z.lo) == z.hi ==> FirstPart(z, z.hi) == z
  {
    hide Framed, ObjectAt, Continue, ObjState;
    MembersShape(P, v, L, z, x, f, fs);
    var e := P.GroupEnd(L + 1, z.lo);
    P.ChildGroup(L, z.lo, z.hi);
    SplitSpan(P, L, z, e);
    SplitObject(P, v, L, z, e);
  }

  /** Members of one child come before the members of the next. */
  lemma MembersStep(P: Plan, v: Value, L: nat, z: Span, x: Ctx, f: Form, fs: seq<Field>)
    requires MembersOk(P, v, L, z, x, f, fs)
    ensures var e := P.GroupEnd(L + 1, z.lo);
            Members(P, v, L, z.lo, z.hi) == Members(P, v, L, z.lo, e) + Members(P, v, L, e, z.hi)
    ensures Members(P, v, L, z.hi, z.hi) == []
  {
    MembersShape(P, v, L, z, x, f, fs);
    var e := P.GroupEnd(L + 1, z.lo);
    hide Framed, Continue, ObjState, FitsObject, StripeObject, Plan.GroupTail, Plan.Shares, Plan.Valid, ObjectAt,
         Encode, EncodeFields;
    var m := ProjectMembers(P, v, L, e, z.hi);
    assert ProjectMembers(P, v, L, e, e) == [];
    match Find(v.members, P.paths[z.lo][L])
    case None => EncodeSplit([], m); assert [] + m == m;
    case Some(w) =>
      var fl := RowField(P.paths[z.lo][L], ProjectField(P, w, L + 1, z.lo, e));
      assert [fl] + [] == [fl];
      EncodeSplit([fl], m);
  }

  lemma EncodeSplit(a: seq<RowField>, b: seq<RowField>)
    ensures EncodeFields(a + b) == EncodeFields(a) + EncodeFields(b)
    ensures EncodeFields([]) == []
  {
    hide Encode;
  }

  /** The object in front of its next child. */
  lemma NextObjState(P: Plan, v: Value, L: nat, z: Span, x: Ctx, f: Form, fs: seq<Field>, g: Form)
    requires MembersOk(P, v, L, z, x, f, fs) && P.GroupEnd(L + 1, z.lo) < z.hi
    requires var total := fs + Members(P, v, L, z.lo, P.GroupEnd(L + 1, z.lo));
             g == if x.Node? && f != Opened && total == [] then Met else Opened
    ensures var e := P.GroupEnd(L + 1, z.lo);
            ObjState(P, x, g, fs + Members(P, v, L, z.lo, e), L, e)
  {
    hide Framed, ObjectAt, Continue, Members;
    MembersShape(P, v, L, z, x, f, fs);
    var e := P.GroupEnd(L + 1, z.lo);
    P.ChildGroup(L, z.lo, z.hi);
    P.ChildrenGrow(L, z.lo, e);
    CtxAlong(P, x, L, z.lo, z.hi, e);
    FirstChild(P, v, L, z, x, f, fs);
    ChildMember(P, v, L, FirstPart(z, e), x, f, fs);
  }

  lemma NextMembersOk(P: Plan, v: Value, L: nat, z: Span, x: Ctx, f: Form, fs: seq<Field>, g: Form)
    requires MembersOk(P, v, L, z, x, f, fs) && P.GroupEnd(L + 1, z.lo) < z.hi
    requires var total := fs + Members(P, v, L, z.lo, P.GroupEnd(L + 1, z.lo));
             g == if x.Node? && f != Opened && total == [] then Met else Opened
    ensures var e := P.GroupEnd(L + 1, z.lo);
            MembersOk(P, v, L, SecondPart(z, e), x, g, fs + Members(P, v, L, z.lo, e))
  {
    hide Framed, ObjectAt, Continue, ObjState, Members;
    MembersShape(P, v, L, z, x, f, fs);
    var e := P.GroupEnd(L + 1, z.lo);
    P.ChildGroup(L, z.lo, z.hi);
    SplitSpan(P, L, z, e);
    SplitObject(P, v, L, z, e);
    NextObjState(P, v, L, z, x, f, fs, g);
  }

  lemma ReturnDone(P: Plan, x: Ctx, f: Form, g: Form, L: nat, total: seq<Field>, b1: Build, p: Path)
    requires CtxOk(P, x, L, p)
    requires g == if x.Node? && f != Opened && total == [] then Met else Opened
    requires MembersDone(P, x, f, L, total, b1)
    ensures L <= |p| && Return(P.rept, b1, L, p, false) == Some(StateOf(P, x, g, total))
    ensures FrontOf(x, g) == false
  {
    if g == Met { ReturnIdle(P, x, Met, [], L, L, p); }
  }

  /** The object has another child, whose columns begin at e. */
  ghost predicate NextChild(P: Plan, v: Value, L: nat, z: Span, x: Ctx, f: Form, fs: seq<Field>, e: nat) {
    MembersOk(P, v, L, z, x, f, fs) && z.lo < |P.paths| && P.GroupEnd(L + 1, z.lo) == e < z.hi
  }

  /** What the return to level L needs in front of column e. */
  ghost predicate ReturnReady(P: Plan, x: Ctx, L: nat, mid: seq<seq<Item>>, e: nat) {
    && 0 < e < |P.paths| == |mid|
    && P.Same(e - 1, e) == L
    && P.Jumps(e - 1, HeadRep(mid[e - 1]))
    && L <= |P.paths[e - 1]|
    && HeadRep(mid[e - 1]) <= P.ReptLevel(P.paths[e - 1], L)
    && CtxOk(P, x, L, P.paths[e - 1])
  }

  /** From the last column of one child to the first column of the next. */
  lemma NextChildHop(P: Plan, v: Value, L: nat, z: Span, x: Ctx, f: Form, fs: seq<Field>, e: nat, total: seq<Field>,
        g: Form, b1: Build)
    requires NextChild(P, v, L, z, x, f, fs, e)
    requires g == if x.Node? && f != Opened && total == [] then Met else Opened
    requires MembersDone(P, x, f, L, total, b1)
    ensures e > 0 && Hops(P, e - 1, Mixed(z, e), b1, e, FrontOf(x, g), StateOf(P, x, g, total))
  {
    BeforeHop(P, v, L, z, x, f, fs, e);
    HopOver(P, x, f, g, L, total, b1, Mixed(z, e), e);
  }

  lemma HopOver(P: Plan, x: Ctx, f: Form, g: Form, L: nat, total: seq<Field>, b1: Build, mid: seq<seq<Item>>, e: nat)
    requires ReturnReady(P, x, L, mid, e)
    requires g == if x.Node? && f != Opened && total == [] then Met else Opened
    requires MembersDone(P, x, f, L, total, b1)
    ensures e > 0 && Hops(P, e - 1, mid, b1, e, FrontOf(x, g), StateOf(P, x, g, total))
  {
    hide CtxOk, MembersDone, Hops, Return, StateOf, FrontOf, Plan.Same, Plan.Jumps, Plan.ReptLevel, HeadRep;
    ReturnDone(P, x, f, g, L, total, b1, P.paths[e - 1]);
    HopForward(P, L, e - 1, mid, b1, StateOf(P, x, g, total));
  }

  lemma BeforeHop(P: Plan, v: Value, L: nat, z: Span, x: Ctx, f: Form, fs: seq<Field>, e: nat)
    requires NextChild(P, v, L, z, x, f, fs, e)
    ensures ReturnReady(P, x, L, Mixed(z, e), e)
  {
    hide ObjectAt, CtxOk, Plan.GroupEnd, HeadRep, Plan.Jumps, Plan.ReptLevel;
    MembersShape(P, v, L, z, x, f, fs);
    P.ChildGroup(L, z.lo, z.hi);
    hide Plan.GroupTail;
    ContinueAt(P, L, z, e - 1);
    CtxAlong(P, x, L, z.lo, z.hi, e - 1);
    LeftIsSame(P, e);
    hide Continue, ObjState, Plan.Same;
  }

  lemma LeftIsSame(P: Plan, e: nat)
    requires 0 < e < |P.paths|
    ensures P.Left(e) == P.Same(e - 1, e)
  {
  }

  lemma LaterDone(P: Plan, x: Ctx, f: Form, g: Form, L: nat, total: seq<Field>, later: seq<Field>, b1: Build)
    requires g == if x.Node? && f != Opened && total == [] then Met else Opened
    requires MembersDone(P, x, g, L, total + later, b1)
    ensures MembersDone(P, x, f, L, total + later, b1)
  {
  }

  lemma RunMembers(P: Plan, v: Value, L: nat, z: Span, x: Ctx, f: Form, fs: seq<Field>) returns (b1: Build)
    requires MembersOk(P, v, L, z, x, f, fs)
    ensures Leads(P, z.lo, FrontOf(x, f), z.rest, StateOf(P, x, f, fs), z.hi - 1, z.tail, b1)
    ensures MembersDone(P, x, f, L, fs + Members(P, v, L, z.lo, z.hi), b1)
    decreases v, 0, z.hi - z.lo, 1
  {
    hide *;
    MembersShape(P, v, L, z, x, f, fs);
    var e := P.GroupEnd(L + 1, z.lo);
    FirstChild(P, v, L, z, x, f, fs);
    Parts(z, e);
    var y := RunChild(P, v, L, FirstPart(z, e), x, f, fs);
    MembersStep(P, v, L, z, x, f, fs);
    var now, later := Members(P, v, L, z.lo, e), Members(P, v, L, e, z.hi);
    assert fs + (now + later) == (fs + now) + later;
    if e < z.hi {
      var g := if x.Node? && f != Opened && fs + now == [] then Met else Opened;
      NextChildNow(P, v, L, z, x, f, fs, e);
      NextChildHop(P, v, L, z, x, f, fs, e, fs + now, g, y);
      NextMembersOk(P, v, L, z, x, f, fs, g);
      b1 := RunMembers(P, v, L, SecondPart(z, e), x, g, fs + now);
      LeadsOn(P, z.lo, FrontOf(x, f), z.rest, StateOf(P, x, f, fs), e - 1, Mixed(z, e), y,
              e, FrontOf(x, g), StateOf(P, x, g, fs + now), z.hi - 1, z.tail, b1);
      LaterDone(P, x, f, g, L, fs + now, later, b1);
    } else {
      b1 := y;
      assert (fs + now) + [] == fs + now;
    }
  }

  lemma NextChildNow(P: Plan, v: Value, L: nat, z: Span, x: Ctx, f: Form, fs: seq<Field>, e: nat)
    requires MembersOk(P, v, L, z, x, f, fs) && z.lo < |P.paths| && P.GroupEnd(L + 1, z.lo) == e < z.hi
    ensures NextChild(P, v, L, z, x, f, fs, e)
  {
  }

  lemma Parts(z: Span, e: nat)
    ensures FirstPart(z, e).lo == z.lo && FirstPart(z, e).hi == e
    ensures FirstPart(z, e).rest == z.rest && FirstPart(z, e).tail == Mixed(z, e)
    ensures SecondPart(z, e).lo == e && SecondPart(z, e).hi == z.hi
    ensures SecondPart(z, e).rest == Mixed(z, e) && SecondPart(z, e).tail == z.tail
  {
  }
}
