// Vocabulary of the round trip: where the columns stand, where the builder stands, and single steps
// of the assembling machine between such places.

module Occurrences {
  import opened Wrappers
  import opened Bytes
  import opened Paths
  import opened RowCodec
  import opened Records
  import opened BuildSpec
  import opened BuildFacts
  import opened Machine

  // ---- Columns at the beginning of an occurrence ----

  /** Columns [lo, hi) in front of (`rest`) and behind (`tail`) an occurrence whose first item has
      repetition value `rep`; behind it every column goes on with repetition value `r`. */
  datatype Span = Span(lo: nat, hi: nat, rep: nat, rest: seq<seq<Item>>, tail: seq<seq<Item>>, r: nat)

  ghost predicate Framed(P: Plan, z: Span) {
    && P.Valid()
    && z.lo < z.hi <= |P.paths| == |z.rest| == |z.tail|
    && forall k :: 0 <= k < |P.paths| && !(z.lo <= k < z.hi) ==> z.rest[k] == z.tail[k]
  }

  /** The repetition value that follows belongs to an array at level L or above. */
  ghost predicate Continue(P: Plan, z: Span, L: nat) {
    && z.lo < z.hi <= |P.paths| == |z.tail|
    && L <= |P.paths[z.lo]|
    && z.r <= P.ReptLevel(P.paths[z.lo], L)
    && (z.r == 0 || P.paths[z.lo][z.r - 1] in P.rept)
    && forall k :: z.lo <= k < z.hi ==> HeadRep(z.tail[k]) == z.r
  }

  ghost predicate ElemAt(P: Plan, v: Value, L: nat, z: Span) {
    && z.hi <= |P.paths| == |z.rest| == |z.tail|
    && forall k :: z.lo <= k < z.hi ==>
         && L <= |P.paths[k]|
         && FitsElem(P.rept, v, P.paths[k], L)
         && z.rest[k] == StripeElem(v, P.paths[k], L, z.rep) + z.tail[k]
  }

  ghost predicate ObjectAt(P: Plan, v: Value, L: nat, z: Span) {
    && z.hi <= |P.paths| == |z.rest| == |z.tail|
    && v.Obj?
    && forall k :: z.lo <= k < z.hi ==>
         && L < |P.paths[k]|
         && FitsObject(P.rept, v, P.paths[k], L)
         && z.rest[k] == StripeObject(v, P.paths[k], L, z.rep) + z.tail[k]
  }

  ghost predicate FieldAt(P: Plan, v: Value, L: nat, z: Span) {
    && z.hi <= |P.paths| == |z.rest| == |z.tail|
    && forall k :: z.lo <= k < z.hi ==>
         && 0 < L <= |P.paths[k]|
         && FitsField(P.rept, v, P.paths[k], L)
         && z.rest[k] == StripeField(v, P.paths[k], L, z.rep) + z.tail[k]
  }

  /** The elements of array `w` from the i-th on lie ahead. */
  ghost predicate ElemsAt(P: Plan, w: Value, i: nat, L: nat, z: Span) {
    && z.hi <= |P.paths| == |z.rest| == |z.tail|
    && w.Rep? && i < |w.elems|
    && forall k :: z.lo <= k < z.hi ==>
         && 0 < L <= |P.paths[k]|
         && (forall j :: 0 <= j < |w.elems| ==> FitsElem(P.rept, w.elems[j], P.paths[k], L))
         && z.rest[k] == StripeElem(w.elems[i], P.paths[k], L, z.rep) + StripeElems(w, i + 1, P.paths[k], L) + z.tail[k]
  }

  /** Every column holds one item that ends at level L. */
  ghost predicate AbsentAt(P: Plan, L: nat, z: Span) {
    && z.hi <= |P.paths| == |z.rest| == |z.tail|
    && forall k :: z.lo <= k < z.hi ==>
         && L < |P.paths[k]|
         && z.rest[k] == [Item(z.rep, L, None)] + z.tail[k]
  }

  // ---- Runs of the machine ----

  /** Reading column c in state b comes to having read column c1 in state b1. */
  ghost predicate Leads(P: Plan, c: nat, front: bool, rest: seq<seq<Item>>, b: Build, c1: nat, tail: seq<seq<Item>>,
        b1: Build) {
    && c < |P.paths| && c1 < |P.paths| && |rest| == |P.paths| == |tail|
    && Read(P, c, front, rest, b) == Jump(P, c1, tail, b1)
  }

  /** From having read column c1 the machine goes on to reading column c2. */
  ghost predicate Hops(P: Plan, c1: nat, mid: seq<seq<Item>>, b1: Build, c2: nat, front: bool, b2: Build) {
    && c1 < |P.paths| && c2 < |P.paths| && |mid| == |P.paths|
    && Jump(P, c1, mid, b1) == Read(P, c2, front, mid, b2)
  }

  /** Two states that the read of column c cannot tell apart. */
  ghost predicate Alike(P: Plan, c: nat, rest: seq<seq<Item>>, f1: bool, b1: Build, f2: bool, b2: Build) {
    && c < |P.paths| && |rest| == |P.paths|
    && Read(P, c, f1, rest, b1) == Read(P, c, f2, rest, b2)
  }

  lemma LeadsOn(P: Plan, c: nat, f: bool, rest: seq<seq<Item>>, b: Build, c1: nat, mid: seq<seq<Item>>, b1: Build,
        c2: nat, f2: bool, b2: Build, c3: nat, tail: seq<seq<Item>>, b3: Build)
    requires Leads(P, c, f, rest, b, c1, mid, b1)
    requires Hops(P, c1, mid, b1, c2, f2, b2)
    requires Leads(P, c2, f2, mid, b2, c3, tail, b3)
    ensures Leads(P, c, f, rest, b, c3, tail, b3)
  {
    hide Read, Jump;
  }

  lemma LeadsAlike(P: Plan, c: nat, rest: seq<seq<Item>>, f1: bool, b1: Build, f2: bool, b2: Build, c3: nat,
        tail: seq<seq<Item>>, b3: Build)
    requires Alike(P, c, rest, f1, b1, f2, b2)
    requires Leads(P, c, f2, rest, b2, c3, tail, b3)
    ensures Leads(P, c, f1, rest, b1, c3, tail, b3)
  {
    hide Read, Jump;
  }

  /** Reading a known item. */
  lemma ReadItem(P: Plan, c: nat, front: bool, rest: seq<seq<Item>>, b: Build, it: Item, t: seq<Item>, b1: Build)
    requires c < |P.paths| == |rest| && rest[c] == [it] + t && Take(P, c, front, it, b) == Some(b1)
    ensures Leads(P, c, front, rest, b, c, rest[c := t], b1)
  {
    hide Jump, Take;
    assert rest[c][0] == it && rest[c][1..] == t;
  }

  /** Two states are alike when the move for the next item makes the same of both. */
  lemma ReadAlike(P: Plan, c: nat, rest: seq<seq<Item>>, f1: bool, b1: Build, f2: bool, b2: Build)
    requires c < |P.paths| == |rest| && rest[c] != [] && rest[c][0].def <= |P.paths[c]|
    requires b1.lv != [] && b2.lv != []
    requires Move(P.rept, b1, rest[c][0].def, P.paths[c], f1) == Move(P.rept, b2, rest[c][0].def, P.paths[c], f2)
    ensures Alike(P, c, rest, f1, b1, f2, b2)
  {
    hide Jump, Move, LeafValue;
  }

  /** A forward transition between columns that share level L. */
  lemma HopForward(P: Plan, L: nat, c: nat, tail: seq<seq<Item>>, b: Build, b1: Build)
    requires c + 1 < |P.paths| == |tail| && P.Jumps(c, HeadRep(tail[c])) && L <= P.Same(c, c + 1)
    requires HeadRep(tail[c]) <= P.ReptLevel(P.paths[c], L)
    requires Return(P.rept, b, P.Same(c, c + 1), P.paths[c], false) == Some(b1)
    ensures Hops(P, c, tail, b, c + 1, false, b1)
  {
    hide Read, Return, HeadRep;
    P.ReptLevelMono(P.paths[c], L, P.Same(c, c + 1));
    P.NextForward(c, HeadRep(tail[c]));
  }

  /** The transition from an element's last column to the next element. */
  lemma HopBack(P: Plan, L: nat, lo: nat, hi: nat, tail: seq<seq<Item>>, b: Build, b1: Build)
    requires P.Valid() && P.Group(L, lo, hi) && hi <= |P.paths| == |tail|
    requires L > 0 && P.paths[lo][L - 1] in P.rept && HeadRep(tail[hi - 1]) == L <= |b.lv|
    requires L <= |P.paths[hi - 1]| && CloseElem(b, L, P.paths[hi - 1]) == Some(b1)
    ensures Hops(P, hi - 1, tail, b, lo, true, b1)
  {
    P.NextBack(L, lo, hi);
    P.SharesNode(L, lo, hi, hi - 1, L - 1);
    hide Read, CloseElem, HeadRep, Plan.Group, Plan.Valid, Plan.Next;
  }

  // ---- Where the builder stands inside an object ----

  type Base = b: Build | b.lv != [] witness Start()

  /** The object being built: the record itself, or the occurrence of array or single field s behind
      the complete elements `es`, seen from builder state b. */
  datatype Ctx = Root | Node(b: Base, s: Sign, es: seq<Bytes>)

  /** How far the object has come: not met, met but without members, or open. */
  datatype Form = Fresh | Met | Opened

  function Low(P: Plan, x: Ctx): Build {
    match x
    case Root => Build([], [])
    case Node(b, s, es) => Deep(P.rept, b, s, es).(pend := [])
  }

  function StateOf(P: Plan, x: Ctx, f: Form, fs: seq<Field>): Build {
    if x.Root? || f == Opened then Open(Low(P, x), fs)
    else if f == Fresh then Before(x.b, x.s, x.es)
    else Present(P.rept, x.b, x.s, x.es)
  }

  predicate FrontOf(x: Ctx, f: Form) {
    f == Fresh && x.Node? && x.es != []
  }

  ghost predicate CtxOk(P: Plan, x: Ctx, L: nat, p: Path) {
    && L <= |p|
    && match x
       case Root => L == 0
       case Node(b, s, es) => L > 0 && |b.lv| == L && Ready(b, s) && s == p[L - 1] && (es != [] ==> s in P.rept)
  }

  ghost predicate FormOk(x: Ctx, f: Form, fs: seq<Field>) {
    f != Opened ==> x.Node? && fs == []
  }

  /** The object at level L stands as described, its next child beginning at column c. */
  ghost predicate ObjState(P: Plan, x: Ctx, f: Form, fs: seq<Field>, L: nat, c: nat) {
    && c < |P.paths| && L < |P.paths[c]|
    && CtxOk(P, x, L, P.paths[c])
    && FormOk(x, f, fs)
    && (fs != [] ==> fs[|fs| - 1].id < P.paths[c][L])
  }

  lemma InPlan(P: Plan, x: Ctx, f: Form, fs: seq<Field>, L: nat, c: nat)
    requires ObjState(P, x, f, fs, L, c)
    ensures c < |P.paths| && L < |P.paths[c]|
  {
  }

  /** Moving below level L opens the object, whatever form it had. */
  lemma DeepMove(P: Plan, x: Ctx, f: Form, fs: seq<Field>, L: nat, c: nat, d: nat)
    requires ObjState(P, x, f, fs, L, c) && L < d <= |P.paths[c]|
    ensures StateOf(P, x, f, fs).lv != [] && Open(Low(P, x), fs).lv != []
    ensures Move(P.rept, StateOf(P, x, f, fs), d, P.paths[c], FrontOf(x, f))
         == Move(P.rept, Open(Low(P, x), fs), d, P.paths[c], false)
    ensures c < |P.paths|
  {
    hide Move, Descend, Present, Before;
    var p := P.paths[c];
    if f != Opened {
      if f == Fresh { MoveMeets(P.rept, x.b, x.s, x.es, d, p); } else { MoveAgain(P.rept, x.b, x.s, x.es, d, p); }
      DescendOpens(P.rept, x.b, x.s, x.es, d, p);
      OpenStates(P, x, f, fs);
    }
  }

  lemma OpenStates(P: Plan, x: Ctx, f: Form, fs: seq<Field>)
    requires x.Node? && x.b.lv != []
    ensures f != Opened ==> StateOf(P, x, f, fs).lv != []
  {
  }

  /** An item below level L finds the object open, whatever form it had. */
  lemma DeepAlike(P: Plan, x: Ctx, f: Form, fs: seq<Field>, L: nat, c: nat, rest: seq<seq<Item>>)
    requires ObjState(P, x, f, fs, L, c)
    requires |rest| == |P.paths| && rest[c] != [] && L < rest[c][0].def <= |P.paths[c]|
    ensures Alike(P, c, rest, FrontOf(x, f), StateOf(P, x, f, fs), false, Open(Low(P, x), fs))
  {
    hide Move, Read, ObjState, StateOf, FrontOf, Open, Low, Alike;
    InPlan(P, x, f, fs, L, c);
    DeepMove(P, x, f, fs, L, c, rest[c][0].def);
    ReadAlike(P, c, rest, FrontOf(x, f), StateOf(P, x, f, fs), false, Open(Low(P, x), fs));
  }

  function Stay(f: Form): Form { if f == Fresh then Met else f }

  /** An item that ends at level L at most meets the object. */
  lemma MoveStays(P: Plan, x: Ctx, f: Form, fs: seq<Field>, L: nat, c: nat)
    requires ObjState(P, x, f, fs, L, c)
    ensures Move(P.rept, StateOf(P, x, f, fs), L, P.paths[c], FrontOf(x, f)) == Some(StateOf(P, x, Stay(f), fs))
  {
    var p := P.paths[c];
    if f == Fresh {
      MoveMeets(P.rept, x.b, x.s, x.es, L, p);
    } else if f == Met {
      MoveAgain(P.rept, x.b, x.s, x.es, L, p);
    }
  }

  /** Returning to level L or below changes nothing when no member was built. */
  lemma ReturnIdle(P: Plan, x: Ctx, f: Form, fs: seq<Field>, L: nat, K: nat, p: Path)
    requires L <= K <= |p| && CtxOk(P, x, L, p) && FormOk(x, f, fs) && f != Fresh
    ensures Return(P.rept, StateOf(P, x, f, fs), K, p, false) == Some(StateOf(P, x, f, fs))
  {
    if f == Opened && K == L { FinishOpen(Low(P, x), fs); }
    hide FinishField, CloseTo, CloseElem, Before, PackTop;
    ReturnDecides(P.rept, StateOf(P, x, f, fs), K, p);
  }

  lemma ReturnDecides(rept: set<Sign>, b: Build, K: nat, p: Path)
    requires K <= |p|
    ensures |b.lv| <= K ==> Return(rept, b, K, p, false) == Some(b)
    ensures |b.lv| == K + 1 ==> Return(rept, b, K, p, false) == FinishTo(b, K + 1)
  {
    hide FinishField;
  }
}
