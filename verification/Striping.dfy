// What the items of a striped record look like: every column gets a run of items whose first alone
// begins the record.

module Striping {
  import opened Wrappers
  import opened Bytes
  import opened Paths
  import opened Records
  import opened CabFormat

  /** An item of the column with path p, its value apart. */
  ghost predicate Shaped(rept: set<Sign>, p: Path, it: Item) {
    Level(rept, p, it.rep) && it.rep <= it.def <= |p| && (it.val.Some? <==> it.def == |p|)
  }

  /** Items of one occurrence: the first repeats at `rep`, the others deeper than level `low`. */
  ghost predicate Run(rept: set<Sign>, p: Path, its: seq<Item>, rep: nat, low: nat) {
    && its != [] && its[0].rep == rep
    && (forall k :: 0 <= k < |its| ==> Shaped(rept, p, its[k]))
    && (forall k :: 0 < k < |its| ==> its[k].rep > low)
  }

  lemma RunConcat(rept: set<Sign>, p: Path, a: seq<Item>, b: seq<Item>, rep: nat, low: nat)
    requires Run(rept, p, a, rep, low)
    requires forall k :: 0 <= k < |b| ==> Shaped(rept, p, b[k]) && b[k].rep > low
    ensures Run(rept, p, a + b, rep, low)
  {
    hide Shaped;
  }

  lemma {:induction false} ElemRun(rept: set<Sign>, v: Value, p: Path, L: nat, rep: nat)
    requires L <= |p| && FitsElem(rept, v, p, L) && Level(rept, p, rep) && rep <= L
    ensures Run(rept, p, StripeElem(v, p, L, rep), rep, L)
    decreases v, 1
  {
    if L < |p| && v.Obj? { ObjectRun(rept, v, p, L, rep); }
  }

  lemma {:induction false} ObjectRun(rept: set<Sign>, v: Value, p: Path, L: nat, rep: nat)
    requires L < |p| && v.Obj? && FitsObject(rept, v, p, L) && Level(rept, p, rep) && rep <= L
    ensures Run(rept, p, StripeObject(v, p, L, rep), rep, L)
    decreases v, 0
  {
    hide Shaped, StripeField;
    match Find(v.members, p[L])
    case None => OneItem(rept, p, L, rep);
    case Some(w) => FieldRun(rept, w, p, L + 1, rep);
  }

  lemma OneItem(rept: set<Sign>, p: Path, L: nat, rep: nat)
    requires L < |p| && Level(rept, p, rep) && rep <= L
    ensures Shaped(rept, p, Item(rep, L, None))
  {
  }

  lemma {:induction false} FieldRun(rept: set<Sign>, v: Value, p: Path, L: nat, rep: nat)
    requires 0 < L <= |p| && FitsField(rept, v, p, L) && Level(rept, p, rep) && rep < L
    ensures Run(rept, p, StripeField(v, p, L, rep), rep, L - 1)
    decreases v, 2
  {
    hide Shaped, StripeElem, StripeElems;
    if p[L - 1] in rept {
      ElemRun(rept, v.elems[0], p, L, rep);
      ElemsRun(rept, v, 1, p, L);
      RunConcat(rept, p, StripeElem(v.elems[0], p, L, rep), StripeElems(v, 1, p, L), rep, L - 1);
    } else {
      NotRep(rept, v, p, L);
      ElemRun(rept, v, p, L, rep);
    }
  }

  lemma NotRep(rept: set<Sign>, v: Value, p: Path, L: nat)
    requires L <= |p| && FitsElem(rept, v, p, L)
    ensures !v.Rep?
  {
  }

  lemma {:induction false} ElemsRun(rept: set<Sign>, v: Value, i: nat, p: Path, L: nat)
    requires 0 < L <= |p| && p[L - 1] in rept && v.Rep? && i <= |v.elems|
    requires forall j :: 0 <= j < |v.elems| ==> FitsElem(rept, v.elems[j], p, L)
    ensures forall k :: 0 <= k < |StripeElems(v, i, p, L)| ==>
              Shaped(rept, p, StripeElems(v, i, p, L)[k]) && StripeElems(v, i, p, L)[k].rep > L - 1
    decreases v, 1, |v.elems| - i
  {
    hide Shaped, StripeElem;
    if i < |v.elems| {
      ElemRun(rept, v.elems[i], p, L, L);
      ElemsRun(rept, v, i + 1, p, L);
    }
  }

  /** The values of the record along the column are of the leaf's type. */
  ghost predicate Typed(dt: DataType, v: Value, p: Path) {
    v.Obj? && p != [] ==>
      var its := StripeObject(v, p, 0, 0);
      forall k :: 0 <= k < |its| && its[k].val.Some? ==> dt.Holds(its[k].val.value)
  }

  /** Every record gives every column at least one item.  All of them can be written to the column, and
      exactly the first has repetition level 0. */
  lemma RecordItems(m: Meta, v: Value)
    requires m.path != [] && v.Obj? && FitsObject(m.rept, v, m.path, 0) && Typed(m.dt, v, m.path)
    ensures var its := StripeObject(v, m.path, 0, 0);
            && its != [] && AllFit(m, its)
            && forall k :: 0 <= k < |its| ==> (its[k].rep == 0 <==> k == 0)
  {
    ObjectRun(m.rept, v, m.path, 0, 0);
    hide FitsObject, StripeObject;
    var its := StripeObject(v, m.path, 0, 0);
    forall k | 0 <= k < |its|
      ensures Fits(m, its[k])
    {
      assert Shaped(m.rept, m.path, its[k]);
    }
  }
}
