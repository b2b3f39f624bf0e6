// From JSON records to files and back to rows.

module EndToEnd {
  import opened Wrappers
  import opened Bytes
  import opened Paths
  import opened Records
  import opened Schema
  import opened Typing
  import opened RoundTrip
  import opened CabFormat
  import opened Pipeline
  import Striping
  import FsmTable
  import Shredder

  // ---- Columns selected from a schema ----

  /** Paths of the selected leaves. */
  function PathsOf(t: Tree, leaves: seq<Sign>): (ps: seq<Path>)
    requires t.Valid() && forall l :: l in leaves ==> l < |t.nodes|
    ensures |ps| == |leaves|
  {
    seq(|leaves|, i requires 0 <= i < |leaves| => assert leaves[i] in leaves; t.PathOf(leaves[i]))
  }

  /** `SchemaPath::operator<`: the first difference decides, and of two paths without one the shorter is less. */
  predicate PathLess(p: Path, q: Path) {
    var k := Lcp(p, q);
    if k < |p| && k < |q| then p[k] < q[k] else |p| < |q|
  }

  /** Selected leaves as they are sorted and made unique. */
  ghost predicate Selected(t: Tree, leaves: seq<Sign>)
    requires t.Valid()
  {
    && (forall i :: 0 <= i < |leaves| ==> leaves[i] < |t.nodes| && t.IsLeaf(leaves[i]))
    && (forall i, j :: 0 <= i < j < |leaves| ==> InOrder(t, leaves[i], leaves[j]))
  }

  predicate InOrder(t: Tree, a: Sign, b: Sign)
    requires t.Valid()
  {
    a < |t.nodes| && b < |t.nodes| && PathLess(t.PathOf(a), t.PathOf(b))
  }

  /** No leaf's path leads on to another leaf. */
  lemma LeavesApart(t: Tree, a: Sign, b: Sign)
    requires t.Valid() && a < |t.nodes| && b < |t.nodes| && t.IsLeaf(a) && t.IsLeaf(b)
    ensures var k := Lcp(t.PathOf(a), t.PathOf(b));
            a != b ==> k < |t.PathOf(a)| && k < |t.PathOf(b)|
  {
    var p, q := t.PathOf(a), t.PathOf(b);
    LcpPrefix(p, q);
    if Lcp(p, q) == |p| { EndsAt(t, a, b); }
    LcpSwap(p, q);
    if Lcp(p, q) == |q| { EndsAt(t, b, a); }
  }

  lemma LcpSwap(p: Path, q: Path)
    ensures Lcp(p, q) == Lcp(q, p)
  {
    LcpPrefix(p, q);
    LcpUnique(q, p, Lcp(p, q));
  }

  lemma EndsAt(t: Tree, a: Sign, b: Sign)
    requires t.Valid() && a < |t.nodes| && b < |t.nodes| && t.IsLeaf(a)
    requires |t.PathOf(a)| <= |t.PathOf(b)| && t.PathOf(b)[..|t.PathOf(a)|] == t.PathOf(a)
    ensures a == b
  {
    var p, q := t.PathOf(a), t.PathOf(b);
    LeafHasPath(t, a);
    assert q[|p| - 1] == q[..|p|][|p| - 1] == a;
    if |p| < |q| {
      PathStep(t, b, |p|);
      KidLevel(t, a, q[|p|]);
    }
  }

  lemma LeafHasPath(t: Tree, a: Sign)
    requires t.Valid() && a < |t.nodes| && t.IsLeaf(a)
    ensures t.PathOf(a) != [] && t.PathOf(a)[|t.PathOf(a)| - 1] == a
  {
  }

  lemma FromOneTree(t: Tree, a: Sign, b: Sign)
    requires t.Valid() && a < |t.nodes| && b < |t.nodes|
    ensures FsmTable.TreePair(t.PathOf(a), t.PathOf(b))
  {
    var p, q := t.PathOf(a), t.PathOf(b);
    forall k | 0 <= k < |p| && k < |q| && p[k] == q[k]
      ensures p[..k] == q[..k]
    {
      PathThrough(t, a, k);
      PathThrough(t, b, k);
      TakeTake(p, k);
      TakeTake(q, k);
    }
  }

  lemma TakeTake(p: Path, k: nat)
    requires k < |p|
    ensures p[..k + 1][..k] == p[..k]
  {
  }

  lemma InTree(t: Tree, leaves: seq<Sign>)
    requires t.Valid() && Selected(t, leaves)
    ensures forall l :: l in leaves ==> l < |t.nodes| && t.IsLeaf(l)
  {
  }

  /** The paths of selected leaves are a plan: sorted by their first differences, and of one tree. */
  lemma SelectedPlan(t: Tree, leaves: seq<Sign>)
    requires t.Valid() && Selected(t, leaves) && forall l :: l in leaves ==> l < |t.nodes|
    ensures Plan(PathsOf(t, leaves), t.Rept()).Valid() && FsmTable.TreePaths(PathsOf(t, leaves))
  {
    var ps := PathsOf(t, leaves);
    hide Lcp, FsmTable.TreePair;
    forall i, j | 0 <= i < j < |ps|
      ensures Less(ps[i], ps[j])
    {
      assert InOrder(t, leaves[i], leaves[j]);
      if leaves[i] == leaves[j] { NotLess(ps[i]); }
      LeavesApart(t, leaves[i], leaves[j]);
    }
    forall i, j | 0 <= i < |ps| && 0 <= j < |ps|
      ensures FsmTable.TreePair(ps[i], ps[j])
    {
      FromOneTree(t, leaves[i], leaves[j]);
    }
  }

  lemma NotLess(p: Path)
    ensures !PathLess(p, p)
  {
    LcpUnique(p, p, |p|);
  }

  // ---- The records ----

  /** The records as the schema types them. */
  function Values(t: Tree, docs: seq<Json>): (vs: seq<Value>)
    requires t.Valid()
    ensures |vs| == |docs|
  {
    seq(|docs|, i requires 0 <= i < |docs| => TypeElem(t, docs[i], 0))
  }

  /** Every field of every record has its place in the schema. */
  ghost predicate Known(t: Tree, docs: seq<Json>)
    requires t.Valid()
  {
    forall d :: d in docs ==> d.vtype == ObjectType && KnownKids(t, d, 0)
  }

  lemma {:induction false} ColumnSnoc(p: Path, vs: seq<Value>, v: Value)
    ensures ColumnOf(p, vs + [v]) == ColumnOf(p, vs) + ItemsOf(p, v)
  {
    hide ItemsOf;
    if vs == [] {
      assert vs + [v] == [v];
      assert ColumnOf(p, [v]) == ItemsOf(p, v) + ColumnOf(p, []);
    } else {
      ColumnSnoc(p, vs[1..], v);
      assert (vs + [v])[1..] == vs[1..] + [v];
      assert ItemsOf(p, vs[0]) + (ColumnOf(p, vs[1..]) + ItemsOf(p, v))
          == ItemsOf(p, vs[0]) + ColumnOf(p, vs[1..]) + ItemsOf(p, v);
    }
  }

  /** What one more record adds to the column of a leaf. */
  lemma NextValue(t: Tree, docs: seq<Json>, i: nat, l: Sign)
    requires t.Valid() && i < |docs| && l < |t.nodes| && t.IsLeaf(l)
    ensures ColumnOf(t.PathOf(l), Values(t, docs[..i + 1]))
         == ColumnOf(t.PathOf(l), Values(t, docs[..i])) + Shredder.RecordItems(t, docs[i], l)
  {
    hide TypeMembers, ColumnOf, StripeObject;
    assert docs[..i + 1] == docs[..i] + [docs[i]];
    assert Values(t, docs[..i + 1]) == Values(t, docs[..i]) + [TypeElem(t, docs[i], 0)];
    ColumnSnoc(t.PathOf(l), Values(t, docs[..i]), TypeElem(t, docs[i], 0));
    LeafHasPath(t, l);
  }

  ghost predicate ShreddedUpTo(t: Tree, docs: seq<Json>, i: nat, cols: seq<seq<Item>>)
    requires t.Valid() && i <= |docs|
  {
    |cols| == |t.nodes| &&
    forall l: Sign :: l < |cols| && t.IsLeaf(l) ==> cols[l] == ColumnOf(t.PathOf(l), Values(t, docs[..i]))
  }

  lemma ShreddedNext(t: Tree, docs: seq<Json>, i: nat, before: seq<seq<Item>>, after: seq<seq<Item>>)
    requires t.Valid() && i < |docs| && ShreddedUpTo(t, docs, i, before) && |after| == |t.nodes|
    requires forall l: Sign :: l < |after| && t.IsLeaf(l) ==>
        after[l] == before[l] + Shredder.RecordItems(t, docs[i], l)
    ensures ShreddedUpTo(t, docs, i + 1, after)
  {
    hide Shredder.RecordItems, ColumnOf, Values;
    forall l: Sign | l < |after| && t.IsLeaf(l)
      ensures after[l] == ColumnOf(t.PathOf(l), Values(t, docs[..i + 1]))
    {
      NextValue(t, docs, i, l);
    }
  }

  /** Shreds all records: every leaf's column is the striping of every record, in order. */
  method ShredAll(t: Tree, docs: seq<Json>) returns (cols: seq<seq<Item>>)
    requires t.Valid() && Known(t, docs)
    ensures ShreddedUpTo(t, docs, |docs|, cols)
  {
    hide ShreddedUpTo, Shredder.RecordItems, KnownKids, Tree.Valid;
    var gen := new Shredder.ColumnItemGenerator(t);
    NothingShredded(t, docs, gen.cols[..]);
    var i := 0;
    while i < |docs|
      invariant 0 <= i <= |docs| && gen.Valid() && fresh(gen) && fresh(gen.cnt) && fresh(gen.cols)
      invariant forall d :: 0 <= d < gen.cnt.Length ==> gen.cnt[d] == 0
      invariant ShreddedUpTo(t, docs, i, gen.cols[..])
    {
      ghost var before := gen.cols[..];
      assert docs[i] in docs;
      gen.GenerateRecord(docs[i]);
      ShreddedNext(t, docs, i, before, gen.cols[..]);
      i := i + 1;
    }
    cols := gen.cols[..];
  }

  lemma NothingShredded(t: Tree, docs: seq<Json>, cols: seq<seq<Item>>)
    requires t.Valid() && |cols| == |t.nodes| && forall l :: 0 <= l < |cols| ==> cols[l] == []
    ensures ShreddedUpTo(t, docs, 0, cols)
  {
  }

  // ---- Everything together ----

  /** Records of a schema, the leaves to select and their types, and the record capacity of a block. */
  datatype Query = Query(tree: Tree, leaves: seq<Sign>, dts: seq<DataType>, cap: nat, docs: seq<Json>) {
    function Columns(): Plan
      requires tree.Valid() && forall l :: l in leaves ==> l < |tree.nodes|
    {
      Plan(PathsOf(tree, leaves), tree.Rept())
    }

    function ToTable(): Table
      requires tree.Valid() && forall l :: l in leaves ==> l < |tree.nodes|
    {
      Table(Columns(), dts, cap, Values(tree, docs))
    }

    ghost predicate WellFormed() {
      && tree.Valid() && leaves != [] && |dts| == |leaves|
      && (forall l :: l in leaves ==> l < |tree.nodes|)
      && Selected(tree, leaves) && Known(tree, docs)
      && cap > 0 && cap % 8 == 0 && |docs| + cap < 0x8000_0000_0000_0000
    }

    /** Values are of their leaves' types, rows and columns fit their machine sizes, and no selected column
        has a block that is lost. */
    ghost predicate Answerable() {
      && WellFormed()
      && (forall c :: 0 <= c < |leaves| ==> ValuesTyped(c) && ColumnStorable(ToTable(), c, 0))
      && (forall v :: v in Values(tree, docs) ==> v.Obj? && |Encode(Project(Columns(), v))| < 0x1_0000_0000)
    }

    ghost predicate ValuesTyped(c: nat)
      requires WellFormed() && c < |leaves|
    {
      forall v :: v in Values(tree, docs) ==> Striping.Typed(dts[c], v, Columns().paths[c])
    }
  }

  lemma ColumnConforms(q: Query, c: nat)
    requires q.Answerable() && c < |q.leaves|
    ensures Conforming(q.ToTable().Meta(c), q.ToTable().vs)
  {
    hide Striping.Typed, TypeMembers, FitsObject, KnownKids, Encode, Project, ColumnStorable, Selected, Tree.Valid;
    assert q.ValuesTyped(c);
    InTree(q.tree, q.leaves);
    var l, vs := q.leaves[c], Values(q.tree, q.docs);
    assert l in q.leaves;
    LeafHasPath(q.tree, l);
    RootNoLeaf(q.tree);
    forall v | v in vs
      ensures v.Obj? && FitsObject(q.tree.Rept(), v, q.tree.PathOf(l), 0)
    {
      var i :| 0 <= i < |vs| && vs[i] == v;
      assert q.docs[i] in q.docs;
      TypedConforms(q.tree, q.docs[i], l);
    }
  }

  lemma RootNoLeaf(t: Tree)
    requires t.Valid()
    ensures !t.IsLeaf(0)
  {
  }

  lemma QueryStorable(q: Query)
    requires q.Answerable()
    ensures Storable(q.ToTable())
  {
    hide Striping.Typed, TypeElem, KnownKids, Encode, Project, ColumnStorable, Selected, Tree.Valid, Plan.Valid,
         FsmTable.TreePaths, Conforming;
    SelectedPlan(q.tree, q.leaves);
    forall c | 0 <= c < |q.leaves|
      ensures Conforming(q.ToTable().Meta(c), q.ToTable().vs)
    {
      ColumnConforms(q, c);
    }
  }

  /** Shredding the records, storing the selected columns, reading them back record by record and
      assembling them gives exactly the projections of the records on the selected leaves, in order. */
  method ShredStoreAssemble(q: Query) returns (rows: Bytes)
    requires q.Answerable()
    ensures rows == Concat(Rows(q.Columns(), Values(q.tree, q.docs)))
  {
    hide ColumnStorable, Selected, Tree.Valid, Plan.Valid, Storable, Encode, Project, KnownKids, Query.ValuesTyped,
         Rows, Concat, ColumnOf, TypeElem;
    QueryStorable(q);
    var all := ShredAll(q.tree, q.docs);
    LeavesInside(q);
    var cols := seq(|q.leaves|, c requires 0 <= c < |q.leaves| && q.leaves[c] < |all| => all[q.leaves[c]]);
    ColumnsShredded(q, all, cols);
    rows := StoreAndAssemble(q.Columns(), q.dts, q.cap, cols, q.ToTable());
  }

  lemma LeavesInside(q: Query)
    requires q.WellFormed()
    ensures forall c :: 0 <= c < |q.leaves| ==> q.leaves[c] < |q.tree.nodes|
  {
    forall c | 0 <= c < |q.leaves|
      ensures q.leaves[c] < |q.tree.nodes|
    {
      assert q.leaves[c] in q.leaves;
    }
  }

  lemma ColumnsShredded(q: Query, all: seq<seq<Item>>, cols: seq<seq<Item>>)
    requires q.WellFormed() && ShreddedUpTo(q.tree, q.docs, |q.docs|, all)
    requires |cols| == |q.leaves| && forall c :: 0 <= c < |cols| ==> q.leaves[c] < |all| && cols[c] == all[q.leaves[c]]
    ensures Shredded(q.ToTable(), cols)
  {
    hide ColumnOf, TypeElem, KnownKids, Tree.Valid;
    InTree(q.tree, q.leaves);
    assert q.docs[..|q.docs|] == q.docs;
    assert forall c :: 0 <= c < |cols| ==> q.leaves[c] in q.leaves;
  }
}
