// The arena of JSON fields that the parser fills, record after record.

module JsonTrees {
  import opened Wrappers

  /** A C string: none, one in the text buffer, or the constant for an array index. */
  datatype Pointer = Null | InText(pos: nat) | IndexString(i: nat)

  /** JSONBinField: `used` children of `kids` belong to the current record. */
  datatype BinField = BinField(key: Pointer, val: Pointer, vtype: nat, parent: nat, kids: seq<nat>, used: nat)

  // JSONType
  const INVALID: nat := 0
  const OBJECT: nat := 1
  const ARRAY: nat := 2
  const STRING: nat := 3
  const NUMBER: nat := 4
  const TRUE: nat := 5
  const FALSE: nat := 6
  const NULL: nat := 7

  type Nodes = seq<BinField>

  /** Children come behind their parent, know it, and are listed once. */
  ghost predicate Arena(ns: Nodes) {
    && ns != [] && ns[0].parent == 0
    && (forall i :: 0 < i < |ns| ==> ns[i].parent < i && i in ns[ns[i].parent].kids)
    && forall i :: 0 <= i < |ns| ==> KidsOk(ns, i)
  }

  ghost predicate KidsOk(ns: Nodes, i: nat)
    requires i < |ns|
  {
    var kids := ns[i].kids;
    && ns[i].used <= |kids|
    && (forall k :: 0 <= k < |kids| ==> i < kids[k] < |ns| && ns[kids[k]].parent == i)
    && forall j, k :: 0 <= j < k < |kids| ==> kids[j] != kids[k]
  }

  /** Node j lies in the part of the arena below a, or is a. */
  ghost predicate Under(ns: Nodes, a: nat, j: nat) {
    j < |ns| && (j == a || (a < j && ns[j].parent < j && Under(ns, a, ns[j].parent)))
  }

  /** Nothing at or below node a belongs to the current record yet. */
  ghost predicate Clean(ns: Nodes, a: nat) {
    forall j: nat :: Under(ns, a, j) ==> ns[j].used == 0
  }

  /** Between two states only nodes at or below a have changed, new ones were added, and no node has
      lost a child or got another parent. */
  ghost predicate Grown(before: Nodes, after: Nodes, a: nat) {
    && Arena(after) && |before| <= |after|
    && (forall j :: 0 <= j < |before| ==> after[j].parent == before[j].parent && before[j].kids <= after[j].kids)
    && forall j :: 0 <= j < |before| && !Under(before, a, j) ==> after[j] == before[j]
  }

  /** The current record's tree, as its pointers. */
  datatype Shape = Shape(key: Pointer, val: Pointer, vtype: nat, kids: seq<Shape>)

  function ShapeOf(ns: Nodes, i: nat): Shape
    requires Arena(ns) && i < |ns|
    decreases |ns| - i
  {
    var n := ns[i];
    assert KidsOk(ns, i);
    Shape(n.key, n.val, n.vtype, seq(n.used, k requires 0 <= k < n.used => ShapeOf(ns, n.kids[k])))
  }

  // ---- Framing ----

  lemma {:induction false} UnderSame(before: Nodes, after: Nodes, a: nat, j: nat)
    requires |before| <= |after| && forall k :: 0 <= k < |before| ==> after[k].parent == before[k].parent
    requires j < |before|
    ensures Under(before, a, j) <==> Under(after, a, j)
    decreases j
  {
    if a < j && before[j].parent < j {
      UnderSame(before, after, a, before[j].parent);
    }
  }

  lemma {:induction false} UnderTrans(ns: Nodes, a: nat, b: nat, j: nat)
    requires Under(ns, a, b) && Under(ns, b, j)
    ensures Under(ns, a, j)
    decreases j
  {
    if j != b {
      UnderTrans(ns, a, b, ns[j].parent);
    }
  }

  lemma {:induction false} UnderOrder(ns: Nodes, a: nat, j: nat)
    requires Under(ns, a, j)
    ensures a <= j < |ns|
  {
  }

  /** Nothing lies below two children of one node. */
  lemma {:induction false} SiblingsApart(ns: Nodes, a: nat, b: nat, j: nat)
    requires a < |ns| && b < |ns| && a != b && ns[a].parent == ns[b].parent < a && ns[b].parent < b
    ensures !(Under(ns, a, j) && Under(ns, b, j))
    decreases j
  {
    if Under(ns, a, j) && Under(ns, b, j) {
      if j == a {
        UnderOrder(ns, b, ns[a].parent);
      } else if j == b {
        UnderOrder(ns, a, ns[b].parent);
      } else {
        SiblingsApart(ns, a, b, ns[j].parent);
      }
    }
  }

  /** A tree depends only on the nodes below its root. */
  lemma {:induction false} ShapeFrame(before: Nodes, after: Nodes, i: nat)
    requires Arena(before) && Arena(after) && i < |before| <= |after|
    requires forall j: nat :: Under(before, i, j) ==> after[j] == before[j]
    ensures ShapeOf(after, i) == ShapeOf(before, i)
    decreases |before| - i
  {
    var n := before[i];
    assert Under(before, i, i);
    assert KidsOk(before, i);
    forall k | 0 <= k < n.used
      ensures ShapeOf(after, n.kids[k]) == ShapeOf(before, n.kids[k])
    {
      var c := n.kids[k];
      assert Under(before, i, c);
      forall j: nat | Under(before, c, j)
        ensures after[j] == before[j]
      {
        UnderTrans(before, i, c, j);
      }
      ShapeFrame(before, after, c);
    }
  }

  /** What happens below a child leaves its siblings alone. */
  lemma SiblingKept(before: Nodes, after: Nodes, c: nat, s: nat)
    requires Arena(before) && Grown(before, after, c)
    requires c < |before| && s < |before| && c != s && before[c].parent == before[s].parent < c && before[s].parent < s
    ensures ShapeOf(after, s) == ShapeOf(before, s)
    ensures Clean(before, s) ==> Clean(after, s)
  {
    hide ShapeOf, Arena, Under, Clean;
    forall j: nat | j < |before| && Under(before, s, j)
      ensures after[j] == before[j]
    {
      SiblingsApart(before, c, s, j);
    }
    UnderInside(before, s);
    ShapeFrame(before, after, s);
    if Clean(before, s) {
      CleanKept(before, after, s);
    }
  }

  lemma UnderInside(ns: Nodes, s: nat)
    ensures forall j: nat :: Under(ns, s, j) ==> j < |ns|
  {
  }

  lemma CleanKept(before: Nodes, after: Nodes, s: nat)
    requires Arena(before) && Arena(after) && s < |before| <= |after|
    requires forall k :: 0 <= k < |before| ==> after[k].parent == before[k].parent
    requires forall k: nat :: Under(before, s, k) ==> after[k] == before[k]
    requires Clean(before, s)
    ensures Clean(after, s)
  {
    hide Arena;
    forall j: nat | Under(after, s, j)
      ensures after[j].used == 0
    {
      UnderStays(before, after, s, j);
    }
  }

  /** With nothing changed below s, nothing new is below it. */
  lemma {:induction false} UnderStays(before: Nodes, after: Nodes, s: nat, j: nat)
    requires Arena(before) && Arena(after) && s < |before| <= |after|
    requires forall k :: 0 <= k < |before| ==> after[k].parent == before[k].parent
    requires forall k: nat :: Under(before, s, k) ==> after[k] == before[k]
    requires Under(after, s, j)
    ensures Under(before, s, j)
    decreases j
  {
    if j < |before| {
      UnderSame(before, after, s, j);
    } else {
      UnderStays(before, after, s, after[j].parent);
      KidsInside(before, after[j].parent);
      assert false;
    }
  }

  lemma KidsInside(ns: Nodes, i: nat)
    requires Arena(ns) && i < |ns|
    ensures forall c :: c in ns[i].kids ==> c < |ns|
  {
    assert KidsOk(ns, i);
  }

  /** Changes below a child are changes below its ancestors. */
  lemma GrownTrans(a: Nodes, b: Nodes, c: Nodes, i: nat, k: nat)
    requires Grown(a, b, i) && Grown(b, c, k) && Under(b, i, k)
    ensures Grown(a, c, i)
  {
    hide Arena, Under;
    forall j: nat | j < |a| && !Under(a, i, j)
      ensures c[j] == a[j]
    {
      UnderSame(a, b, i, j);
      if Under(b, k, j) {
        UnderTrans(b, i, k, j);
      }
    }
  }

  // ---- Changing nodes ----

  /** The same nodes with the same links. */
  ghost predicate SameLinks(a: Nodes, b: Nodes) {
    |a| == |b| && forall i :: 0 <= i < |a| ==> b[i].kids == a[i].kids && b[i].parent == a[i].parent
  }

  lemma LinksArena(a: Nodes, b: Nodes)
    requires Arena(a) && SameLinks(a, b) && forall i :: 0 <= i < |b| ==> b[i].used <= |b[i].kids|
    ensures Arena(b)
  {
    forall i | 0 <= i < |b|
      ensures KidsOk(b, i)
    {
      assert KidsOk(a, i);
    }
  }

  lemma Rooms(ns: Nodes)
    requires Arena(ns)
    ensures forall i :: 0 <= i < |ns| ==> ns[i].used <= |ns[i].kids|
  {
    forall i | 0 <= i < |ns|
      ensures ns[i].used <= |ns[i].kids|
    {
      assert KidsOk(ns, i);
    }
  }

  /** A node behind all others becomes the last child of p. */
  function Added(ns: Nodes, p: nat): Nodes
    requires p < |ns|
  {
    (ns + [BinField(Null, Null, INVALID, p, [], 0)])[p := ns[p].(kids := ns[p].kids + [|ns|])]
  }

  lemma AddedArena(ns: Nodes, p: nat)
    requires Arena(ns) && p < |ns|
    ensures Arena(Added(ns, p))
  {
    var b := Added(ns, p);
    AddedLinks(ns, p);
    hide Added, KidsOk;
    forall i | 0 <= i < |b|
      ensures KidsOk(b, i)
    {
      AddedKids(ns, p, i);
    }
    forall i | 0 < i < |ns|
      ensures b[i].parent < i && i in b[b[i].parent].kids
    {
      Prefix(ns[ns[i].parent].kids, b[ns[i].parent].kids, i);
    }
  }

  lemma AddedKids(ns: Nodes, p: nat, i: nat)
    requires Arena(ns) && p < |ns| && i <= |ns|
    ensures KidsOk(Added(ns, p), i)
  {
    AddedLinks(ns, p);
    hide Added;
    if i < |ns| {
      assert KidsOk(ns, i);
    }
  }

  lemma AddedLinks(ns: Nodes, p: nat)
    requires p < |ns|
    ensures var b := Added(ns, p);
            && |b| == |ns| + 1 && b[|ns|].kids == [] && b[|ns|].used == 0 && b[|ns|].parent == p
            && b[p].kids == ns[p].kids + [|ns|] && |ns| in b[p].kids
            && (forall i :: 0 <= i < |ns| ==>
                  b[i].parent == ns[i].parent && b[i].used == ns[i].used && ns[i].kids <= b[i].kids)
            && forall i :: 0 <= i < |ns| && i != p ==> b[i].kids == ns[i].kids
  {
    var b := Added(ns, p);
    assert b[p].kids[|ns[p].kids|] == |ns|;
  }

  lemma Prefix(a: seq<nat>, b: seq<nat>, x: nat)
    requires a <= b && x in a
    ensures x in b
  {
  }

  lemma NewIsClean(ns: Nodes, p: nat)
    requires Arena(ns) && p < |ns|
    ensures Clean(Added(ns, p), |ns|)
  {
    UnderInside(Added(ns, p), |ns|);
  }

  /** One more child of p is in use. */
  lemma UsedGrows(ns: Nodes, p: nat)
    requires Arena(ns) && p < |ns| && ns[p].used < |ns[p].kids|
    ensures var b := ns[p := ns[p].(used := ns[p].used + 1)];
            && Arena(b) && p < ns[p].kids[ns[p].used] < |ns|
            && (Clean(ns, ns[p].kids[ns[p].used]) ==> Clean(b, ns[p].kids[ns[p].used]))
  {
    var b, c := ns[p := ns[p].(used := ns[p].used + 1)], ns[p].kids[ns[p].used];
    assert KidsOk(ns, p);
    Rooms(ns);
    LinksArena(ns, b);
    if Clean(ns, c) {
      hide Arena;
      forall j: nat | Under(b, c, j)
        ensures b[j].used == 0
      {
        UnderSame(ns, b, c, j);
        UnderOrder(b, c, j);
      }
    }
  }

  // ---- The tree ----

  class JSONBinTree {
    var nodes: Nodes

    ghost predicate Valid()
      reads this
    {
      Arena(nodes)
    }

    constructor ()
      ensures Valid() && nodes == [BinField(Null, Null, OBJECT, 0, [], 0)] && Clean(nodes, 0)
    {
      nodes := [BinField(Null, Null, OBJECT, 0, [], 0)];
    }

    /** Forgets the record, and keeps nodes and children for the next one. */
    method Clear()
      requires Valid()
      modifies this
      ensures Valid() && |nodes| == |old(nodes)| && Clean(nodes, 0)
      ensures nodes[0] == BinField(Null, Null, OBJECT, 0, old(nodes[0].kids), 0)
    {
      Rooms(nodes);
      var ni := 0;
      while ni < |nodes|
        invariant 0 <= ni <= |nodes| == |old(nodes)|
        invariant forall i :: 0 <= i < |nodes| ==>
          nodes[i] == if i < ni then Cleared(old(nodes[i])) else old(nodes[i])
      {
        nodes := nodes[ni := nodes[ni].(used := 0, vtype := INVALID, key := Null, val := Null)];
        ni := ni + 1;
      }
      nodes := nodes[0 := nodes[0].(key := Null, val := Null, vtype := OBJECT)];
      LinksArena(old(nodes), nodes);
    }

    /** The next child of a node: one that an earlier record left, or a new one. */
    method GetNextChild(p: nat) returns (c: nat)
      requires Valid() && p < |nodes|
      requires forall k :: nodes[p].used <= k < |nodes[p].kids| ==> Clean(nodes, nodes[p].kids[k])
      modifies this
      ensures Valid() && Grown(old(nodes), nodes, p) && p < c < |nodes| && Clean(nodes, c)
      ensures nodes[p] == old(nodes[p]).(used := old(nodes[p].used) + 1, kids := nodes[p].kids)
      ensures 0 < nodes[p].used <= |nodes[p].kids| && nodes[p].kids[nodes[p].used - 1] == c
      ensures old(nodes[p].kids) <= nodes[p].kids <= old(nodes[p].kids) + [c]
      ensures forall j :: 0 <= j < |old(nodes)| && j != p ==> nodes[j] == old(nodes[j])
    {
      hide Arena, Clean, Under;
      ghost var before := nodes;
      Rooms(before);
      if nodes[p].used == |nodes[p].kids| {
        c := |nodes|;
        nodes := nodes + [BinField(Null, Null, INVALID, p, [], 0)];
        nodes := nodes[p := nodes[p].(kids := nodes[p].kids + [c])];
        AddedArena(before, p);
        NewIsClean(before, p);
        assert nodes == Added(before, p);
      } else {
        c := nodes[p].kids[nodes[p].used];
      }
      UsedGrows(nodes, p);
      nodes := nodes[p := nodes[p].(used := nodes[p].used + 1)];
      Itself(before, p);
    }

    /** `JSONBinField::set`. */
    method Set(i: nat, vtype: nat, key: Pointer, val: Pointer)
      requires Valid() && i < |nodes|
      modifies this
      ensures Valid() && nodes == old(nodes)[i := old(nodes[i]).(vtype := vtype, key := key, val := val)]
    {
      Rooms(nodes);
      LinksArena(nodes, nodes[i := nodes[i].(vtype := vtype, key := key, val := val)]);
      nodes := nodes[i := nodes[i].(vtype := vtype, key := key, val := val)];
    }
  }

  lemma Itself(ns: Nodes, p: nat)
    requires p < |ns|
    ensures Under(ns, p, p)
  {
  }

  function Cleared(n: BinField): BinField { n.(used := 0, vtype := INVALID, key := Null, val := Null) }
}
