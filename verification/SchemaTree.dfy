// SchemaTree: the schema grows by one node at a time.

module SchemaTrees {
  import opened Wrappers
  import opened Paths
  import opened Schema

  const ROOT := SchemaNode("", 0, 0, [], None, Single)

  /** The tree with one more node below p. */
  function Extended(t: Tree, p: Sign, name: string, dt: Option<LeafType>, cat: Category): Tree
    requires p < |t.nodes|
  {
    var n := |t.nodes|;
    Tree(t.nodes[p := t.nodes[p].(kids := t.nodes[p].kids + [n])] + [SchemaNode(name, p, t.nodes[p].level + 1, [], dt,
        cat)])
  }

  /** What the caller has found out: the parent is no leaf and has no such child yet. */
  ghost predicate CanAdd(t: Tree, p: Sign, name: string, dt: Option<LeafType>, cat: Category) {
    && p < |t.nodes| && t.nodes[p].dt == None
    && forall k :: 0 <= k < |t.nodes[p].kids| && t.nodes[p].kids[k] < |t.nodes| ==>
         var c := t.nodes[t.nodes[p].kids[k]]; !(c.name == name && c.dt == dt && c.cat == cat)
  }

  lemma ExtendedLinks(t: Tree, p: Sign, name: string, dt: Option<LeafType>, cat: Category)
    requires t.Valid() && p < |t.nodes|
    ensures var u, n := Extended(t, p, name, dt, cat), |t.nodes|;
            && |u.nodes| == n + 1 && u.nodes[n] == SchemaNode(name, p, t.nodes[p].level + 1, [], dt, cat)
            && u.nodes[p].kids == t.nodes[p].kids + [n] && n in u.nodes[p].kids
            && (forall i :: 0 <= i < n ==>
                  u.nodes[i] == t.nodes[i].(kids := u.nodes[i].kids) && t.nodes[i].kids <= u.nodes[i].kids)
            && forall i :: 0 <= i < n && i != p ==> u.nodes[i] == t.nodes[i]
  {
    assert Extended(t, p, name, dt, cat).nodes[p].kids[|t.nodes[p].kids|] == |t.nodes|;
  }

  lemma ExtendedKids(t: Tree, p: Sign, name: string, dt: Option<LeafType>, cat: Category, i: Sign)
    requires t.Valid() && CanAdd(t, p, name, dt, cat) && i <= |t.nodes|
    ensures i < |Extended(t, p, name, dt, cat).nodes| && Extended(t, p, name, dt, cat).KidsOk(i)
  {
    ExtendedLinks(t, p, name, dt, cat);
    hide Extended;
    if i < |t.nodes| {
      assert t.KidsOk(i);
    }
  }

  /** A node that is added properly keeps the tree proper. */
  lemma ExtendedValid(t: Tree, p: Sign, name: string, dt: Option<LeafType>, cat: Category)
    requires t.Valid() && CanAdd(t, p, name, dt, cat)
    ensures Extended(t, p, name, dt, cat).Valid()
  {
    var u := Extended(t, p, name, dt, cat);
    ExtendedLinks(t, p, name, dt, cat);
    hide Extended, Tree.KidsOk;
    forall i | 0 <= i < |u.nodes|
      ensures u.KidsOk(i)
    {
      ExtendedKids(t, p, name, dt, cat, i);
    }
    forall i | 0 < i < |u.nodes|
      ensures u.NodeOk(i)
    {
      if i < |t.nodes| {
        assert t.NodeOk(i);
        KeepsKid(t.nodes[t.nodes[i].parent].kids, u.nodes[t.nodes[i].parent].kids, i);
      }
    }
  }

  lemma KeepsKid(a: seq<Sign>, b: seq<Sign>, c: Sign)
    requires a <= b && c in a
    ensures c in b
  {
  }

  /** Paths of the nodes that were there do not change. */
  lemma {:induction false} PathKept(t: Tree, u: Tree, s: Sign)
    requires t.Valid() && u.Valid() && s < |t.nodes| <= |u.nodes|
    requires forall i :: 0 <= i < |t.nodes| ==> u.nodes[i].parent == t.nodes[i].parent
    ensures u.PathOf(s) == t.PathOf(s)
    decreases s
  {
    if s != 0 {
      assert t.NodeOk(s);
      PathKept(t, u, t.nodes[s].parent);
    }
  }

  /** A field that is looked up is found where the new node says so, and otherwise as before. */
  lemma LookupAdded(t: Tree, p: Sign, f: Json, s: Sign, g: Json)
    requires t.Valid() && p < |t.nodes| && s < |t.nodes| && t.Lookup(p, f) == None
    requires CanAdd(t, p, f.key, f.CalcType(), f.CalcCategory())
    ensures var u := Extended(t, p, f.key, f.CalcType(), f.CalcCategory());
            && u.Valid()
            && u.Lookup(p, f) == Some(|t.nodes|)
            && (t.Lookup(s, g).Some? ==> u.Lookup(s, g) == t.Lookup(s, g))
  {
    var name, dt, cat := f.key, f.CalcType(), f.CalcCategory();
    var u := Extended(t, p, name, dt, cat);
    ExtendedValid(t, p, name, dt, cat);
    hide Tree.Valid, Json.CalcType, Json.CalcCategory, Tree.Lookup, Extended, IsKid;
    LookupIff(u, p, f, |t.nodes|);
    KidAdded(t, p, f, p, |t.nodes|, name, dt, cat);
    if t.Lookup(s, g).Some? {
      var c := t.Lookup(s, g).value;
      LookupIff(t, s, g, c);
      LookupIff(t, p, f, c);
      LookupIff(u, s, g, c);
      KidAdded(t, p, f, s, c, g.key, g.CalcType(), g.CalcCategory());
      KidAdded(t, p, f, s, c, g.key, None, Index);
      forall d: Sign | d < |u.nodes|
        ensures IsKid(u, s, d, g.key, g.CalcType(), Multi) <==>
                  IsKid(t, s, d, g.key, g.CalcType(), Multi)
                  || (s == p && d == |t.nodes| && g.key == name && g.CalcType() == dt && cat == Multi)
      {
        KidAdded(t, p, f, s, d, g.key, g.CalcType(), Multi);
      }
      forall d: Sign | d >= |u.nodes|
        ensures !IsKid(u, s, d, g.key, g.CalcType(), Multi)
      {
        NoKid(u, s, d, g.key, g.CalcType(), Multi);
      }
    }
  }

  lemma NoKid(t: Tree, s: Sign, c: Sign, name: string, dt: Option<LeafType>, cat: Category)
    requires s < |t.nodes| <= c
    ensures !IsKid(t, s, c, name, dt, cat)
  {
  }

  /** The children of the tree with one more node are those from before and the new one. */
  lemma KidAdded(t: Tree, p: Sign, f: Json, s: Sign, c: Sign, name: string, dt: Option<LeafType>, cat: Category)
    requires t.Valid() && p < |t.nodes| && s < |t.nodes|
    ensures var u := Extended(t, p, f.key, f.CalcType(), f.CalcCategory());
            s < |u.nodes| && (IsKid(u, s, c, name, dt, cat) <==>
              IsKid(t, s, c, name, dt, cat)
              || (s == p && c == |t.nodes| && name == f.key && dt == f.CalcType() && cat == f.CalcCategory()))
  {
    hide Json.CalcType, Json.CalcCategory;
    ExtendedLinks(t, p, f.key, f.CalcType(), f.CalcCategory());
    assert t.KidsOk(s);
    hide Extended, Tree.Valid;
  }

  /** A field that was not found can be added. */
  lemma NotFoundCanAdd(t: Tree, p: Sign, f: Json)
    requires t.Valid() && p < |t.nodes| && !t.IsLeaf(p) && t.Lookup(p, f) == None
    ensures CanAdd(t, p, f.key, f.CalcType(), f.CalcCategory())
  {
    assert t.KidsOk(p);
    FindComplete(t, t.nodes[p].kids, f.key, f.CalcType(), f.CalcCategory());
  }

  class SchemaTree {
    var tree: Tree              // m_nodes, m_names
    var fids: seq<nat>          // the field id of every node
    var nextFid: nat            // m_next_fid

    /** Over all runs a node's field id is its index. */
    ghost predicate Valid()
      reads this
    {
      && tree.Valid() && |fids| == |tree.nodes| == nextFid
      && forall i :: 0 <= i < |fids| ==> fids[i] == i
    }

    constructor ()
      ensures Valid() && tree == Tree([ROOT])
    {
      tree := Tree([ROOT]);
      fids, nextFid := [0], 1;
    }

    /** `addNode`: the new node's id and index are the next ones, its path is its parent's and itself, and no
        other path changes. */
    method AddNode(name: string, p: Sign, dt: Option<LeafType>, cat: Category) returns (idx: Sign)
      requires Valid() && CanAdd(tree, p, name, dt, cat)
      modifies this
      ensures Valid() && idx == |old(tree.nodes)| && |tree.nodes| == idx + 1 && fids == old(fids) + [idx]
      ensures tree.nodes[idx] == SchemaNode(name, p, old(tree.nodes[p].level) + 1, [], dt, cat)
      ensures tree.nodes[p] == old(tree.nodes[p]).(kids := old(tree.nodes[p].kids) + [idx])
      ensures forall s: Sign :: s < idx && s != p ==> tree.nodes[s] == old(tree.nodes[s])
      ensures tree.PathOf(idx) == old(tree.PathOf(p)) + [idx] && tree.IsLeaf(idx) == dt.Some?
      ensures forall s: Sign :: s < idx ==> tree.PathOf(s) == old(tree.PathOf(s))
    {
      ghost var before := tree;
      ExtendedValid(tree, p, name, dt, cat);
      ExtendedLinks(tree, p, name, dt, cat);
      idx := |tree.nodes|;
      tree := Extended(tree, p, name, dt, cat);
      fids := fids + [nextFid];
      nextFid := nextFid + 1;
      forall s: Sign | s < idx
        ensures tree.PathOf(s) == before.PathOf(s)
      {
        PathKept(before, tree, s);
      }
    }

    /** `updateSchema`, as far as it finds a field's node or adds it: afterwards the field is found, and so is
        every field that was found before, at the same node. */
    method UpdateSchema(f: Json, p: Sign) returns (c: Sign)
      requires Valid() && p < |tree.nodes| && !tree.IsLeaf(p)
      modifies this
      ensures Valid() && |old(tree.nodes)| <= |tree.nodes| && tree.Lookup(p, f) == Some(c)
      ensures old(tree.Lookup(p, f)).Some? ==> tree == old(tree)
      ensures old(tree.Lookup(p, f)).None? ==>
                && c == |old(tree.nodes)| && |tree.nodes| == c + 1
                && tree.nodes[c]
                   == SchemaNode(f.key, p, old(tree.nodes[p].level) + 1, [], f.CalcType(), f.CalcCategory())
      ensures forall s: Sign, g: Json :: s < |old(tree.nodes)| && old(tree.Lookup(s, g)).Some? ==>
                tree.Lookup(s, g) == old(tree.Lookup(s, g))
    {
      hide Tree.Valid, Tree.Lookup, CanAdd;
      var r := tree.Lookup(p, f);
      if r.Some? { return r.value; }
      ghost var before := tree;
      NotFoundCanAdd(tree, p, f);
      c := AddNode(f.key, p, f.CalcType(), f.CalcCategory());
      AddedIs(before, tree, p, f);
      LookupAdded(before, p, f, p, f);
      forall s: Sign, g: Json | s < |before.nodes| && before.Lookup(s, g).Some?
        ensures tree.Lookup(s, g) == before.Lookup(s, g)
      {
        LookupAdded(before, p, f, s, g);
      }
    }
  }

  lemma AddedIs(t: Tree, u: Tree, p: Sign, f: Json)
    requires t.Valid() && p < |t.nodes| && |u.nodes| == |t.nodes| + 1
    requires u.nodes[|t.nodes|] == SchemaNode(f.key, p, t.nodes[p].level + 1, [], f.CalcType(), f.CalcCategory())
    requires u.nodes[p] == t.nodes[p].(kids := t.nodes[p].kids + [|t.nodes|])
    requires forall s: Sign :: s < |t.nodes| && s != p ==> u.nodes[s] == t.nodes[s]
    ensures u == Extended(t, p, f.key, f.CalcType(), f.CalcCategory())
  {
    hide Tree.Valid, Json.CalcType, Json.CalcCategory;
  }
}
