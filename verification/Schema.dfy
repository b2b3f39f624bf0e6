// The schema tree as an arena of nodes, and records parsed to a tree of JSON fields.

module Schema {
  import opened Wrappers
  import opened Bytes
  import opened Paths
  import opened Records
  import JsonTrees

  // ---- JSON fields ----

  /** `kind` is the JSON type of the value. */
  datatype ValueType = NullType | ObjectType | ArrayType | Primitive(kind: nat)

  datatype LeafType = StringLeaf | DoubleLeaf | BooleanLeaf

  /** JSONTypeMapper::mapType: true and false are two JSON types and one data type. */
  function MapType(kind: nat): Option<LeafType> {
    if kind == JsonTrees.STRING then Some(StringLeaf)
    else if kind == JsonTrees.NUMBER then Some(DoubleLeaf)
    else if kind == JsonTrees.TRUE || kind == JsonTrees.FALSE then Some(BooleanLeaf)
    else None
  }

  /** A JSONBinField with the children it uses; the elements of an array have their index for a key. */
  datatype Json = Json(key: string, vtype: ValueType, txt: Bytes, kids: seq<Json>) {
    /** null, {} and []. */
    predicate IsNull() {
      vtype == NullType || (kids == [] && (vtype == ObjectType || vtype == ArrayType))
    }

    /** An array whose elements all have one type. */
    predicate IsRepeatedArray() {
      vtype == ArrayType && kids != [] && forall i :: 0 <= i < |kids| ==> kids[i].vtype == kids[0].vtype
    }

    /** `calcType`: the type of a primitive, or of the elements of a repeated array. */
    function CalcType(): Option<LeafType> {
      var t := if IsRepeatedArray() then kids[0].vtype else vtype;
      if t.Primitive? then MapType(t.kind) else None
    }

    /** `calcCategory`. */
    function CalcCategory(): Category {
      if vtype != ArrayType then Single else if IsRepeatedArray() then Multi else Index
    }
  }

  datatype Category = Single | Multi | Index

  // ---- The schema ----

  datatype SchemaNode = SchemaNode(name: string, parent: Sign, level: nat, kids: seq<Sign>, dt: Option<LeafType>,
      cat: Category)

  datatype Tree = Tree(nodes: seq<SchemaNode>) {
    /** Parents come before their children, and every node is listed by its parent, once. */
    ghost predicate Valid() {
      && nodes != [] && nodes[0].level == 0 && nodes[0].dt == None && nodes[0].cat == Single
      && (forall i :: 0 < i < |nodes| ==> NodeOk(i))
      && (forall i :: 0 <= i < |nodes| ==> KidsOk(i))
    }

    ghost predicate NodeOk(i: Sign)
      requires i < |nodes|
    {
      && nodes[i].parent < i
      && nodes[i].level == nodes[nodes[i].parent].level + 1
      && i in nodes[nodes[i].parent].kids
      && nodes[nodes[i].parent].dt == None
    }

    ghost predicate KidsOk(i: Sign)
      requires i < |nodes|
    {
      && (forall k :: 0 <= k < |nodes[i].kids| ==>
            i < nodes[i].kids[k] < |nodes| && nodes[nodes[i].kids[k]].parent == i)
      && (forall j, k :: 0 <= j < k < |nodes[i].kids| ==> nodes[i].kids[j] != nodes[i].kids[k])
      && (forall j, k :: 0 <= j < k < |nodes[i].kids| ==> !SameNode(nodes[i].kids[j], nodes[i].kids[k]))
    }

    /** Two children cannot share name, type and category. */
    predicate SameNode(a: Sign, b: Sign) {
      a < |nodes| && b < |nodes| && nodes[a].name == nodes[b].name && nodes[a].dt == nodes[b].dt &&
          nodes[a].cat == nodes[b].cat
    }

    predicate IsLeaf(s: Sign)
      requires s < |nodes|
    {
      nodes[s].dt.Some?
    }

    /** `getPath`: the signatures from below the root down to the node. */
    function PathOf(s: Sign): (p: Path)
      requires Valid() && s < |nodes|
      ensures |p| == nodes[s].level
      ensures p != [] ==> p[|p| - 1] == s
      ensures p == [] <==> s == 0
    {
      if s == 0 then []
      else
        assert NodeOk(s);
        PathOf(nodes[s].parent) + [s]
    }

    function Rept(): set<Sign> {
      set s: Sign | s < |nodes| && nodes[s].cat == Multi
    }

    /** `findNode` among the children of a node, from the i-th on. */
    function FindFrom(kids: seq<Sign>, name: string, dt: Option<LeafType>, cat: Category): (r: Option<Sign>)
      requires forall k :: 0 <= k < |kids| ==> kids[k] < |nodes|
      ensures r.Some? ==> r.value in kids && nodes[r.value].name == name
      ensures r.Some? ==> nodes[r.value].dt == dt && nodes[r.value].cat == cat
    {
      if kids == [] then None
      else
        var n := nodes[kids[0]];
        if n.name == name && n.dt == dt && n.cat == cat then Some(kids[0]) else FindFrom(kids[1..], name, dt, cat)
    }

    /** The part of `updateSchema` that looks a field up: an array that is not known as one of its
        elements' type may be known as an indexed one. */
    function Lookup(s: Sign, f: Json): (r: Option<Sign>)
      requires Valid() && s < |nodes|
      ensures r.Some? ==> r.value in nodes[s].kids && nodes[r.value].name == f.key
    {
      assert KidsOk(s);
      var kids := nodes[s].kids;
      var r := FindFrom(kids, f.key, f.CalcType(), f.CalcCategory());
      if r.None? && f.CalcCategory() == Multi then FindFrom(kids, f.key, None, Index) else r
    }
  }

  /** A child lies directly below its parent on every path through it. */
  lemma KidLevel(t: Tree, s: Sign, c: Sign)
    requires t.Valid() && s < |t.nodes| && c in t.nodes[s].kids
    ensures s < c < |t.nodes| && t.nodes[c].parent == s && t.nodes[c].level == t.nodes[s].level + 1
    ensures !t.IsLeaf(s)
  {
    assert t.KidsOk(s);
    assert t.NodeOk(c);
  }

  /** Child c of node s has this name, type and category. */
  predicate IsKid(t: Tree, s: Sign, c: Sign, name: string, dt: Option<LeafType>, cat: Category)
    requires s < |t.nodes|
  {
    c in t.nodes[s].kids && c < |t.nodes| && t.nodes[c].name == name && t.nodes[c].dt == dt && t.nodes[c].cat == cat
  }

  /** `findNode` finds a child with the name, type and category, unless there is none. */
  lemma {:induction false} FindComplete(t: Tree, kids: seq<Sign>, name: string, dt: Option<LeafType>, cat: Category)
    requires forall k :: 0 <= k < |kids| ==> kids[k] < |t.nodes|
    ensures t.FindFrom(kids, name, dt, cat) == None ==>
              forall c :: c in kids ==> !(t.nodes[c].name == name && t.nodes[c].dt == dt && t.nodes[c].cat == cat)
  {
    if kids != [] { FindComplete(t, kids[1..], name, dt, cat); }
  }

  /** Two children of a node differ in name, type or category. */
  lemma KidsDiffer(t: Tree, s: Sign, a: Sign, b: Sign, name: string, dt: Option<LeafType>, cat: Category)
    requires t.Valid() && s < |t.nodes| && IsKid(t, s, a, name, dt, cat) && IsKid(t, s, b, name, dt, cat)
    ensures a == b
  {
    assert t.KidsOk(s);
    var kids := t.nodes[s].kids;
    var i :| 0 <= i < |kids| && kids[i] == a;
    var j :| 0 <= j < |kids| && kids[j] == b;
    assert !(i < j && !t.SameNode(kids[i], kids[j])) && !(j < i && !t.SameNode(kids[j], kids[i]));
  }

  lemma FindIff(t: Tree, s: Sign, name: string, dt: Option<LeafType>, cat: Category, c: Sign)
    requires t.Valid() && s < |t.nodes|
    ensures t.KidsOk(s)
    ensures t.FindFrom(t.nodes[s].kids, name, dt, cat) == Some(c) <==> IsKid(t, s, c, name, dt, cat)
  {
    assert t.KidsOk(s);
    FindComplete(t, t.nodes[s].kids, name, dt, cat);
    var r := t.FindFrom(t.nodes[s].kids, name, dt, cat);
    if r.Some? && IsKid(t, s, c, name, dt, cat) {
      KidsDiffer(t, s, r.value, c, name, dt, cat);
    }
  }

  /** Which node a field belongs to: the child with its name, type and category; or, for a repeated array that
      has none, the child for indexed arrays of that name. */
  lemma LookupIff(t: Tree, s: Sign, f: Json, c: Sign)
    requires t.Valid() && s < |t.nodes|
    ensures t.Lookup(s, f) == Some(c) <==>
              || IsKid(t, s, c, f.key, f.CalcType(), f.CalcCategory())
              || (&& f.CalcCategory() == Multi && IsKid(t, s, c, f.key, None, Index)
                  && forall d: Sign :: !IsKid(t, s, d, f.key, f.CalcType(), Multi))
  {
    var cat := f.CalcCategory();
    FindIff(t, s, f.key, f.CalcType(), cat, c);
    FindIff(t, s, f.key, None, Index, c);
    var r := t.FindFrom(t.nodes[s].kids, f.key, f.CalcType(), cat);
    if r.Some? {
      FindIff(t, s, f.key, f.CalcType(), cat, r.value);
    } else {
      FindComplete(t, t.nodes[s].kids, f.key, f.CalcType(), cat);
    }
    hide Json.CalcType, Json.CalcCategory, Tree.Valid;
  }

  /** The node at a level of a path is the child of the one before. */
  lemma {:induction false} PathStep(t: Tree, l: Sign, k: nat)
    requires t.Valid() && l < |t.nodes| && k < |t.PathOf(l)|
    ensures var p := t.PathOf(l);
            var s := if k == 0 then 0 else p[k - 1];
            p[k] < |t.nodes| && s < |t.nodes| && p[k] in t.nodes[s].kids && t.nodes[p[k]].level == k + 1
  {
    assert t.NodeOk(l);
    var q := t.PathOf(t.nodes[l].parent);
    if k < |q| {
      PathStep(t, t.nodes[l].parent, k);
    }
  }

  /** A path runs through a node exactly if it begins with the node's own path. */
  lemma {:induction false} PathThrough(t: Tree, l: Sign, k: nat)
    requires t.Valid() && l < |t.nodes| && k < |t.PathOf(l)|
    ensures t.PathOf(l)[k] < |t.nodes| && t.PathOf(l)[..k + 1] == t.PathOf(t.PathOf(l)[k])
  {
    assert t.NodeOk(l);
    var q := t.PathOf(t.nodes[l].parent);
    if k < |q| {
      PathThrough(t, t.nodes[l].parent, k);
      assert t.PathOf(l)[..k + 1] == q[..k + 1];
    } else {
      assert t.PathOf(l)[..k + 1] == t.PathOf(l);
    }
  }

  /** Along a path signatures grow. */
  lemma {:induction false} PathGrows(t: Tree, l: Sign, j: nat, k: nat)
    requires t.Valid() && l < |t.nodes| && j < k < |t.PathOf(l)|
    ensures t.PathOf(l)[j] < t.PathOf(l)[k]
  {
    PathStep(t, l, k);
    KidLevel(t, t.PathOf(l)[k - 1], t.PathOf(l)[k]);
    if j < k - 1 { PathGrows(t, l, j, k - 1); }
  }
}
