// Records matched to the schema: which schema node every field of a JSON record belongs to.

module Typing {
  import opened Wrappers
  import opened Bytes
  import opened Paths
  import opened Records
  import opened Schema

  /** The content of a field that belongs to schema node s. */
  function TypeField(t: Tree, f: Json, s: Sign): Value
    requires t.Valid() && s < |t.nodes|
    decreases f, 2
  {
    if f.IsRepeatedArray() && t.nodes[s].cat == Multi then
      Rep(seq(|f.kids|, i requires 0 <= i < |f.kids| => TypeElem(t, f.kids[i], s)))
    else TypeElem(t, f, s)
  }

  function TypeElem(t: Tree, f: Json, s: Sign): Value
    requires t.Valid() && s < |t.nodes|
    decreases f, 1
  {
    if t.IsLeaf(s) && f.kids == [] then Prim(f.txt) else Obj(TypeMembers(t, f, |f.kids|, s))
  }

  /** The first i children of a field, without those that hold nothing. */
  function TypeMembers(t: Tree, f: Json, i: nat, s: Sign): seq<Member>
    requires t.Valid() && s < |t.nodes| && i <= |f.kids|
    decreases f, 0, i
  {
    if i == 0 then []
    else
      var before := TypeMembers(t, f, i - 1, s);
      var kid := f.kids[i - 1];
      if kid.IsNull() then before
      else match t.Lookup(s, kid)
        case None => before
        case Some(c) =>
          KidLevel(t, s, c);
          before + [Member(c, TypeField(t, kid, c))]
  }

  // ---- Records the schema knows ----

  /** Every field below has its schema node; no key occurs twice in an object, and no array lies directly
      in a repeated array. */
  ghost predicate KnownField(t: Tree, f: Json, s: Sign)
    requires t.Valid() && s < |t.nodes|
    decreases f, 2
  {
    if f.IsRepeatedArray() && t.nodes[s].cat == Multi then
      && f.kids[0].vtype != ArrayType
      && forall i :: 0 <= i < |f.kids| ==> KnownElem(t, f.kids[i], s)
    else KnownElem(t, f, s)
  }

  ghost predicate KnownElem(t: Tree, f: Json, s: Sign)
    requires t.Valid() && s < |t.nodes|
    decreases f, 1
  {
    if f.vtype.Primitive? then f.kids == [] && t.IsLeaf(s)
    else !t.IsLeaf(s) && KnownKids(t, f, s)
  }

  ghost predicate KnownKids(t: Tree, f: Json, s: Sign)
    requires t.Valid() && s < |t.nodes|
    decreases f, 0
  {
    && (forall i, j :: 0 <= i < j < |f.kids| ==> f.kids[i].key != f.kids[j].key)
    && (forall i :: 0 <= i < |f.kids| && !f.kids[i].IsNull() ==>
          && t.Lookup(s, f.kids[i]).Some?
          && var c := t.Lookup(s, f.kids[i]).value;
             c < |t.nodes| && KnownField(t, f.kids[i], c))
  }

  /** What the schema is asked for: an array is repeated when its elements, at least one, are all of one type, and
      then its data type is theirs. */
  lemma KindOf(f: Json)
    ensures f.CalcCategory() == Single <==> f.vtype != ArrayType
    ensures f.CalcCategory() == Multi <==>
              f.vtype == ArrayType && f.kids != [] &&
              forall i, j :: 0 <= i < |f.kids| && 0 <= j < |f.kids| ==> f.kids[i].vtype == f.kids[j].vtype
    ensures f.CalcCategory() == Multi ==>
              f.CalcType() == if f.kids[0].vtype.Primitive? then MapType(f.kids[0].vtype.kind) else None
    ensures f.CalcCategory() == Single && f.vtype.Primitive? ==> f.CalcType() == MapType(f.vtype.kind)
    ensures f.CalcCategory() == Index || (f.CalcCategory() == Single && !f.vtype.Primitive?) ==> f.CalcType() == None
  {
  }

  /** What a field holds: as many elements as a repeated array has, where its node is one for arrays; a leaf's text;
      or an object. */
  lemma FieldShape(t: Tree, f: Json, s: Sign)
    requires t.Valid() && s < |t.nodes|
    ensures var v := TypeField(t, f, s);
            && (v.Rep? <==> f.CalcCategory() == Multi && t.nodes[s].cat == Multi)
            && (v.Rep? ==> |v.elems| == |f.kids| && forall i :: 0 <= i < |v.elems| ==>
                  v.elems[i] == TypeElem(t, f.kids[i], s))
            && (v.Prim? ==> v.bin == f.txt)
            && (!v.Rep? ==> (v.Prim? <==> t.IsLeaf(s) && f.kids == []))
  {
    hide TypeMembers, Tree.Valid;
  }

  // ---- Members ----

  lemma {:induction false} FindSnoc(ms: seq<Member>, m: Member, s: Sign)
    ensures Find(ms + [m], s) == if Find(ms, s).Some? then Find(ms, s) else if m.sign == s then Some(m.val) else None
  {
    if ms == [] {
      assert ms + [m] == [m];
    } else {
      assert (ms + [m])[0] == ms[0] && (ms + [m])[1..] == ms[1..] + [m];
      if ms[0].sign != s { FindSnoc(ms[1..], m, s); }
    }
  }

  /** A member among the first i comes from one of the first i fields, and is what that field holds. */
  lemma {:induction false} MemberFrom(t: Tree, f: Json, i: nat, s: Sign, c: Sign)
    requires t.Valid() && s < |t.nodes| && i <= |f.kids| && KnownKids(t, f, s)
    requires Find(TypeMembers(t, f, i, s), c).Some?
    ensures exists k :: 0 <= k < i && !f.kids[k].IsNull() && t.Lookup(s, f.kids[k]) == Some(c) && c < |t.nodes|
                     && Find(TypeMembers(t, f, i, s), c).value == TypeField(t, f.kids[k], c)
  {
    hide TypeField, KnownKids;
    if i > 0 {
      var before, kid := TypeMembers(t, f, i - 1, s), f.kids[i - 1];
      if !kid.IsNull() && t.Lookup(s, kid).Some? {
        var d := t.Lookup(s, kid).value;
        KidLevel(t, s, d);
        FindSnoc(before, Member(d, TypeField(t, kid, d)), c);
      }
      if Find(before, c).Some? {
        MemberFrom(t, f, i - 1, s, c);
      }
    }
  }

  /** Field k belongs to node c, and it is neither null nor an object or array without elements. */
  ghost predicate Present(t: Tree, f: Json, s: Sign, c: Sign, k: nat)
    requires t.Valid() && s < |t.nodes|
  {
    && k < |f.kids| && t.Lookup(s, f.kids[k]) == Some(c)
    && f.kids[k].vtype != NullType
    && (f.kids[k].vtype == ObjectType || f.kids[k].vtype == ArrayType ==> f.kids[k].kids != [])
  }

  /** A node has a member exactly when one of the fields that hold something belongs to it. */
  lemma MemberIff(t: Tree, f: Json, s: Sign, c: Sign)
    requires t.Valid() && s < |t.nodes|
    ensures Find(TypeMembers(t, f, |f.kids|, s), c).Some? <==> exists k: nat :: Present(t, f, s, c, k)
  {
    MemberIffUpTo(t, f, |f.kids|, s, c);
  }

  lemma {:induction false} MemberIffUpTo(t: Tree, f: Json, i: nat, s: Sign, c: Sign)
    requires t.Valid() && s < |t.nodes| && i <= |f.kids|
    ensures Find(TypeMembers(t, f, i, s), c).Some? <==> exists k: nat :: k < i && Present(t, f, s, c, k)
  {
    hide TypeField, Tree.Lookup, Tree.Valid;
    if i > 0 {
      var before, kid := TypeMembers(t, f, i - 1, s), f.kids[i - 1];
      MemberIffUpTo(t, f, i - 1, s, c);
      if !kid.IsNull() && t.Lookup(s, kid).Some? {
        var d := t.Lookup(s, kid).value;
        KidLevel(t, s, d);
        FindSnoc(before, Member(d, TypeField(t, kid, d)), c);
      }
      assert Present(t, f, s, c, i - 1) <==> !kid.IsNull() && t.Lookup(s, kid) == Some(c);
    }
  }

  /** A field without its members that are null, {} or []. */
  function Pruned(f: Json): Json { f.(kids := Kept(f.kids)) }

  function Kept(kids: seq<Json>): (ks: seq<Json>) {
    if kids == [] then []
    else
      var front, last := Kept(kids[..|kids| - 1]), kids[|kids| - 1];
      match last.vtype
      case NullType => front
      case ObjectType => if last.kids == [] then front else front + [last]
      case ArrayType => if last.kids == [] then front else front + [last]
      case Primitive(_) => front + [last]
  }

  lemma {:induction false} SameMembers(t: Tree, f: Json, g: Json, i: nat, s: Sign)
    requires t.Valid() && s < |t.nodes| && i <= |f.kids| && i <= |g.kids| && f.kids[..i] == g.kids[..i]
    ensures TypeMembers(t, f, i, s) == TypeMembers(t, g, i, s)
  {
    hide TypeField, Tree.Lookup, Json.IsNull;
    if i > 0 {
      assert f.kids[..i][..i - 1] == f.kids[..i - 1] && g.kids[..i][..i - 1] == g.kids[..i - 1];
      assert f.kids[i - 1] == f.kids[..i][i - 1] == g.kids[i - 1];
      SameMembers(t, f, g, i - 1, s);
    }
  }

  /** Members that are null, {} or [] make no difference. */
  lemma {:induction false} PrunedMembers(t: Tree, f: Json, s: Sign)
    requires t.Valid() && s < |t.nodes|
    ensures TypeMembers(t, Pruned(f), |Pruned(f).kids|, s) == TypeMembers(t, f, |f.kids|, s)
    decreases |f.kids|
  {
    hide TypeField, Tree.Lookup, Tree.Valid;
    if f.kids != [] {
      var n := |f.kids| - 1;
      var g := f.(kids := f.kids[..n]);
      PrunedMembers(t, g, s);
      SameMembers(t, f, g, n, s);
      if Pruned(f) != Pruned(g) {
        SameMembers(t, Pruned(f), Pruned(g), |Pruned(g).kids|, s);
      }
    }
  }

  lemma {:induction false} KeptIn(kids: seq<Json>)
    ensures forall x :: x in Kept(kids) ==> x in kids
  {
    if kids != [] { KeptIn(kids[..|kids| - 1]); }
  }

  /** A record whose fields the schema knows stays one. */
  lemma {:induction false} PrunedKnown(t: Tree, f: Json, s: Sign)
    requires t.Valid() && s < |t.nodes| && KnownKids(t, f, s)
    ensures KnownKids(t, Pruned(f), s)
    decreases |f.kids|
  {
    hide KnownField, Tree.Lookup, Tree.Valid, Json.IsNull;
    if f.kids != [] {
      var n := |f.kids| - 1;
      var g := f.(kids := f.kids[..n]);
      PrunedKnown(t, g, s);
      KeptIn(g.kids);
      var ks := Pruned(f).kids;
      forall i | 0 <= i < |Kept(g.kids)|
        ensures Kept(g.kids)[i].key != f.kids[n].key
      {
        assert Kept(g.kids)[i] in g.kids;
      }
      forall i | 0 <= i < |ks| && !ks[i].IsNull()
        ensures t.Lookup(s, ks[i]).Some? && t.Lookup(s, ks[i]).value < |t.nodes|
        ensures KnownField(t, ks[i], t.Lookup(s, ks[i]).value)
      {
        if i < |Kept(g.kids)| { assert ks[i] == Pruned(g).kids[i]; } else { assert ks[i] == f.kids[n]; }
      }
    }
  }

  /** The next field's node has not been met among the fields before it. */
  lemma NextIsNew(t: Tree, f: Json, i: nat, s: Sign)
    requires t.Valid() && s < |t.nodes| && i < |f.kids| && KnownKids(t, f, s) && !f.kids[i].IsNull()
    ensures t.Lookup(s, f.kids[i]).Some? && Find(TypeMembers(t, f, i, s), t.Lookup(s, f.kids[i]).value).None?
  {
    hide TypeMembers, KnownField;
    var c := t.Lookup(s, f.kids[i]).value;
    if Find(TypeMembers(t, f, i, s), c).Some? {
      MemberFrom(t, f, i, s, c);
    }
  }

  // ---- Matched records agree with the schema ----

  /** A node that is not at the end of a path is no leaf; the last one is the column's leaf. */
  lemma PathLeaf(t: Tree, l: Sign, k: nat)
    requires t.Valid() && l < |t.nodes| && t.IsLeaf(l) && k < |t.PathOf(l)|
    ensures t.PathOf(l)[k] < |t.nodes|
    ensures t.IsLeaf(t.PathOf(l)[k]) <==> k + 1 == |t.PathOf(l)|
  {
    PathStep(t, l, k);
    if k + 1 < |t.PathOf(l)| {
      PathStep(t, l, k + 1);
      KidLevel(t, t.PathOf(l)[k], t.PathOf(l)[k + 1]);
    }
  }

  lemma {:induction false} FieldFits(t: Tree, f: Json, l: Sign, L: nat)
    requires t.Valid() && l < |t.nodes| && t.IsLeaf(l) && 0 < L <= |t.PathOf(l)|
    requires var s := t.PathOf(l)[L - 1];
             s < |t.nodes| && KnownField(t, f, s) && (t.nodes[s].cat == Multi ==> f.IsRepeatedArray())
    ensures FitsField(t.Rept(), TypeField(t, f, t.PathOf(l)[L - 1]), t.PathOf(l), L)
    decreases f, 2
  {
    var p := t.PathOf(l);
    var s := p[L - 1];
    PathLeaf(t, l, L - 1);
    if t.nodes[s].cat == Multi {
      var w := TypeField(t, f, s);
      forall i | 0 <= i < |w.elems|
        ensures FitsElem(t.Rept(), w.elems[i], p, L)
      {
        ElemFits(t, f.kids[i], l, L);
      }
    } else {
      ElemFits(t, f, l, L);
    }
  }

  lemma {:induction false} ElemFits(t: Tree, f: Json, l: Sign, L: nat)
    requires t.Valid() && l < |t.nodes| && t.IsLeaf(l) && 0 < L <= |t.PathOf(l)|
    requires t.PathOf(l)[L - 1] < |t.nodes| && KnownElem(t, f, t.PathOf(l)[L - 1])
    ensures FitsElem(t.Rept(), TypeElem(t, f, t.PathOf(l)[L - 1]), t.PathOf(l), L)
    decreases f, 1
  {
    PathLeaf(t, l, L - 1);
    if L < |t.PathOf(l)| {
      ObjectFits(t, f, l, L);
    }
  }

  lemma {:induction false} ObjectFits(t: Tree, f: Json, l: Sign, L: nat)
    requires t.Valid() && l < |t.nodes| && t.IsLeaf(l) && L < |t.PathOf(l)|
    requires var s := if L == 0 then 0 else t.PathOf(l)[L - 1];
             s < |t.nodes| && KnownKids(t, f, s)
    ensures var s := if L == 0 then 0 else t.PathOf(l)[L - 1];
            FitsObject(t.Rept(), Obj(TypeMembers(t, f, |f.kids|, s)), t.PathOf(l), L)
    decreases f, 0
  {
    var p := t.PathOf(l);
    var s := if L == 0 then 0 else p[L - 1];
    var ms := TypeMembers(t, f, |f.kids|, s);
    PathStep(t, l, L);
    hide TypeMembers, TypeField, FitsField;
    if Find(ms, p[L]).Some? {
      MemberFrom(t, f, |f.kids|, s, p[L]);
      var k :| 0 <= k < |f.kids| && !f.kids[k].IsNull() && t.Lookup(s, f.kids[k]) == Some(p[L])
               && Find(ms, p[L]).value == TypeField(t, f.kids[k], p[L]);
      LookupCategory(t, s, f.kids[k]);
      FieldFits(t, f.kids[k], l, L + 1);
    }
  }

  /** A node of a repeated category is only found for a repeated array. */
  lemma LookupCategory(t: Tree, s: Sign, f: Json)
    requires t.Valid() && s < |t.nodes| && t.Lookup(s, f).Some?
    ensures var c := t.Lookup(s, f).value;
            c < |t.nodes| && (t.nodes[c].cat == Multi ==> f.IsRepeatedArray())
  {
    KidLevel(t, s, t.Lookup(s, f).value);
  }

  /** Every record whose fields the schema knows agrees with the schema along every column. */
  lemma TypedConforms(t: Tree, f: Json, l: Sign)
    requires t.Valid() && KnownKids(t, f, 0) && l < |t.nodes| && t.IsLeaf(l)
    ensures t.PathOf(l) != [] && FitsObject(t.Rept(), Obj(TypeMembers(t, f, |f.kids|, 0)), t.PathOf(l), 0)
  {
    ObjectFits(t, f, l, 0);
  }
}
