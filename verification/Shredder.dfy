// ColumnItemGenerator: shreds a record into the columns of all leaves, through a counter of the schema
// nodes that have appeared.

module Shredder {
  import opened Wrappers
  import opened Bytes
  import opened Paths
  import opened Records
  import opened Schema
  import opened Typing

  /** Every path to d runs through s. */
  predicate Through(t: Tree, d: Sign, s: Sign)
    requires t.Valid() && d < |t.nodes| && s < |t.nodes|
  {
    s == 0 || (t.nodes[s].level <= |t.PathOf(d)| && t.nodes[s].level > 0 && t.PathOf(d)[t.nodes[s].level - 1] == s)
  }

  /** d lies somewhere below s. */
  predicate Below(t: Tree, d: Sign, s: Sign)
    requires t.Valid() && d < |t.nodes| && s < |t.nodes|
  {
    d != s && Through(t, d, s)
  }

  /** The child of s that leads to d. */
  function Toward(t: Tree, d: Sign, s: Sign): (c: Sign)
    requires t.Valid() && d < |t.nodes| && s < |t.nodes| && Below(t, d, s)
  {
    BelowDeeper(t, d, s);
    t.PathOf(d)[t.nodes[s].level]
  }

  lemma BelowDeeper(t: Tree, d: Sign, s: Sign)
    requires t.Valid() && d < |t.nodes| && s < |t.nodes| && Below(t, d, s)
    ensures t.nodes[s].level < |t.PathOf(d)|
  {
  }

  lemma TowardKid(t: Tree, d: Sign, s: Sign)
    requires t.Valid() && d < |t.nodes| && s < |t.nodes| && Below(t, d, s)
    ensures Toward(t, d, s) in t.nodes[s].kids && Toward(t, d, s) < |t.nodes| && Through(t, d, Toward(t, d, s))
  {
    BelowDeeper(t, d, s);
    PathStep(t, d, t.nodes[s].level);
  }

  /** Below a child is below its parent, and leads through that child. */
  lemma KidThrough(t: Tree, d: Sign, s: Sign, c: Sign)
    requires t.Valid() && d < |t.nodes| && s < |t.nodes| && c in t.nodes[s].kids
    ensures c < |t.nodes|
    ensures Through(t, d, c) <==> Below(t, d, s) && Toward(t, d, s) == c
  {
    KidLevel(t, s, c);
    var p, k := t.PathOf(d), t.nodes[s].level;
    if Through(t, d, c) {
      PathStep(t, d, k);
      KidLevel(t, if k == 0 then 0 else p[k - 1], c);
      if s > 0 { assert p[k - 1] == s; }
    }
    if Below(t, d, s) { BelowDeeper(t, d, s); }
  }

  // ---- What an operation adds to the column of leaf l ----

  /** Children of s that have not appeared leave one item in every leaf below them. */
  function Missing(t: Tree, l: Sign, s: Sign, cnt: seq<nat>, rep: nat, def: nat): seq<Item>
    requires t.Valid() && l < |t.nodes| && s < |t.nodes| && |cnt| == |t.nodes|
  {
    if t.IsLeaf(l) && Below(t, l, s) then
      TowardKid(t, l, s);
      if cnt[Toward(t, l, s)] == 0 then [Item(rep, def, None)] else []
    else []
  }

  /** Members of an object at s. */
  function Members(t: Tree, l: Sign, s: Sign, ms: seq<Member>, rep: nat): seq<Item>
    requires t.Valid() && l < |t.nodes| && s < |t.nodes|
  {
    if t.IsLeaf(l) && Below(t, l, s) then
      match Find(ms, Toward(t, l, s))
      case None => []
      case Some(w) =>
        BelowDeeper(t, l, s);
        StripeField(w, t.PathOf(l), t.nodes[s].level + 1, rep)
    else []
  }

  /** One occurrence of s. */
  function Occurrence(t: Tree, l: Sign, s: Sign, v: Value, rep: nat): seq<Item>
    requires t.Valid() && l < |t.nodes| && s < |t.nodes|
  {
    if t.IsLeaf(l) && Through(t, l, s) then StripeElem(v, t.PathOf(l), t.nodes[s].level, rep) else []
  }

  /** The whole content of a field of s. */
  function Content(t: Tree, l: Sign, s: Sign, w: Value, rep: nat): seq<Item>
    requires t.Valid() && l < |t.nodes| && 0 < s < |t.nodes|
  {
    if t.IsLeaf(l) && Through(t, l, s) then StripeField(w, t.PathOf(l), t.nodes[s].level, rep) else []
  }

  /** Nothing below s has appeared, except perhaps its children. */
  ghost predicate DeepClear(t: Tree, cnt: seq<nat>, s: Sign)
    requires t.Valid() && s < |t.nodes| && |cnt| == |t.nodes|
  {
    forall d: Sign :: d < |cnt| && Below(t, d, s) && d !in t.nodes[s].kids ==> cnt[d] == 0
  }

  /** Nothing below s has appeared. */
  ghost predicate Clear(t: Tree, cnt: seq<nat>, s: Sign)
    requires t.Valid() && s < |t.nodes| && |cnt| == |t.nodes|
  {
    forall d: Sign :: d < |cnt| && Below(t, d, s) ==> cnt[d] == 0
  }

  /** Counters after the first i children of s have been checked. */
  ghost predicate Checked(t: Tree, before: seq<nat>, after: seq<nat>, s: Sign, i: nat)
    requires t.Valid() && s < |t.nodes| && i <= |t.nodes[s].kids|
  {
    |before| == |after| == |t.nodes| &&
    forall d: Sign :: d < |after| ==> after[d] == if d in t.nodes[s].kids[..i] then 0 else before[d]
  }

  /** Columns after the first i children of s have been checked. */
  ghost predicate Filled(t: Tree, cnt: seq<nat>, before: seq<seq<Item>>, after: seq<seq<Item>>, s: Sign, i: nat,
        rep: nat, def: nat)
    requires t.Valid() && s < |t.nodes| && i <= |t.nodes[s].kids| && |cnt| == |t.nodes|
  {
    |before| == |after| == |t.nodes| &&
    forall l: Sign :: l < |after| ==>
      after[l] == if Below(t, l, s) && Toward(t, l, s) in t.nodes[s].kids[..i]
          then before[l] + Missing(t, l, s, cnt, rep, def)
                  else before[l]
  }

  ghost predicate OccurrenceAdded(t: Tree, before: seq<seq<Item>>, after: seq<seq<Item>>, s: Sign, v: Value, rep: nat)
    requires t.Valid() && s < |t.nodes|
  {
    |before| == |after| == |t.nodes| &&
    forall l: Sign :: l < |after| ==> after[l] == before[l] + Occurrence(t, l, s, v, rep)
  }

  ghost predicate ContentAdded(t: Tree, before: seq<seq<Item>>, after: seq<seq<Item>>, s: Sign, w: Value, rep: nat)
    requires t.Valid() && 0 < s < |t.nodes|
  {
    |before| == |after| == |t.nodes| &&
    forall l: Sign :: l < |after| ==> after[l] == before[l] + Content(t, l, s, w, rep)
  }

  ghost predicate MembersAdded(t: Tree, before: seq<seq<Item>>, after: seq<seq<Item>>, s: Sign, ms: seq<Member>,
        rep: nat)
    requires t.Valid() && s < |t.nodes|
  {
    |before| == |after| == |t.nodes| &&
    forall l: Sign :: l < |after| ==> after[l] == before[l] + Members(t, l, s, ms, rep)
  }

  /** Exactly the children of s among the members count as appeared; other counters are as before. */
  ghost predicate Marked(t: Tree, before: seq<nat>, after: seq<nat>, s: Sign, ms: seq<Member>)
    requires t.Valid() && s < |t.nodes|
  {
    |before| == |after| == |t.nodes| &&
    forall d: Sign :: d < |after| ==>
      if d in t.nodes[s].kids then (after[d] > 0 <==> Find(ms, d).Some?) else after[d] == before[d]
  }

  lemma NothingMarked(t: Tree, cnt: seq<nat>, cols: seq<seq<Item>>, s: Sign, rep: nat)
    requires t.Valid() && s < |t.nodes| && |cnt| == |cols| == |t.nodes| && Clear(t, cnt, s)
    ensures Marked(t, cnt, cnt, s, []) && MembersAdded(t, cols, cols, s, [], rep)
  {
    hide Through, Toward, StripeField;
    forall d: Sign | d < |cnt| && d in t.nodes[s].kids
      ensures cnt[d] == 0
    {
      KidBelow(t, s, d);
    }
  }

  /** One more member: its node counts as appeared, and its columns have got its content. */
  lemma MarkedNext(t: Tree, before: seq<nat>, mid: seq<nat>, after: seq<nat>, s: Sign, ms: seq<Member>, c: Sign,
        w: Value)
    requires t.Valid() && s < |t.nodes| && Marked(t, before, mid, s, ms) && c in t.nodes[s].kids
    requires c < |mid| && |after| == |mid| && after == mid[c := after[c]] && after[c] > 0
    ensures Marked(t, before, after, s, ms + [Member(c, w)])
  {
    forall d: Sign | d < |after| && d in t.nodes[s].kids
      ensures after[d] > 0 <==> Find(ms + [Member(c, w)], d).Some?
    {
      FindSnoc(ms, Member(c, w), d);
    }
  }

  lemma MembersNext(t: Tree, before: seq<seq<Item>>, mid: seq<seq<Item>>, after: seq<seq<Item>>, s: Sign,
        ms: seq<Member>, c: Sign, w: Value, rep: nat)
    requires t.Valid() && s < |t.nodes| && MembersAdded(t, before, mid, s, ms, rep) && c in t.nodes[s].kids
    requires 0 < c < |t.nodes| && ContentAdded(t, mid, after, c, w, rep) && Find(ms, c).None?
    ensures MembersAdded(t, before, after, s, ms + [Member(c, w)], rep)
  {
    hide Members, Content;
    forall l: Sign | l < |after|
      ensures after[l] == before[l] + Members(t, l, s, ms + [Member(c, w)], rep)
    {
      MembersSnoc(t, l, s, ms, c, w, rep);
      assert before[l] + (Members(t, l, s, ms, rep) + Content(t, l, c, w, rep))
          == before[l] + Members(t, l, s, ms, rep) + Content(t, l, c, w, rep);
    }
  }

  lemma MembersSnoc(t: Tree, l: Sign, s: Sign, ms: seq<Member>, c: Sign, w: Value, rep: nat)
    requires t.Valid() && l < |t.nodes| && s < |t.nodes| && c in t.nodes[s].kids && 0 < c < |t.nodes|
    requires Find(ms, c).None?
    ensures Members(t, l, s, ms + [Member(c, w)], rep) == Members(t, l, s, ms, rep) + Content(t, l, c, w, rep)
  {
    hide Through, Toward, StripeField, Below, Tree.PathOf;
    KidLevel(t, s, c);
    KidThrough(t, l, s, c);
    if t.IsLeaf(l) && Below(t, l, s) {
      FindSnoc(ms, Member(c, w), Toward(t, l, s));
    }
    hide Tree.Valid;
  }

  /** Members that are there and members that are missing make up the object. */
  lemma ObjectAdded(t: Tree, cnt: seq<nat>, before: seq<seq<Item>>, mid: seq<seq<Item>>, after: seq<seq<Item>>,
        cnt0: seq<nat>, s: Sign, ms: seq<Member>, rep: nat)
    requires t.Valid() && s < |t.nodes| && !t.IsLeaf(s) && Marked(t, cnt0, cnt, s, ms)
    requires MembersAdded(t, before, mid, s, ms, rep)
    requires Filled(t, cnt, mid, after, s, |t.nodes[s].kids|, rep, t.nodes[s].level)
    ensures OccurrenceAdded(t, before, after, s, Obj(ms), rep)
  {
    hide Members, Missing, Occurrence;
    assert t.nodes[s].kids[..|t.nodes[s].kids|] == t.nodes[s].kids;
    forall l: Sign | l < |after|
      ensures after[l] == before[l] + Occurrence(t, l, s, Obj(ms), rep)
    {
      ObjectColumn(t, l, cnt0, cnt, s, ms, rep);
      if Below(t, l, s) { TowardKid(t, l, s); }
      assert before[l] + (Members(t, l, s, ms, rep) + Missing(t, l, s, cnt, rep, t.nodes[s].level))
          == before[l] + Members(t, l, s, ms, rep) + Missing(t, l, s, cnt, rep, t.nodes[s].level);
    }
  }

  lemma ObjectColumn(t: Tree, l: Sign, cnt0: seq<nat>, cnt: seq<nat>, s: Sign, ms: seq<Member>, rep: nat)
    requires t.Valid() && l < |t.nodes| && s < |t.nodes| && !t.IsLeaf(s) && Marked(t, cnt0, cnt, s, ms)
    ensures Members(t, l, s, ms, rep) + Missing(t, l, s, cnt, rep, t.nodes[s].level)
        == Occurrence(t, l, s, Obj(ms), rep)
    ensures !Below(t, l, s) ==> Missing(t, l, s, cnt, rep, t.nodes[s].level) == []
  {
    hide Through, StripeField;
    BelowOrSelf(t, l, s);
    if t.IsLeaf(l) && Below(t, l, s) {
      TowardKid(t, l, s);
      BelowDeeper(t, l, s);
      var p, L := t.PathOf(l), t.nodes[s].level;
      assert p[L] == Toward(t, l, s);
      assert Occurrence(t, l, s, Obj(ms), rep) == StripeObject(Obj(ms), p, L, rep);
    }
  }

  lemma BelowOrSelf(t: Tree, l: Sign, s: Sign)
    requires t.Valid() && l < |t.nodes| && s < |t.nodes|
    ensures Below(t, l, s) <==> Through(t, l, s) && l != s
  {
  }

  /** What was cleared is as it was before the members were marked. */
  lemma MarksCleared(t: Tree, before: seq<nat>, mid: seq<nat>, after: seq<nat>, s: Sign, ms: seq<Member>)
    requires t.Valid() && s < |t.nodes| && |before| == |t.nodes| && Clear(t, before, s) && Marked(t, before, mid, s, ms)
    requires Checked(t, mid, after, s, |t.nodes[s].kids|)
    ensures after == before
  {
    hide Through, Below;
    assert t.nodes[s].kids[..|t.nodes[s].kids|] == t.nodes[s].kids;
    forall d: Sign | d < |after|
      ensures after[d] == before[d]
    {
      if d in t.nodes[s].kids { KidBelow(t, s, d); }
    }
  }

  lemma MarkedClear(t: Tree, before: seq<nat>, mid: seq<nat>, s: Sign, ms: seq<Member>)
    requires t.Valid() && s < |t.nodes| && |before| == |t.nodes| && Clear(t, before, s) && Marked(t, before, mid, s, ms)
    ensures DeepClear(t, mid, s)
    ensures forall c :: c in t.nodes[s].kids ==> c < |t.nodes| && Clear(t, mid, c)
  {
    hide Through;
    forall c | c in t.nodes[s].kids
      ensures c < |t.nodes| && Clear(t, mid, c)
    {
      KidLevel(t, s, c);
      forall d: Sign | d < |mid| && Below(t, d, c)
        ensures mid[d] == 0
      {
        DeepBelow(t, d, s, c);
      }
    }
  }

  lemma PrefixNext(kids: seq<Sign>, i: nat)
    requires i < |kids|
    ensures forall d :: d in kids[..i + 1] <==> d in kids[..i] || d == kids[i]
  {
    assert kids[..i + 1] == kids[..i] + [kids[i]];
  }

  /** The next child is none of those before it. */
  lemma KidApart(t: Tree, s: Sign, i: nat)
    requires t.Valid() && s < |t.nodes| && i < |t.nodes[s].kids|
    ensures t.nodes[s].kids[i] !in t.nodes[s].kids[..i] && s < t.nodes[s].kids[i] < |t.nodes|
  {
    assert t.KidsOk(s);
  }

  lemma CheckedNext(t: Tree, before: seq<nat>, after: seq<nat>, s: Sign, i: nat)
    requires t.Valid() && s < |t.nodes| && i < |t.nodes[s].kids| && Checked(t, before, after, s, i)
    ensures var c := t.nodes[s].kids[i];
            c < |after| && after[c] == before[c] && Checked(t, before, after[c := 0], s, i + 1)
  {
    KidApart(t, s, i);
    PrefixNext(t.nodes[s].kids, i);
  }

  /** Child c of s has been checked: the leaves that it leads to have got what is missing. */
  ghost predicate ChildFilled(t: Tree, cnt: seq<nat>, before: seq<seq<Item>>, after: seq<seq<Item>>, s: Sign, c: Sign,
        rep: nat, def: nat)
    requires t.Valid() && s < |t.nodes| && |cnt| == |t.nodes|
  {
    c < |t.nodes| && |before| == |after| == |t.nodes| &&
    forall l: Sign :: l < |after| ==>
      after[l] == if Through(t, l, c) then before[l] + Missing(t, l, s, cnt, rep, def) else before[l]
  }

  lemma MissingBy(t: Tree, l: Sign, s: Sign, c: Sign, cnt: seq<nat>, rep: nat, def: nat)
    requires t.Valid() && l < |t.nodes| && s < |t.nodes| && |cnt| == |t.nodes| && c in t.nodes[s].kids
    ensures c < |t.nodes|
    ensures Through(t, l, c) ==>
              Missing(t, l, s, cnt, rep, def) == if t.IsLeaf(l) && cnt[c] == 0 then [Item(rep, def, None)] else []
  {
    KidThrough(t, l, s, c);
    hide Through, Below, Toward;
  }

  lemma ChildAppeared(t: Tree, cnt: seq<nat>, cols: seq<seq<Item>>, s: Sign, c: Sign, rep: nat, def: nat)
    requires t.Valid() && s < |t.nodes| && |cnt| == |t.nodes| == |cols| && c in t.nodes[s].kids
    requires c < |t.nodes| && cnt[c] > 0
    ensures ChildFilled(t, cnt, cols, cols, s, c, rep, def)
  {
    hide Missing, Through;
    forall l: Sign | l < |cols| && Through(t, l, c)
      ensures cols[l] == cols[l] + Missing(t, l, s, cnt, rep, def)
    {
      MissingBy(t, l, s, c, cnt, rep, def);
    }
  }

  lemma LeafMissing(t: Tree, cnt: seq<nat>, cols: seq<seq<Item>>, s: Sign, c: Sign, rep: nat, def: nat)
    requires t.Valid() && s < |t.nodes| && |cnt| == |t.nodes| == |cols| && c in t.nodes[s].kids
    requires c < |t.nodes| && cnt[c] == 0 && t.IsLeaf(c)
    ensures ChildFilled(t, cnt, cols, cols[c := cols[c] + [Item(rep, def, None)]], s, c, rep, def)
  {
    hide Missing, Through;
    KidLevel(t, s, c);
    var after := cols[c := cols[c] + [Item(rep, def, None)]];
    forall l: Sign | l < |cols|
      ensures after[l] == if Through(t, l, c) then cols[l] + Missing(t, l, s, cnt, rep, def) else cols[l]
    {
      ThroughLeaf(t, l, c);
      MissingBy(t, l, s, c, cnt, rep, def);
    }
  }

  lemma InnerMissing(t: Tree, cnt: seq<nat>, now: seq<nat>, before: seq<seq<Item>>, after: seq<seq<Item>>, s: Sign,
        c: Sign, rep: nat, def: nat)
    requires t.Valid() && s < |t.nodes| && |cnt| == |t.nodes| == |now| && c in t.nodes[s].kids
    requires c < |t.nodes| && cnt[c] == 0 && !t.IsLeaf(c) && Clear(t, now, c)
    requires Filled(t, now, before, after, c, |t.nodes[c].kids|, rep, def)
    ensures ChildFilled(t, cnt, before, after, s, c, rep, def)
  {
    hide Missing, Through, Toward;
    KidLevel(t, s, c);
    forall l: Sign | l < |after|
      ensures after[l] == if Through(t, l, c) then before[l] + Missing(t, l, s, cnt, rep, def) else before[l]
    {
      MissingBy(t, l, s, c, cnt, rep, def);
      if Below(t, l, c) {
        TowardKid(t, l, c);
        KidBelow(t, c, Toward(t, l, c));
        MissingBy(t, l, c, Toward(t, l, c), now, rep, def);
        assert t.nodes[c].kids[..|t.nodes[c].kids|] == t.nodes[c].kids;
      }
    }
  }

  lemma KidBelow(t: Tree, s: Sign, c: Sign)
    requires t.Valid() && s < |t.nodes| && c in t.nodes[s].kids
    ensures c < |t.nodes| && Below(t, c, s)
  {
    KidLevel(t, s, c);
    var p := t.PathOf(c);
    PathStep(t, c, |p| - 1);
    KidLevel(t, if |p| == 1 then 0 else p[|p| - 2], c);
  }

  /** Columns l for which the i-th child is on the way. */
  lemma FilledNext(t: Tree, cnt: seq<nat>, before: seq<seq<Item>>, mid: seq<seq<Item>>, after: seq<seq<Item>>, s: Sign,
        i: nat, rep: nat, def: nat)
    requires t.Valid() && s < |t.nodes| && i < |t.nodes[s].kids| && |cnt| == |t.nodes|
    requires Filled(t, cnt, before, mid, s, i, rep, def)
    requires ChildFilled(t, cnt, mid, after, s, t.nodes[s].kids[i], rep, def)
    ensures Filled(t, cnt, before, after, s, i + 1, rep, def)
  {
    KidApart(t, s, i);
    var c := t.nodes[s].kids[i];
    PrefixNext(t.nodes[s].kids, i);
    hide Missing, Through, Below, Toward;
    forall l: Sign | l < |after|
      ensures after[l] == if Below(t, l, s) && Toward(t, l, s) in t.nodes[s].kids[..i + 1]
                          then before[l] + Missing(t, l, s, cnt, rep, def) else before[l]
    {
      KidThrough(t, l, s, c);
    }
  }

  /** A path through a leaf ends there. */
  lemma ThroughLeaf(t: Tree, l: Sign, c: Sign)
    requires t.Valid() && l < |t.nodes| && 0 < c < |t.nodes| && t.IsLeaf(c)
    ensures Through(t, l, c) <==> l == c
  {
    if Through(t, l, c) && l != c {
      TowardKid(t, l, c);
      KidLevel(t, c, Toward(t, l, c));
    }
  }

  class ColumnItemGenerator {
    const tree: Tree               // m_tree
    const cnt: array<nat>          // m_nd_cnt
    const cols: array<seq<Item>>   // what m_clt_wt has been given, leaf by leaf
    var roots: nat                 // records so far

    ghost predicate Valid() {
      tree.Valid() && cnt.Length == cols.Length == |tree.nodes|
    }

    constructor (tree: Tree)
      requires tree.Valid()
      ensures Valid() && this.tree == tree && roots == 0 && fresh(cnt) && fresh(cols)
      ensures forall d :: 0 <= d < cnt.Length ==> cnt[d] == 0 && cols[d] == []
    {
      this.tree := tree;
      cnt := new nat[|tree.nodes|](_ => 0);
      cols := new seq<Item>[|tree.nodes|](_ => []);
      roots := 0;
    }

    /** `CollectionWriter::write`. */
    method WriteItem(l: Sign, it: Item)
      requires l < cols.Length
      modifies cols
      ensures cols[..] == old(cols[..])[l := old(cols[l]) + [it]]
    {
      cols[l] := cols[l] + [it];
    }

    /** `checkChildAppeared`: clears the counters of the children that appeared, and gives every leaf below
        the others one item. */
    method CheckChildAppeared(s: Sign, rep: nat, def: nat)
      requires Valid() && s < |tree.nodes| && DeepClear(tree, cnt[..], s)
      modifies cnt, cols
      ensures Checked(tree, old(cnt[..]), cnt[..], s, |tree.nodes[s].kids|)
      ensures Filled(tree, old(cnt[..]), old(cols[..]), cols[..], s, |tree.nodes[s].kids|, rep, def)
      decreases |tree.nodes| - s
    {
      hide Checked, Filled, DeepClear, Clear, ChildFilled;
      ghost var cnt0, cols0 := cnt[..], cols[..];
      var kids := tree.nodes[s].kids;
      var ci := 0;
      NothingChecked(tree, cnt0, cols0, s, rep, def);
      while ci < |kids|
        invariant 0 <= ci <= |kids|
        invariant Checked(tree, cnt0, cnt[..], s, ci)
        invariant Filled(tree, cnt0, cols0, cols[..], s, ci, rep, def)
      {
        var c := kids[ci];
        ghost var now, mid := cnt[..], cols[..];
        KidApart(tree, s, ci);
        CheckedNext(tree, cnt0, now, s, ci);
        if cnt[c] > 0 {
          ChildAppeared(tree, cnt0, mid, s, c, rep, def);
          cnt[c] := 0;
        } else {
          assert now[c := 0] == now;
          if tree.IsLeaf(c) {
            LeafMissing(tree, cnt0, mid, s, c, rep, def);
            WriteItem(c, Item(rep, def, None));
          } else {
            BelowClear(tree, cnt0, now, s, ci);
            CheckChildAppeared(c, rep, def);
            StillClear(tree, now, cnt[..], c);
            InnerMissing(tree, cnt0, now, mid, cols[..], s, c, rep, def);
          }
        }
        FilledNext(tree, cnt0, cols0, mid, cols[..], s, ci, rep, def);
        ci := ci + 1;
      }
    }

    /** `generateByField`: the members of an object, and one item for every leaf below a missing one.
        All counters are as they were. */
    method GenerateByField(f: Json, s: Sign, rep: nat)
      requires Valid() && s < |tree.nodes| && !tree.IsLeaf(s) && KnownKids(tree, f, s) && Clear(tree, cnt[..], s)
      modifies cnt, cols
      ensures cnt[..] == old(cnt[..])
      ensures OccurrenceAdded(tree, old(cols[..]), cols[..], s, Obj(TypeMembers(tree, f, |f.kids|, s)), rep)
      decreases f, 0
    {
      hide Clear, DeepClear, Marked, MembersAdded, ContentAdded, OccurrenceAdded, Checked, Filled, TypeMembers,
           TypeField, KnownKids, Json.IsNull, Tree.Lookup;
      ghost var cnt0, cols0 := cnt[..], cols[..];
      NothingMarked(tree, cnt0, cols0, s, rep);
      NoMembers(tree, f, s);
      var ei := 0;
      while ei < |f.kids|
        invariant 0 <= ei <= |f.kids|
        invariant Marked(tree, cnt0, cnt[..], s, TypeMembers(tree, f, ei, s))
        invariant MembersAdded(tree, cols0, cols[..], s, TypeMembers(tree, f, ei, s), rep)
      {
        ghost var ms, now, mid := TypeMembers(tree, f, ei, s), cnt[..], cols[..];
        MembersStep(tree, f, ei, s);
        if !f.kids[ei].IsNull() {
          NextIsNew(tree, f, ei, s);
          var c := tree.Lookup(s, f.kids[ei]).value;
          MarkedClear(tree, cnt0, now, s, ms);
          KidLevel(tree, s, c);
          KnownKid(tree, f, ei, s);
          StillClearWith(tree, now, c, 1);
          cnt[c] := 1;
          GenerateChild(f.kids[ei], c, rep);
          MarkedNext(tree, cnt0, now, cnt[..], s, ms, c, TypeField(tree, f.kids[ei], c));
          MembersNext(tree, cols0, mid, cols[..], s, ms, c, TypeField(tree, f.kids[ei], c), rep);
        }
        ei := ei + 1;
      }
      ghost var ms, marked, mid := TypeMembers(tree, f, |f.kids|, s), cnt[..], cols[..];
      MarkedClear(tree, cnt0, marked, s, ms);
      CheckChildAppeared(s, rep, tree.nodes[s].level);
      ObjectAdded(tree, marked, cols0, mid, cols[..], cnt0, s, ms, rep);
      MarksCleared(tree, cnt0, marked, cnt[..], s, ms);
    }

    /** What `generateByField` does with a field it has found the node of. */
    method GenerateChild(f: Json, c: Sign, rep: nat)
      requires Valid() && 0 < c < |tree.nodes| && KnownField(tree, f, c) && Clear(tree, cnt[..], c) && cnt[c] > 0
      requires tree.nodes[c].cat == Multi ==> f.IsRepeatedArray()
      modifies cnt, cols
      ensures cnt[..] == old(cnt[..])[c := cnt[c]] && cnt[c] > 0
      ensures ContentAdded(tree, old(cols[..]), cols[..], c, TypeField(tree, f, c), rep)
      decreases f, 3
    {
      hide Clear, ContentAdded, OccurrenceAdded, TypeMembers, KnownKids;
      ghost var cols0 := cols[..];
      if tree.IsLeaf(c) && f.kids == [] {
        LeafOccurrence(tree, cols[..], c, f, rep);
        WriteItem(c, Item(rep, tree.nodes[c].level, Some(f.txt)));
      } else {
        Generate(f, c, rep);
      }
      if !f.IsRepeatedArray() || tree.nodes[c].cat != Multi {
        SingleContent(tree, cols0, cols[..], c, TypeElem(tree, f, c), rep);
      }
    }

    /** `generate`: a repeated array of a node for arrays, or else an object or an indexed array. */
    method Generate(f: Json, s: Sign, rep: nat)
      requires Valid() && s < |tree.nodes| && KnownField(tree, f, s) && Clear(tree, cnt[..], s) && !f.vtype.Primitive?
      modifies cnt, cols
      ensures if f.IsRepeatedArray() && tree.nodes[s].cat == Multi
              then cnt[..] == old(cnt[..])[s := cnt[s]] && cnt[s] >= old(cnt[s])
              else cnt[..] == old(cnt[..])
      ensures if f.IsRepeatedArray() && tree.nodes[s].cat == Multi
              then s > 0 && ContentAdded(tree, old(cols[..]), cols[..], s, TypeField(tree, f, s), rep)
              else OccurrenceAdded(tree, old(cols[..]), cols[..], s, TypeElem(tree, f, s), rep)
      decreases f, 2
    {
      hide Clear, ContentAdded, OccurrenceAdded, TypeMembers, KnownKids, Json.IsRepeatedArray;
      if f.IsRepeatedArray() && tree.nodes[s].cat == Multi {
        GenerateByNaiveArray(f, s, rep);
      } else {
        GenerateByField(f, s, rep);
      }
    }

    /** `generateByNaiveArray`: the elements one after the other, the first repeating where the array's own
        place does and the others at the array's level. */
    method GenerateByNaiveArray(f: Json, s: Sign, rep: nat)
      requires Valid() && s < |tree.nodes| && f.IsRepeatedArray() && tree.nodes[s].cat == Multi
      requires KnownField(tree, f, s) && Clear(tree, cnt[..], s)
      modifies cnt, cols
      ensures cnt[..] == old(cnt[..])[s := cnt[s]] && cnt[s] >= old(cnt[s])
      ensures s > 0 && ContentAdded(tree, old(cols[..]), cols[..], s, TypeField(tree, f, s), rep)
      decreases f, 1
    {
      hide Clear, ContentAdded, OccurrenceAdded, PrefixAdded, TypeMembers, KnownKids;
      ghost var cnt0, cols0 := cnt[..], cols[..];
      ghost var v := TypeField(tree, f, s);
      NoElems(tree, cols0, s, v, rep);
      var r := rep;
      var ei := 0;
      while ei < |f.kids|
        invariant 0 <= ei <= |f.kids| && r == if ei == 0 then rep else tree.nodes[s].level
        invariant cnt[..] == cnt0[s := cnt[s]] && cnt[s] >= cnt0[s]
        invariant PrefixAdded(tree, cols0, cols[..], s, v, ei, rep)
      {
        ghost var mid := cols[..];
        if ei > 0 { cnt[s] := cnt[s] + 1; }
        assert cnt[..] == cnt0[s := cnt[s]];
        StillClearWith(tree, cnt0, s, cnt[s]);
        var kid := f.kids[ei];
        ElemKnown(tree, f, ei, s);
        if tree.IsLeaf(s) && kid.kids == [] {
          LeafOccurrence(tree, cols[..], s, kid, r);
          WriteItem(s, Item(r, tree.nodes[s].level, Some(kid.txt)));
        } else {
          Generate(kid, s, r);
        }
        NextElem(tree, cols0, mid, cols[..], s, v, ei, rep);
        r := tree.nodes[s].level;
        ei := ei + 1;
      }
      AllElems(tree, cols0, cols[..], s, v, rep);
    }

    /** One record through `generate`: every leaf's column gets the record's striping, and every counter is
        zero again. */
    method GenerateRecord(f: Json)
      requires Valid() && KnownKids(tree, f, 0) && f.vtype == ObjectType
      requires forall d :: 0 <= d < cnt.Length ==> cnt[d] == 0
      modifies this`roots, cnt, cols
      ensures roots == old(roots) + 1
      ensures forall d :: 0 <= d < cnt.Length ==> cnt[d] == 0
      ensures forall l: Sign :: l < cols.Length ==>
                cols[l] == old(cols[l]) + if tree.IsLeaf(l) then RecordItems(tree, f, l) else []
    {
      hide OccurrenceAdded, TypeMembers, KnownKids, Clear;
      roots := roots + 1;
      AllClear(tree, cnt[..]);
      ghost var cols0 := cols[..];
      Generate(f, 0, 0);
      RootItems(tree, cols0, cols[..], f);
    }
  }

  /** The striping of a record in the column of leaf l. */
  function RecordItems(t: Tree, f: Json, l: Sign): seq<Item>
    requires t.Valid() && l < |t.nodes| && t.IsLeaf(l)
  {
    StripeObject(Obj(TypeMembers(t, f, |f.kids|, 0)), t.PathOf(l), 0, 0)
  }

  /** A record leaves the same items in every column as the record without its members that are null, {} or []. */
  lemma RecordPruned(t: Tree, f: Json, l: Sign)
    requires t.Valid() && l < |t.nodes| && t.IsLeaf(l)
    ensures RecordItems(t, Pruned(f), l) == RecordItems(t, f, l)
    ensures KnownKids(t, f, 0) ==> KnownKids(t, Pruned(f), 0)
  {
    PrunedMembers(t, f, 0);
    if KnownKids(t, f, 0) { PrunedKnown(t, f, 0); }
    hide TypeMembers, Pruned, StripeObject, KnownKids;
  }

  lemma AllClear(t: Tree, cnt: seq<nat>)
    requires t.Valid() && |cnt| == |t.nodes| && forall d :: 0 <= d < |cnt| ==> cnt[d] == 0
    ensures Clear(t, cnt, 0)
  {
  }

  lemma RootItems(t: Tree, before: seq<seq<Item>>, after: seq<seq<Item>>, f: Json)
    requires t.Valid() && OccurrenceAdded(t, before, after, 0, TypeElem(t, f, 0), 0)
    ensures |before| == |after| == |t.nodes|
    ensures forall l: Sign :: l < |after| ==> after[l] == before[l] + if t.IsLeaf(l) then RecordItems(t, f, l) else []
  {
    hide TypeMembers, StripeObject;
  }

  /** What writing a leaf's value adds. */
  lemma LeafOccurrence(t: Tree, cols: seq<seq<Item>>, c: Sign, f: Json, rep: nat)
    requires t.Valid() && 0 < c < |t.nodes| == |cols| && t.IsLeaf(c) && f.kids == []
    ensures OccurrenceAdded(t, cols, cols[c := cols[c] + [Item(rep, t.nodes[c].level, Some(f.txt))]], c,
        TypeElem(t, f, c), rep)
  {
    hide Through;
    forall l: Sign | l < |cols|
      ensures Through(t, l, c) <==> l == c
    {
      ThroughLeaf(t, l, c);
    }
  }

  /** A single occurrence is the whole content of its field. */
  lemma SingleContent(t: Tree, before: seq<seq<Item>>, after: seq<seq<Item>>, c: Sign, w: Value, rep: nat)
    requires t.Valid() && 0 < c < |t.nodes| && !w.Rep? && OccurrenceAdded(t, before, after, c, w, rep)
    ensures ContentAdded(t, before, after, c, w, rep)
  {
    hide Through, StripeElem;
  }

  // ---- Elements of an array ----

  /** Items of the first i elements. */
  function StripePrefix(v: Value, i: nat, p: Path, L: nat, rep: nat): seq<Item>
    requires L <= |p| && v.Rep? && i <= |v.elems|
  {
    if i == 0 then []
    else StripePrefix(v, i - 1, p, L, rep) + StripeElem(v.elems[i - 1], p, L, if i == 1 then rep else L)
  }

  lemma {:induction false} PrefixIsField(v: Value, i: nat, p: Path, L: nat, rep: nat)
    requires 0 < L <= |p| && v.Rep? && 0 < i <= |v.elems|
    ensures StripePrefix(v, i, p, L, rep) + StripeElems(v, i, p, L) == StripeField(v, p, L, rep)
    decreases i
  {
    hide StripeElem;
    if i == 1 {
      assert StripePrefix(v, 0, p, L, rep) == [];
      assert [] + StripeElem(v.elems[0], p, L, rep) == StripeElem(v.elems[0], p, L, rep);
    } else {
      PrefixIsField(v, i - 1, p, L, rep);
      var a, b, c := StripePrefix(v, i - 1, p, L, rep), StripeElem(v.elems[i - 1], p, L, L), StripeElems(v, i, p, L);
      assert StripeElems(v, i - 1, p, L) == b + c;
      assert a + (b + c) == a + b + c;
    }
  }

  function Prefix(t: Tree, l: Sign, s: Sign, v: Value, i: nat, rep: nat): seq<Item>
    requires t.Valid() && l < |t.nodes| && s < |t.nodes| && v.Rep? && i <= |v.elems|
  {
    if t.IsLeaf(l) && Through(t, l, s) then StripePrefix(v, i, t.PathOf(l), t.nodes[s].level, rep) else []
  }

  ghost predicate PrefixAdded(t: Tree, before: seq<seq<Item>>, after: seq<seq<Item>>, s: Sign, v: Value, i: nat,
        rep: nat)
    requires t.Valid() && s < |t.nodes| && v.Rep? && i <= |v.elems|
  {
    |before| == |after| == |t.nodes| &&
    forall l: Sign :: l < |after| ==> after[l] == before[l] + Prefix(t, l, s, v, i, rep)
  }

  lemma NoElems(t: Tree, cols: seq<seq<Item>>, s: Sign, v: Value, rep: nat)
    requires t.Valid() && s < |t.nodes| == |cols| && v.Rep?
    ensures PrefixAdded(t, cols, cols, s, v, 0, rep)
  {
    hide Through;
  }

  lemma NextElem(t: Tree, before: seq<seq<Item>>, mid: seq<seq<Item>>, after: seq<seq<Item>>, s: Sign, v: Value, i: nat,
        rep: nat)
    requires t.Valid() && s < |t.nodes| && v.Rep? && i < |v.elems| && PrefixAdded(t, before, mid, s, v, i, rep)
    requires OccurrenceAdded(t, mid, after, s, v.elems[i], if i == 0 then rep else t.nodes[s].level)
    ensures PrefixAdded(t, before, after, s, v, i + 1, rep)
  {
    hide Through, StripeElem;
    var r := if i == 0 then rep else t.nodes[s].level;
    forall l: Sign | l < |after|
      ensures after[l] == before[l] + Prefix(t, l, s, v, i + 1, rep)
    {
      assert before[l] + (Prefix(t, l, s, v, i, rep) + Occurrence(t, l, s, v.elems[i], r))
          == before[l] + Prefix(t, l, s, v, i, rep) + Occurrence(t, l, s, v.elems[i], r);
    }
  }

  lemma AllElems(t: Tree, before: seq<seq<Item>>, after: seq<seq<Item>>, s: Sign, v: Value, rep: nat)
    requires t.Valid() && 0 < s < |t.nodes| && v.Rep? && v.elems != [] &&
        PrefixAdded(t, before, after, s, v, |v.elems|, rep)
    ensures ContentAdded(t, before, after, s, v, rep)
  {
    hide StripeElem, StripeField, StripePrefix;
    forall l: Sign | l < |after|
      ensures after[l] == before[l] + Content(t, l, s, v, rep)
    {
      if Through(t, l, s) && t.IsLeaf(l) {
        PrefixIsField(v, |v.elems|, t.PathOf(l), t.nodes[s].level, rep);
        NoMoreElems(v, t.PathOf(l), t.nodes[s].level);
      }
    }
  }

  lemma NoMoreElems(v: Value, p: Path, L: nat)
    requires L <= |p| && v.Rep?
    ensures StripeElems(v, |v.elems|, p, L) == []
  {
  }

  /** An element of a repeated array is known, and is what it was typed to. */
  lemma ElemKnown(t: Tree, f: Json, i: nat, s: Sign)
    requires t.Valid() && s < |t.nodes| && f.IsRepeatedArray() && t.nodes[s].cat == Multi && KnownField(t, f, s)
    requires i < |f.kids|
    ensures s > 0 && KnownField(t, f.kids[i], s) && !f.kids[i].IsRepeatedArray()
    ensures TypeField(t, f, s).Rep? && |TypeField(t, f, s).elems| == |f.kids|
    ensures TypeField(t, f, s).elems[i] == TypeElem(t, f.kids[i], s)
    ensures !(t.IsLeaf(s) && f.kids[i].kids == []) ==> !f.kids[i].vtype.Primitive?
  {
    hide TypeElem, KnownKids;
    assert f.kids[i].vtype == f.kids[0].vtype;
  }

  lemma NoMembers(t: Tree, f: Json, s: Sign)
    requires t.Valid() && s < |t.nodes|
    ensures TypeMembers(t, f, 0, s) == []
  {
  }

  lemma MembersStep(t: Tree, f: Json, i: nat, s: Sign)
    requires t.Valid() && s < |t.nodes| && i < |f.kids| && KnownKids(t, f, s)
    ensures f.kids[i].IsNull() ==> TypeMembers(t, f, i + 1, s) == TypeMembers(t, f, i, s)
    ensures !f.kids[i].IsNull() ==>
              && t.Lookup(s, f.kids[i]).Some? && t.Lookup(s, f.kids[i]).value < |t.nodes|
              && var c := t.Lookup(s, f.kids[i]).value;
                 TypeMembers(t, f, i + 1, s) == TypeMembers(t, f, i, s) + [Member(c, TypeField(t, f.kids[i], c))]
  {
    hide TypeField, KnownField;
  }

  lemma KnownKid(t: Tree, f: Json, i: nat, s: Sign)
    requires t.Valid() && s < |t.nodes| && i < |f.kids| && KnownKids(t, f, s) && !f.kids[i].IsNull()
    ensures t.Lookup(s, f.kids[i]).Some?
    ensures var c := t.Lookup(s, f.kids[i]).value;
            && c < |t.nodes| && KnownField(t, f.kids[i], c)
            && (t.nodes[c].cat == Multi ==> f.kids[i].IsRepeatedArray())
  {
    LookupCategory(t, s, f.kids[i]);
    hide KnownField;
  }

  /** Counting c itself leaves what is below it clear. */
  lemma StillClearWith(t: Tree, cnt: seq<nat>, c: Sign, n: nat)
    requires t.Valid() && c < |t.nodes| && |cnt| == |t.nodes| && Clear(t, cnt, c)
    ensures Clear(t, cnt[c := n], c)
  {
  }

  lemma NothingChecked(t: Tree, cnt: seq<nat>, cols: seq<seq<Item>>, s: Sign, rep: nat, def: nat)
    requires t.Valid() && s < |t.nodes| && |cnt| == |cols| == |t.nodes|
    ensures Checked(t, cnt, cnt, s, 0) && Filled(t, cnt, cols, cols, s, 0, rep, def)
  {
  }

  /** Below a child that has not appeared nothing has. */
  lemma BelowClear(t: Tree, before: seq<nat>, now: seq<nat>, s: Sign, i: nat)
    requires t.Valid() && s < |t.nodes| && i < |t.nodes[s].kids| && |before| == |t.nodes|
    requires DeepClear(t, before, s) && Checked(t, before, now, s, i)
    ensures var c := t.nodes[s].kids[i]; c < |t.nodes| && Clear(t, now, c) && DeepClear(t, now, c)
  {
    var c := t.nodes[s].kids[i];
    KidApart(t, s, i);
    hide Through, Toward;
    forall d: Sign | d < |now| && Below(t, d, c)
      ensures now[d] == 0
    {
      DeepBelow(t, d, s, c);
    }
  }

  /** Grandchildren are no children. */
  lemma DeepBelow(t: Tree, d: Sign, s: Sign, c: Sign)
    requires t.Valid() && d < |t.nodes| && s < |t.nodes| && c in t.nodes[s].kids && c < |t.nodes| && Below(t, d, c)
    ensures Below(t, d, s) && d !in t.nodes[s].kids
  {
    KidThrough(t, d, s, c);
    KidLevel(t, s, c);
    BelowDeeper(t, d, c);
    if d in t.nodes[s].kids { KidLevel(t, s, d); }
  }

  lemma StillClear(t: Tree, before: seq<nat>, after: seq<nat>, c: Sign)
    requires t.Valid() && c < |t.nodes| && |before| == |t.nodes|
    requires Clear(t, before, c) && Checked(t, before, after, c, |t.nodes[c].kids|)
    ensures after == before
  {
    hide Through;
    forall d: Sign | d < |after|
      ensures after[d] == before[d]
    {
      if d in t.nodes[c].kids { KidBelow(t, c, d); }
    }
  }
}
