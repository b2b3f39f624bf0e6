// JSONRecordNaiveParser: builds the tree of a record in place, and ends every token with a NUL.

module JsonParser {
  import opened Wrappers
  import opened JsonTrees
  import opened JsonText
  import opened JsonTokens

  // ---- Scanning looks only ahead ----

  /** From position c on, the buffer still holds the text. */
  ghost predicate Follows(t: string, b: string, c: nat) {
    |b| == |t| && forall i :: c <= i < |t| ==> b[i] == t[i]
  }

  lemma {:induction false} SpaceAhead(t: string, b: string, c: nat)
    requires Follows(t, b, c)
    ensures SkipSpace(b, c) == SkipSpace(t, c)
    decreases |t| - c
  {
    if c < |t| && IsSpace(t[c]) {
      SpaceAhead(t, b, c + 1);
    }
  }

  lemma TokenAhead(t: string, b: string, c: nat)
    requires Follows(t, b, c)
    ensures Token(b, c) == Token(t, c)
  {
    SpaceAhead(t, b, c);
  }

  lemma {:induction false} StringAhead(t: string, b: string, c: nat)
    requires Follows(t, b, c)
    ensures StringEnd(b, c) == StringEnd(t, c)
    decreases |t| - c
  {
    if c < |t| && t[c] != NUL && t[c] != '"' {
      StringAhead(t, b, if t[c] == '\\' then c + 2 else c + 1);
    }
  }

  lemma {:induction false} NumberAhead(t: string, b: string, c: nat)
    requires Follows(t, b, c)
    ensures NumberEnd(b, c) == NumberEnd(t, c)
    decreases |t| - c
  {
    if c < |t| && InNumber(t[c]) {
      NumberAhead(t, b, c + 1);
    }
  }

  lemma {:induction false} CharsAhead(t: string, b: string, c: nat, n: nat)
    requires Follows(t, b, c)
    ensures CharsEnd(b, c, n) == CharsEnd(t, c, n)
    decreases n
  {
    if n > 0 {
      CharsAhead(t, b, c + 1, n - 1);
    }
  }

  lemma PrimAhead(t: string, b: string, c: nat, ty: nat)
    requires Follows(t, b, c)
    ensures PrimEnd(b, c, ty) == PrimEnd(t, c, ty)
  {
    StringAhead(t, b, c + 1);
    NumberAhead(t, b, c + 1);
    CharsAhead(t, b, c, 5);
    CharsAhead(t, b, c, 4);
  }

  /** NULs in front of a position leave what follows alone. */
  lemma BlotFollows(t: string, b: string, ends: seq<nat>, c: nat, lo: int, e: nat)
    requires Follows(t, b, c) && Between(ends, lo, e) && c <= e
    ensures Follows(t, Blot(b, ends), e)
  {
  }

  // ---- Children of a node ----

  /** Children that are not yet in use have nothing of the current record. */
  ghost predicate RestClean(ns: Nodes, p: nat)
    requires p < |ns|
  {
    forall k :: ns[p].used <= k < |ns[p].kids| ==> Clean(ns, ns[p].kids[k])
  }

  /** Trees of the children in use. */
  function KidShapes(ns: Nodes, p: nat): (ss: seq<Shape>)
    requires Arena(ns) && p < |ns|
    ensures |ss| == ns[p].used
  {
    assert KidsOk(ns, p);
    seq(ns[p].used, k requires 0 <= k < ns[p].used => ShapeOf(ns, ns[p].kids[k]))
  }

  lemma ShapeIs(ns: Nodes, i: nat)
    requires Arena(ns) && i < |ns|
    ensures ShapeOf(ns, i) == Shape(ns[i].key, ns[i].val, ns[i].vtype, KidShapes(ns, i))
  {
    assert KidsOk(ns, i);
    assert forall k :: 0 <= k < ns[i].used ==> ShapeOf(ns, i).kids[k] == KidShapes(ns, i)[k];
  }

  /** One more child of p is in use, and nothing else about p has changed. */
  ghost predicate OneMoreKid(before: Nodes, after: Nodes, p: nat) {
    && p < |before| <= |after|
    && after[p] == before[p].(used := before[p].used + 1, kids := after[p].kids)
    && before[p].kids <= after[p].kids && before[p].used < |after[p].kids|
  }

  /** `getNextChild` has put child c of p to use. */
  ghost predicate Taken(before: Nodes, mid: Nodes, p: nat, c: nat) {
    && Arena(before) && Grown(before, mid, p) && OneMoreKid(before, mid, p)
    && p < c < |mid| && mid[p].kids[before[p].used] == c && Clean(mid, c)
    && mid[p].kids <= before[p].kids + [c]
    && forall j :: 0 <= j < |before| && j != p ==> mid[j] == before[j]
  }

  /** The other children keep their trees when one is put to use. */
  lemma OtherKid(before: Nodes, mid: Nodes, p: nat, c: nat, s: nat)
    requires Taken(before, mid, p, c) && s in before[p].kids
    ensures p < s < |before| && mid[s].parent == p
    ensures ShapeOf(mid, s) == ShapeOf(before, s)
    ensures Clean(before, s) ==> Clean(mid, s)
  {
    assert KidsOk(before, p);
    hide ShapeOf, Arena, Clean, Under;
    forall j: nat | j < |before| && Under(before, s, j)
      ensures mid[j] == before[j]
    {
      UnderOrder(before, s, j);
    }
    UnderInside(before, s);
    ShapeFrame(before, mid, s);
    if Clean(before, s) {
      CleanKept(before, mid, s);
    }
  }

  lemma ChildLinks(before: Nodes, mid: Nodes, p: nat, c: nat, k: nat)
    requires Taken(before, mid, p, c) && k < |mid[p].kids|
    ensures KidsOk(mid, p) && mid[c].parent == p && mid[mid[p].kids[k]].parent == p
    ensures p < mid[p].kids[k] < |mid| && (k != before[p].used ==> mid[p].kids[k] != c)
    ensures k != before[p].used ==> k < |before[p].kids| && mid[p].kids[k] == before[p].kids[k]
  {
    assert KidsOk(mid, p);
    assert mid[p].kids[k] == (before[p].kids + [c])[k];
  }

  lemma NotUnderChild(ns: Nodes, p: nat, c: nat)
    requires p < c
    ensures !Under(ns, c, p)
  {
  }

  lemma ChildIsUnder(ns: Nodes, p: nat, c: nat)
    requires p < c < |ns| && ns[c].parent == p
    ensures Under(ns, p, c)
  {
    assert Under(ns, p, p);
  }

  /** What a parsed child adds to its parent. */
  lemma ChildParsed(before: Nodes, mid: Nodes, after: Nodes, p: nat, c: nat)
    requires Taken(before, mid, p, c) && RestClean(before, p) && Grown(mid, after, c)
    ensures Grown(before, after, p) && OneMoreKid(before, after, p) && RestClean(after, p)
    ensures KidShapes(after, p) == KidShapes(before, p) + [ShapeOf(after, c)]
  {
    ChildLinks(before, mid, p, c, before[p].used);
    NotUnderChild(mid, p, c);
    ChildIsUnder(mid, p, c);
    GrownTrans(before, mid, after, p, c);
    hide ShapeOf, Clean, Under, KidsOk, Arena;
    assert after[p] == mid[p];
    OthersClean(before, mid, after, p, c);
    KidShapesGrow(before, mid, after, p, c);
  }

  lemma OthersClean(before: Nodes, mid: Nodes, after: Nodes, p: nat, c: nat)
    requires Taken(before, mid, p, c) && RestClean(before, p) && Grown(mid, after, c) && after[p] == mid[p]
    ensures RestClean(after, p)
  {
    hide ShapeOf, Clean, Under, KidsOk, Arena;
    forall k | after[p].used <= k < |after[p].kids|
      ensures Clean(after, after[p].kids[k])
    {
      KidSame(before, mid, after, p, c, k);
    }
  }

  lemma KidShapesGrow(before: Nodes, mid: Nodes, after: Nodes, p: nat, c: nat)
    requires Taken(before, mid, p, c) && Grown(mid, after, c) && after[p] == mid[p]
    ensures KidShapes(after, p) == KidShapes(before, p) + [ShapeOf(after, c)]
  {
    var a, b := KidShapes(after, p), KidShapes(before, p) + [ShapeOf(after, c)];
    Rooms(mid);
    assert |a| == |b|;
    forall k | 0 <= k < |b|
      ensures a[k] == b[k]
    {
      if k < before[p].used {
        KidSame(before, mid, after, p, c, k);
      }
    }
  }

  lemma KidSame(before: Nodes, mid: Nodes, after: Nodes, p: nat, c: nat, k: nat)
    requires Taken(before, mid, p, c) && Grown(mid, after, c) && after[p] == mid[p]
    requires k < |mid[p].kids| && k != before[p].used
    ensures k < |before[p].kids| && before[p].kids[k] < |before| && mid[p].kids[k] == before[p].kids[k] < |mid|
    ensures ShapeOf(after, after[p].kids[k]) == ShapeOf(before, before[p].kids[k])
    ensures Clean(before, before[p].kids[k]) ==> Clean(after, after[p].kids[k])
  {
    hide ShapeOf, Clean, Under, Arena;
    ChildLinks(before, mid, p, c, k);
    ChildLinks(before, mid, p, c, before[p].used);
    var s := before[p].kids[k];
    OtherKid(before, mid, p, c, s);
    SiblingKept(mid, after, c, s);
  }

  lemma {:induction false} PtrsSnoc(fs: seq<Field>, f: Field)
    ensures PtrsOf(fs + [f]) == PtrsOf(fs) + [PtrOf(f)]
  {
    if fs == [] {
      assert fs + [f] == [f];
    } else {
      PtrsSnoc(fs[1..], f);
      assert (fs + [f])[1..] == fs[1..] + [f];
    }
  }

  lemma {:induction false} EndsSnoc(fs: seq<Field>, f: Field)
    ensures EndsOfAll(fs + [f]) == EndsOfAll(fs) + EndsOfKid(f)
  {
    if fs == [] {
      assert fs + [f] == [f];
      EndsOfOne(f);
    } else {
      EndsSnoc(fs[1..], f);
      assert (fs + [f])[1..] == fs[1..] + [f];
    }
  }

  // ---- The parser ----

  /** At c0 the text has a value that the parser accepts. */
  ghost predicate ValueAt(t: string, b: string, c0: nat, k: Key) {
    Follows(t, b, c0) && ReadValue(t, c0, k).Some?
  }

  ghost predicate MemberAt(t: string, b: string, c0: nat) {
    Follows(t, b, c0) && ReadMember(t, c0).Some?
  }

  ghost predicate ObjectAt(t: string, b: string, c0: nat) {
    Follows(t, b, c0) && Token(t, c0).Some? && ReadObject(t, Token(t, c0).value).Some?
  }

  ghost predicate ArrayAt(t: string, b: string, c0: nat) {
    Follows(t, b, c0) && Token(t, c0).Some? && ReadArray(t, Token(t, c0).value).Some?
  }

  /** After value f: its tree at node idx, a NUL behind each of its tokens, and the cursor at e. */
  ghost predicate ValueRead(t: string, before: string, after: string, ns: Nodes, idx: nat, f: Field, e: nat, c: nat,
        delim: char) {
    && c == e < |t| && delim == t[c] && after == Blot(before, EndsOf(f))
    && Arena(ns) && idx < |ns| && ShapeOf(ns, idx) == PtrOf(f)
  }

  /** After a structure: the trees of its members or elements below node idx, and the NULs. */
  ghost predicate KidsRead(before: string, after: string, ns: Nodes, ns': Nodes, idx: nat, fs: seq<Field>) {
    && after == Blot(before, EndsOfAll(fs))
    && Arena(ns') && idx < |ns| <= |ns'| && KidShapes(ns', idx) == PtrsOf(fs)
    && ns'[idx].key == ns[idx].key && ns'[idx].val == ns[idx].val && ns'[idx].vtype == ns[idx].vtype
  }

  /** Setting a node's own fields changes nothing below it. */
  lemma SetFacts(ns: Nodes, i: nat, n: BinField)
    requires Arena(ns) && i < |ns| && n.used == ns[i].used && n.kids == ns[i].kids && n.parent == ns[i].parent
    requires Arena(ns[i := n])
    ensures Grown(ns, ns[i := n], i) && (Clean(ns, i) ==> Clean(ns[i := n], i))
  {
    hide Arena;
    Itself(ns, i);
    var b := ns[i := n];
    forall j: nat | Under(b, i, j)
      ensures j < |b| && Under(ns, i, j)
    {
      UnderSame(ns, b, i, j);
    }
  }

  /** The white space behind a structure, and the character behind that. */
  lemma StructRead(t: string, before: string, now: string, ns: Nodes, mid: Nodes, idx: nat, c0: nat, k: Key, ctype: nat,
        e: nat, b: string, c: nat, s: int)
    requires ValueAt(t, before, c0, k) && ctype == TypeOf(At(before, c0)) && b == now && |b| == |before|
    requires ctype == OBJECT || ctype == ARRAY
    requires idx < |mid| && mid[idx].key == KeyPtr(k) && mid[idx].val == Null && mid[idx].vtype == ctype
    requires ctype == OBJECT && ObjectAt(t, before, c0) ==>
               var r := ReadObject(t, Token(t, c0).value).value; e == r.1 && KidsRead(before, now, mid, ns, idx, r.0)
    requires ctype == ARRAY && ArrayAt(t, before, c0) ==>
               var r := ReadArray(t, Token(t, c0).value).value; e == r.1 && KidsRead(before, now, mid, ns, idx, r.0)
    requires Token(b, e) == if s == 1 then Some(c) else None
    ensures s == 1
    ensures var r := ReadValue(t, c0, k).value; ValueRead(t, before, b, ns, idx, r.0, r.1, c, At(b, c))
  {
    hide ReadObject, ReadArray, ShapeOf, KidShapes, Arena, EndsOfAll, PtrsOf, SkipSpace;
    assert At(before, c0) == At(t, c0);
    NotSpace(t, c0);
    var f := ReadValue(t, c0, k).value.0;
    if ctype == OBJECT { ObjectEnds(t, c0); } else { ArrayEnds(t, c0); }
    BlotFollows(t, before, EndsOfAll(f.kids), c0, c0, e);
    TokenAhead(t, b, e);
    ShapeIs(ns, idx);
    assert EndsOf(f) == [] + EndsOfAll(f.kids);
    assert [] + EndsOfAll(f.kids) == EndsOfAll(f.kids);
  }

  lemma CleanItself(ns: Nodes, i: nat)
    requires i < |ns| && Clean(ns, i)
    ensures ns[i].used == 0
  {
    Itself(ns, i);
  }

  lemma NotSpace(t: string, c: nat)
    requires c < |t| && (t[c] == '{' || t[c] == '[')
    ensures Token(t, c) == Some(c)
  {
  }

  /** A token without structure, and what is behind it. */
  lemma PrimitiveRead(t: string, before: string, c0: nat, k: Key, ctype: nat, valend: nat, s: int, c: nat)
    requires ValueAt(t, before, c0, k) && ctype == TypeOf(At(before, c0)) && ctype != OBJECT && ctype != ARRAY
    requires PrimEnd(before, c0, ctype).Some? ==> PrimEnd(before, c0, ctype) == Some(valend)
    requires Token(before, valend) == if s == 1 then Some(c) else None
    ensures s == 1 && STRING <= ctype <= NULL
    ensures ReadValue(t, c0, k) == Some((Field(k, ctype, Some(Span(c0, valend)), []), c))
    ensures c0 < valend <= c < |t| == |before| && before[c] == t[c]
  {
    PrimAhead(t, before, c0, ctype);
    assert At(before, c0) == At(t, c0);
    hide PrimEnd, SkipSpace;
    TokenAhead(t, before, valend);
  }

  /** The NUL behind the token, and the node. */
  lemma PrimitiveSet(t: string, before: string, ns: Nodes, idx: nat, ctype: nat, c0: nat, k: Key, valend: nat, c: nat)
    requires Arena(ns) && idx < |ns| && ns[idx].used == 0 && valend <= c < |t| == |before|
    requires ns[idx].key == KeyPtr(k) && ns[idx].val == InText(c0) && ns[idx].vtype == ctype
    ensures var f := Field(k, ctype, Some(Span(c0, valend)), []);
            ValueRead(t, before, before[valend := NUL], ns, idx, f, c, c, t[c])
  {
    hide Arena;
    var f := Field(k, ctype, Some(Span(c0, valend)), []);
    assert EndsOf(f) == [valend];
    assert before[valend := NUL] == Blot(before, [valend]);
    ShapeIs(ns, idx);
    assert KidShapes(ns, idx) == [];
    assert PtrsOf([]) == [];
  }

  // ---- Children, one after the other ----

  /** The buffer, the cursor and the children of node p after child f. */
  ghost predicate ChildRead(t: string, before: string, after: string, ns: Nodes, ns': Nodes, p: nat, f: Field,
        ends: seq<nat>, e: nat, c: nat, delim: char) {
    && c == e < |t| && delim == t[c] && after == Blot(before, ends)
    && Arena(ns) && Arena(ns') && p < |ns| && OneMoreKid(ns, ns', p)
    && KidShapes(ns', p) == KidShapes(ns, p) + [PtrOf(f)]
  }

  lemma Remaining(ns: Nodes, p: nat)
    requires p < |ns| && RestClean(ns, p)
    ensures forall k :: ns[p].used <= k < |ns[p].kids| ==> Clean(ns, ns[p].kids[k])
  {
  }

  lemma IsTaken(before: Nodes, mid: Nodes, p: nat, c: nat)
    requires Arena(before) && Grown(before, mid, p) && p < |before| && p < c < |mid| && Clean(mid, c)
    requires mid[p] == before[p].(used := before[p].used + 1, kids := mid[p].kids)
    requires 0 < mid[p].used <= |mid[p].kids| && mid[p].kids[mid[p].used - 1] == c
    requires before[p].kids <= mid[p].kids <= before[p].kids + [c]
    requires forall j :: 0 <= j < |before| && j != p ==> mid[j] == before[j]
    ensures Taken(before, mid, p, c)
  {
  }

  lemma ValueIsChild(t: string, before: string, after: string, ns: Nodes, ns': Nodes, p: nat, i: nat, f: Field, e: nat,
        c: nat, delim: char)
    requires ValueRead(t, before, after, ns', i, f, e, c, delim)
    requires Arena(ns) && p < |ns| && OneMoreKid(ns, ns', p)
    requires KidShapes(ns', p) == KidShapes(ns, p) + [ShapeOf(ns', i)]
    ensures ChildRead(t, before, after, ns, ns', p, f, EndsOf(f), e, c, delim)
  {
    hide Arena, KidShapes, ShapeOf;
  }

  lemma Start(ns: Nodes, p: nat)
    requires Arena(ns) && p < |ns| && Clean(ns, p)
    ensures Grown(ns, ns, p) && RestClean(ns, p) && ns[p].used == 0
  {
    CleanItself(ns, p);
    assert KidsOk(ns, p);
    hide Arena;
    forall k | 0 <= k < |ns[p].kids|
      ensures Clean(ns, ns[p].kids[k])
    {
      ChildIsUnder(ns, p, ns[p].kids[k]);
      forall j: nat | Under(ns, ns[p].kids[k], j)
        ensures ns[j].used == 0
      {
        UnderTrans(ns, p, ns[p].kids[k], j);
      }
    }
  }

  lemma StillGrown(a: Nodes, b: Nodes, c: Nodes, p: nat)
    requires Grown(a, b, p) && Grown(b, c, p) && p < |b|
    ensures Grown(a, c, p)
  {
    Itself(b, p);
    GrownTrans(a, b, c, p, p);
  }

  /** The children so far: their trees, and a NUL behind each of their tokens. */
  ghost predicate Done(mem: string, b: string, ns0: Nodes, ns: Nodes, p: nat, done: seq<Field>) {
    && Arena(ns) && p < |ns0| <= |ns| && KidShapes(ns, p) == PtrsOf(done)
    && ns[p].key == ns0[p].key && ns[p].val == ns0[p].val && ns[p].vtype == ns0[p].vtype
    && b == Blot(mem, EndsOfAll(done))
  }

  lemma NothingDone(mem: string, ns: Nodes, p: nat)
    requires Arena(ns) && p < |ns| && ns[p].used == 0
    ensures Done(mem, mem, ns, ns, p, [])
  {
    assert KidShapes(ns, p) == [];
    assert Blot(mem, []) == mem;
  }

  lemma OneMoreDone(t: string, mem: string, now: string, b: string, ns0: Nodes, mid: Nodes, ns: Nodes, p: nat,
        done: seq<Field>, f: Field, ends: seq<nat>, e: nat, c: nat, delim: char)
    requires Done(mem, now, ns0, mid, p, done) && ChildRead(t, now, b, mid, ns, p, f, ends, e, c, delim)
    requires ends == EndsOfKid(f)
    ensures Done(mem, b, ns0, ns, p, done + [f])
  {
    hide Arena, KidShapes, Blot, EndsOfAll, EndsOfKid, PtrsOf;
    PtrsSnoc(done, f);
    EndsSnoc(done, f);
    BlotTwice(mem, EndsOfAll(done), ends);
  }

  /** At the top of the loop of `parseObject`. */
  ghost predicate InObject(t: string, mem: string, b: string, ns0: Nodes, ns: Nodes, p: nat, brace: nat,
        done: seq<Field>, c: nat, delim: char) {
    && ReadObject(t, brace).Some? && Done(mem, b, ns0, ns, p, done) && |mem| == |t|
    && var total := ReadObject(t, brace).value;
       if delim == '}' then total == (done, c + 1)
       else
         && Follows(t, b, c) && ReadMembers(t, c).Some?
         && total == (done + ReadMembers(t, c).value.0, ReadMembers(t, c).value.1)
  }

  lemma ObjectBegins(t: string, mem: string, c0: nat, s: int, c: nat)
    requires ObjectAt(t, mem, c0) && Token(mem, c0) == if s == 1 then Some(c) else None
    ensures s == 1 && Token(t, c0) == Some(c) && c < |t| == |mem| && mem[c] == '{' && ReadObject(t, c).Some?
    ensures Follows(t, mem, c)
  {
    TokenAhead(t, mem, c0);
  }

  lemma ObjectEntered(t: string, mem: string, ns: Nodes, p: nat, brace: nat, s: int, c: nat)
    requires ReadObject(t, brace).Some? && Follows(t, mem, brace)
    requires Token(mem, brace + 1) == if s == 1 then Some(c) else None
    requires Arena(ns) && p < |ns| && ns[p].used == 0
    ensures s == 1 && c < |mem| && InObject(t, mem, mem, ns, ns, p, brace, [], c, mem[c])
  {
    hide Arena, Done;
    TokenAhead(t, mem, brace + 1);
    NothingDone(mem, ns, p);
    if mem[c] != '}' {
      assert [] + ReadMembers(t, c).value.0 == ReadMembers(t, c).value.0;
    }
  }

  lemma ObjectFinished(t: string, mem: string, b: string, ns0: Nodes, ns: Nodes, p: nat, brace: nat, done: seq<Field>,
        c: nat)
    requires InObject(t, mem, b, ns0, ns, p, brace, done, c, '}')
    ensures ReadObject(t, brace) == Some((done, c + 1)) && KidsRead(mem, b, ns0, ns, p, done)
  {
    hide Arena, ReadObject, KidShapes;
  }

  lemma MemberNext(t: string, mem: string, b: string, ns0: Nodes, ns: Nodes, p: nat, brace: nat, done: seq<Field>,
        c: nat, delim: char)
    requires InObject(t, mem, b, ns0, ns, p, brace, done, c, delim) && delim != '}'
    ensures MemberAt(t, b, c)
  {
    hide Done, ReadObject, ReadMember;
  }

  lemma MemberAdded(t: string, mem: string, now: string, b: string, ns0: Nodes, mid: Nodes, ns: Nodes, p: nat,
        brace: nat, done: seq<Field>, at: nat, was: char, behind: nat, delim: char, s: int, c: nat)
    requires InObject(t, mem, now, ns0, mid, p, brace, done, at, was) && was != '}'
    requires ReadMember(t, at).Some? &&
             var r := ReadMember(t, at).value;
             ChildRead(t, now, b, mid, ns, p, r.0, EndsOfKid(r.0), r.1, behind, delim)
    requires delim == ',' ==> Token(b, behind + 1) == if s == 1 then Some(c) else None
    requires delim == '}' ==> s == 1 && c == behind
    ensures s == 1 && InObject(t, mem, b, ns0, ns, p, brace, done + [ReadMember(t, at).value.0], c, delim)
  {
    hide Arena, Done, ReadObject, ReadMember, SkipSpace, EndsOfKid;
    var r := ReadMember(t, at).value;
    OneMoreDone(t, mem, now, b, ns0, mid, ns, p, done, r.0, EndsOfKid(r.0), r.1, behind, delim);
    MemberEnds(t, at);
    BlotFollows(t, now, EndsOfKid(r.0), at, at, behind + 1);
    if delim == ',' {
      TokenAhead(t, b, behind + 1);
      Onward(done, r.0, ReadMembers(t, c).value.0);
    }
  }

  lemma Onward(done: seq<Field>, f: Field, rest: seq<Field>)
    ensures done + ([f] + rest) == done + [f] + rest
  {
  }

  /** A key, the colon, and where the value begins. */
  lemma KeyRead(t: string, b: string, c0: nat) returns (end: nat, colon: nat, at: nat)
    requires MemberAt(t, b, c0)
    ensures c0 < |t| == |b| && b[c0] == '"' && StringEnd(b, c0 + 1) == Some(end) && c0 < end <= colon < at < |t|
    ensures Token(b, end) == Some(colon) && b[colon] == ':'
    ensures Token(b[end := NUL], colon + 1) == Some(at) && Follows(t, b[end := NUL], at)
    ensures b[end := NUL] == Blot(b, [end])
    ensures ReadMember(t, c0) == ReadValue(t, at, Quoted(Span(c0, end)))
  {
    hide SkipSpace, StringEnd, ReadValue;
    end := StringEnd(t, c0 + 1).value;
    colon := Token(t, end).value;
    at := Token(t, colon + 1).value;
    StringAhead(t, b, c0 + 1);
    TokenAhead(t, b, end);
    TokenAhead(t, b[end := NUL], colon + 1);
  }

  lemma MemberParsed(t: string, b: string, after: string, ns: Nodes, ns': Nodes, p: nat, f: Field, end: nat, e: nat,
        c: nat, delim: char)
    requires ChildRead(t, Blot(b, [end]), after, ns, ns', p, f, EndsOf(f), e, c, delim)
    requires f.key.Quoted? && f.key.span.end == end
    ensures ChildRead(t, b, after, ns, ns', p, f, EndsOfKid(f), e, c, delim)
  {
    hide Arena, KidShapes, EndsOf, Blot, OneMoreKid;
    BlotTwice(b, [end], EndsOf(f));
  }

  lemma Unchanged(ns: Nodes, p: nat)
    requires Arena(ns)
    ensures Grown(ns, ns, p)
  {
  }

  // ---- Elements ----

  /** At the top of the loop of `parseArray`. */
  ghost predicate InArray(t: string, mem: string, b: string, ns0: Nodes, ns: Nodes, p: nat, bracket: nat,
        done: seq<Field>, c: nat, delim: char) {
    && ReadArray(t, bracket).Some? && Done(mem, b, ns0, ns, p, done) && |mem| == |t|
    && var total := ReadArray(t, bracket).value;
       if delim == ']' then |done| < ELEM_CAP && total == (done, c + 1)
       else
         && Follows(t, b, c) && ReadElems(t, c, |done|).Some?
         && total == (done + ReadElems(t, c, |done|).value.0, ReadElems(t, c, |done|).value.1)
  }

  lemma ArrayBegins(t: string, mem: string, c0: nat, s: int, c: nat)
    requires ArrayAt(t, mem, c0) && Token(mem, c0) == if s == 1 then Some(c) else None
    ensures s == 1 && Token(t, c0) == Some(c) && c < |t| == |mem| && mem[c] == '[' && ReadArray(t, c).Some?
    ensures Follows(t, mem, c)
  {
    TokenAhead(t, mem, c0);
  }

  lemma ArrayEntered(t: string, mem: string, ns: Nodes, p: nat, bracket: nat, s: int, c: nat)
    requires ReadArray(t, bracket).Some? && Follows(t, mem, bracket)
    requires Token(mem, bracket + 1) == if s == 1 then Some(c) else None
    requires Arena(ns) && p < |ns| && ns[p].used == 0
    ensures s == 1 && c < |mem| && InArray(t, mem, mem, ns, ns, p, bracket, [], c, mem[c])
  {
    hide Arena, Done;
    TokenAhead(t, mem, bracket + 1);
    NothingDone(mem, ns, p);
    if mem[c] != ']' {
      assert [] + ReadElems(t, c, 0).value.0 == ReadElems(t, c, 0).value.0;
    }
  }

  lemma ArrayFinished(t: string, mem: string, b: string, ns0: Nodes, ns: Nodes, p: nat, bracket: nat, done: seq<Field>,
        c: nat)
    requires InArray(t, mem, b, ns0, ns, p, bracket, done, c, ']')
    ensures ReadArray(t, bracket) == Some((done, c + 1)) && KidsRead(mem, b, ns0, ns, p, done)
  {
    hide Arena, ReadArray, KidShapes;
  }

  /** The cap is not reached, and a value follows. */
  lemma ElemNext(t: string, mem: string, b: string, ns0: Nodes, ns: Nodes, p: nat, bracket: nat, done: seq<Field>,
        c: nat, delim: char)
    requires InArray(t, mem, b, ns0, ns, p, bracket, done, c, delim)
    ensures |done| < ELEM_CAP
    ensures delim != ']' ==> ValueAt(t, b, c, Elem(|done|))
  {
    hide Done, ReadArray, ReadValue;
  }

  lemma ElemAdded(t: string, mem: string, now: string, b: string, ns0: Nodes, mid: Nodes, ns: Nodes, p: nat,
        bracket: nat, done: seq<Field>, at: nat, was: char, behind: nat, delim: char, s: int, c: nat)
    requires InArray(t, mem, now, ns0, mid, p, bracket, done, at, was) && was != ']'
    requires ReadValue(t, at, Elem(|done|)).Some? &&
             var r := ReadValue(t, at, Elem(|done|)).value;
             ChildRead(t, now, b, mid, ns, p, r.0, EndsOf(r.0), r.1, behind, delim)
    requires delim == ',' ==> Token(b, behind + 1) == if s == 1 then Some(c) else None
    requires delim == ']' ==> s == 1 && c == behind
    ensures s == 1 && InArray(t, mem, b, ns0, ns, p, bracket, done + [ReadValue(t, at, Elem(|done|)).value.0], c, delim)
  {
    hide Arena, Done, ReadArray, ReadValue, SkipSpace, EndsOf, EndsOfKid;
    var r := ReadValue(t, at, Elem(|done|)).value;
    KeyKept(t, at, Elem(|done|));
    ElemKid(r.0);
    OneMoreDone(t, mem, now, b, ns0, mid, ns, p, done, r.0, EndsOf(r.0), r.1, behind, delim);
    ValueEnds(t, at, Elem(|done|));
    BlotFollows(t, now, EndsOf(r.0), at, at, behind + 1);
    if delim == ',' {
      TokenAhead(t, b, behind + 1);
      Onward(done, r.0, ReadElems(t, c, |done| + 1).value.0);
    }
  }

  // ---- Records ----

  /** The record's tree, read through the buffer, is what its text says. */
  ghost predicate RecordShown(t: string, c: nat, b: string, ns: Nodes) {
    && ReadObject(t, c).Some? && Arena(ns)
    && ShownAll(b, KidShapes(ns, 0)) == Sources(t, ReadObject(t, c).value.0)
  }

  lemma ShowRecord(t: string, mem: string, b: string, ns0: Nodes, ns: Nodes, c: nat)
    requires ReadObject(t, c).Some? && Follows(t, mem, c) && Clear(t, c, ReadObject(t, c).value.1)
    requires KidsRead(mem, b, ns0, ns, 0, ReadObject(t, c).value.0)
    ensures RecordShown(t, c, b, ns)
    ensures Follows(t, b, ReadObject(t, c).value.1)
  {
    hide Arena, KidShapes, ReadObject, EndsOfAll, PtrsOf, Sources, ShownAll;
    ObjectEnds(t, c);
    BlotFollows(t, mem, EndsOfAll(ReadObject(t, c).value.0), c, c, ReadObject(t, c).value.1);
    ObjectShown(t, b, c);
  }

  class JSONRecordNaiveParser {
    const buf: array<char>
    const tree: JSONBinTree

    constructor (buf: array<char>, tree: JSONBinTree)
      ensures this.buf == buf && this.tree == tree
    {
      this.buf, this.tree := buf, tree;
    }

    function Cur(c: nat): char
      reads buf
    {
      if c < buf.Length then buf[c] else NUL
    }

    lemma CurIs(c: nat)
      ensures Cur(c) == At(buf[..], c)
    {
    }

    function Left(c: nat): nat { if c < buf.Length then buf.Length - c else 0 }

    method SkipWhitespace(c0: nat) returns (s: int, c: nat)
      ensures c0 <= c && (s == 0 || s == 1)
      ensures Token(buf[..], c0) == if s == 1 then Some(c) else None
    {
      c := c0;
      if Cur(c) == NUL { return 0, c; }
      while IsSpace(Cur(c))
        invariant c0 <= c && SkipSpace(buf[..], c) == SkipSpace(buf[..], c0)
        decreases buf.Length - c
      {
        c := c + 1;
      }
      s := if Cur(c) == NUL then 0 else 1;
    }

    method SkipString(c0: nat) returns (s: int, c: nat)
      ensures c0 <= c
      ensures s == if Cur(c0) != '"' then -1 else if StringEnd(buf[..], c0 + 1).Some? then 1 else 0
      ensures s == 1 ==> StringEnd(buf[..], c0 + 1) == Some(c)
    {
      c := c0 + 1;
      if Cur(c0) != '"' { return -1, c; }
      var cont := true;
      while cont
        invariant c0 < c
        invariant cont ==> StringEnd(buf[..], c) == StringEnd(buf[..], c0 + 1)
        invariant !cont ==> c0 + 1 < c
        invariant !cont ==> StringEnd(buf[..], c0 + 1) == if Cur(c - 1) == NUL then None else Some(c)
        decreases cont, buf.Length - c
      {
        var ch := Cur(c);
        c := c + 1;
        if ch == NUL || ch == '"' {
          cont := false;
        } else if ch == '\\' {
          c := c + 1;
        }
      }
      if Cur(c - 1) == NUL { return 0, c - 1; }
      s := 1;
    }

    method SkipNumber(c0: nat) returns (s: int, c: nat)
      ensures c0 <= c && c == NumberEnd(buf[..], c0)
      ensures s == if Cur(c) == NUL then 0 else 1
    {
      c := c0;
      while true
        invariant c0 <= c && NumberEnd(buf[..], c) == NumberEnd(buf[..], c0)
        decreases buf.Length - c
      {
        if IsDigit(Cur(c)) {
          c := c + 1;
          continue;
        }
        var ch := Cur(c);
        c := c + 1;
        if ch == '+' || ch == '-' || ch == '.' || ch == 'e' || ch == 'E' { continue; }
        assert NumberEnd(buf[..], c - 1) == c - 1;
        break;
      }
      c := c - 1;
      s := if Cur(c) == NUL then 0 else 1;
    }

    method SkipChars(c0: nat, num: nat) returns (s: int, c: nat)
      ensures c0 <= c
      ensures s == 0 || s == 1
      ensures CharsEnd(buf[..], c0, num) == if s == 1 then Some(c) else None
    {
      c := c0;
      var skipped := 0;
      while skipped < num
        invariant skipped <= num && c == c0 + skipped
        invariant CharsEnd(buf[..], c, num - skipped) == CharsEnd(buf[..], c0, num)
      {
        if Cur(c) == NUL { break; }
        c := c + 1;
        skipped := skipped + 1;
      }
      s := if skipped == num then 1 else 0;
    }

    /** The cases of `parseValue` for tokens without structure. */
    method SkipPrimitive(ctype: nat, c0: nat) returns (s: int, c: nat)
      requires ctype == TypeOf(Cur(c0))
      ensures c0 <= c
      ensures PrimEnd(buf[..], c0, ctype).Some? ==> PrimEnd(buf[..], c0, ctype) == Some(c)
    {
      s, c := -1, c0;
      if ctype == STRING {
        s, c := SkipString(c0);
      } else if ctype == NUMBER {
        s, c := SkipNumber(c0);
      } else if ctype == FALSE {
        s, c := SkipChars(c0, 5);
      } else if ctype == TRUE || ctype == NULL {
        s, c := SkipChars(c0, 4);
      }
    }

    /** `parseValue`; `delim` is the character behind the value and its white space, read before the NUL. */
    method ParseValue(idx: nat, c0: nat, key: Pointer, ghost t: string, ghost k: Key)
      returns (s: int, c: nat, delim: char)
      requires tree.Valid() && idx < |tree.nodes| && Clean(tree.nodes, idx)
      modifies buf, tree
      ensures tree.Valid() && Grown(old(tree.nodes), tree.nodes, idx)
      ensures c0 <= c && (s > 0 ==> c < buf.Length)
      ensures ValueAt(t, old(buf[..]), c0, k) && key == KeyPtr(k) ==>
                var r := ReadValue(t, c0, k).value;
                s == 1 && ValueRead(t, old(buf[..]), buf[..], tree.nodes, idx, r.0, r.1, c, delim)
      decreases Left(c0), 2
    {
      hide Clean, Grown, Arena, ShapeOf, ReadValue, ValueAt, ValueRead;
      var ctype := TypeOf(Cur(c0));
      if ctype == OBJECT || ctype == ARRAY {
        s, c, delim := ParseStruct(idx, ctype, c0, key, t, k);
      } else {
        s, c, delim := ParsePrimitive(idx, ctype, c0, key, t, k);
      }
    }

    /** The cases of `parseValue` for objects and arrays. */
    method ParseStruct(idx: nat, ctype: nat, c0: nat, key: Pointer, ghost t: string, ghost k: Key)
      returns (s: int, c: nat, delim: char)
      requires tree.Valid() && idx < |tree.nodes| && Clean(tree.nodes, idx)
      requires ctype == TypeOf(Cur(c0)) && (ctype == OBJECT || ctype == ARRAY)
      modifies buf, tree
      ensures tree.Valid() && Grown(old(tree.nodes), tree.nodes, idx)
      ensures c0 <= c && (s > 0 ==> c < buf.Length)
      ensures ValueAt(t, old(buf[..]), c0, k) && key == KeyPtr(k) ==>
                var r := ReadValue(t, c0, k).value;
                s == 1 && ValueRead(t, old(buf[..]), buf[..], tree.nodes, idx, r.0, r.1, c, delim)
      decreases Left(c0), 1
    {
      hide Clean, Grown, Arena, ShapeOf, ReadValue, ReadObject, ReadArray, ValueAt, ValueRead, KidsRead, Blot, Under;
      ghost var before, mem := tree.nodes, buf[..];
      tree.Set(idx, ctype, key, Null);
      delim := NUL;
      SetFacts(before, idx, before[idx].(vtype := ctype, key := key, val := Null));
      ghost var mid := tree.nodes;
      if ctype == OBJECT {
        s, c := ParseObject(idx, c0, t);
      } else {
        s, c := ParseArray(idx, c0, t);
      }
      Itself(mid, idx);
      GrownTrans(before, mid, tree.nodes, idx, idx);
      ghost var e := c;
      ghost var now := buf[..];
      s, c := SkipWhitespace(c);
      if ValueAt(t, mem, c0, k) && key == KeyPtr(k) {
        CurIs(c0);
        StructRead(t, mem, now, tree.nodes, mid, idx, c0, k, ctype, e, buf[..], c, s);
      }
      if s <= 0 { return; }
      delim := Cur(c);
      s := 1;
    }

    method ParsePrimitive(idx: nat, ctype: nat, c0: nat, key: Pointer, ghost t: string, ghost k: Key)
      returns (s: int, c: nat, delim: char)
      requires tree.Valid() && idx < |tree.nodes| && Clean(tree.nodes, idx)
      requires ctype == TypeOf(Cur(c0)) && ctype != OBJECT && ctype != ARRAY
      modifies buf, tree
      ensures tree.Valid() && Grown(old(tree.nodes), tree.nodes, idx)
      ensures c0 <= c && (s > 0 ==> c < buf.Length)
      ensures ValueAt(t, old(buf[..]), c0, k) && key == KeyPtr(k) ==>
                var r := ReadValue(t, c0, k).value;
                s == 1 && ValueRead(t, old(buf[..]), buf[..], tree.nodes, idx, r.0, r.1, c, delim)
      decreases Left(c0), 0
    {
      hide Clean, Grown, Arena, ShapeOf, ReadValue, ValueAt, ValueRead, Under;
      ghost var before, mem := tree.nodes, buf[..];
      CleanItself(before, idx);
      assert before[idx := before[idx]] == before;
      SetFacts(before, idx, before[idx]);
      delim := NUL;
      s, c := SkipPrimitive(ctype, c0);
      var valend := c;
      s, c := SkipWhitespace(c);
      CurIs(c0);
      if ValueAt(t, mem, c0, k) {
        PrimitiveRead(t, mem, c0, k, ctype, valend, s, c);
      }
      if s <= 0 { return; }
      delim := Cur(c);
      if STRING <= ctype <= NULL {
        buf[valend] := NUL;
        tree.Set(idx, ctype, key, InText(c0));
        SetFacts(before, idx, before[idx].(vtype := ctype, key := key, val := InText(c0)));
        assert buf[..] == mem[valend := NUL];
        if ValueAt(t, mem, c0, k) && key == KeyPtr(k) {
          PrimitiveSet(t, mem, tree.nodes, idx, ctype, c0, k, valend, c);
        }
      }
      s := 1;
    }

    method ParseObject(idx: nat, c0: nat, ghost t: string) returns (s: int, c: nat)
      requires tree.Valid() && idx < |tree.nodes| && Clean(tree.nodes, idx)
      modifies buf, tree
      ensures tree.Valid() && Grown(old(tree.nodes), tree.nodes, idx)
      ensures c0 <= c
      ensures ObjectAt(t, old(buf[..]), c0) ==>
                var r := ReadObject(t, Token(t, c0).value).value;
                s == 1 && c == r.1 && KidsRead(old(buf[..]), buf[..], old(tree.nodes), tree.nodes, idx, r.0)
      decreases Left(c0), 0
    {
      hide Clean, Grown, Arena, KidShapes, ReadObject, ReadMember, ObjectAt, InObject, KidsRead, RestClean;
      ghost var before, mem := tree.nodes, buf[..];
      ghost var good := ObjectAt(t, mem, c0);
      Start(before, idx);
      s, c := SkipWhitespace(c0);
      if good { ObjectBegins(t, mem, c0, s, c); }
      if s <= 0 { return; }
      var delim := Cur(c);
      c := c + 1;
      if delim != '{' { return -1, c; }    // the original aborts
      ghost var brace := c - 1;
      s, c := SkipWhitespace(c);
      if good { ObjectEntered(t, mem, before, idx, brace, s, c); }
      if s <= 0 { return; }
      delim := Cur(c);
      ghost var done: seq<Field> := [];
      while true
        invariant c0 < c < buf.Length
        invariant tree.Valid() && Grown(before, tree.nodes, idx) && idx < |tree.nodes| && RestClean(tree.nodes, idx)
        invariant good ==> InObject(t, mem, buf[..], before, tree.nodes, idx, brace, done, c, delim)
        decreases buf.Length - c
      {
        if delim == '}' {
          if good { ObjectFinished(t, mem, buf[..], before, tree.nodes, idx, brace, done, c); }
          return 1, c + 1;
        }
        ghost var now, mid, at, was := buf[..], tree.nodes, c, delim;
        if good { MemberNext(t, mem, now, before, mid, idx, brace, done, c, delim); }
        s, c, delim := ParseMember(idx, c, t);
        StillGrown(before, mid, tree.nodes, idx);
        if s <= 0 { return; }
        ghost var behind := c;
        if delim == ',' {
          c := c + 1;
          s, c := SkipWhitespace(c);
        } else if delim != '}' {
          s := -1;
        }
        if good {
          MemberAdded(t, mem, now, buf[..], before, mid, tree.nodes, idx, brace, done, at, was, behind, delim, s, c);
          done := done + [ReadMember(t, at).value.0];
        }
        if s <= 0 { return; }
      }
    }

    /** One turn of the loop in `parseObject`: a key, its value and the node for them. */
    method ParseMember(idx: nat, c0: nat, ghost t: string) returns (s: int, c: nat, delim: char)
      requires tree.Valid() && idx < |tree.nodes| && RestClean(tree.nodes, idx)
      modifies buf, tree
      ensures tree.Valid() && Grown(old(tree.nodes), tree.nodes, idx) && RestClean(tree.nodes, idx)
      ensures c0 <= c && (s > 0 ==> c0 < c < buf.Length)
      ensures MemberAt(t, old(buf[..]), c0) ==>
                var r := ReadMember(t, c0).value;
                s == 1 && ChildRead(t, old(buf[..]), buf[..], old(tree.nodes), tree.nodes, idx, r.0, EndsOfKid(r.0),
                    r.1, c, delim)
      decreases Left(c0), 4
    {
      hide Clean, Grown, Arena, KidShapes, ReadMember, ReadValue, ChildRead, RestClean, SkipSpace, StringEnd, Follows,
           Blot;
      ghost var before, mem := tree.nodes, buf[..];
      ghost var end, colon, at := 0, 0, 0;
      if MemberAt(t, mem, c0) { end, colon, at := KeyRead(t, mem, c0); }
      Unchanged(before, idx);
      delim := NUL;
      s, c := SkipString(c0);
      var keyend := c;
      if s <= 0 { return; }
      s, c := SkipWhitespace(c);
      if s <= 0 { return; }
      delim := Cur(c);
      c := c + 1;
      if delim != ':' { return -1, c, delim; }
      buf[keyend] := NUL;
      assert buf[..] == mem[keyend := NUL];
      s, c := SkipWhitespace(c);
      if s <= 0 { return; }
      s, c, delim := ParseChild(idx, c, InText(c0), t, Quoted(Span(c0, keyend)));
      if MemberAt(t, mem, c0) {
        KeyKept(t, at, Quoted(Span(c0, end)));
        MemberParsed(t, mem, buf[..], before, tree.nodes, idx, ReadMember(t, c0).value.0, end,
            ReadMember(t, c0).value.1, c, delim);
      }
    }

    /** A child of node idx and its value. */
    method ParseChild(idx: nat, c0: nat, key: Pointer, ghost t: string, ghost k: Key)
      returns (s: int, c: nat, delim: char)
      requires tree.Valid() && idx < |tree.nodes| && RestClean(tree.nodes, idx)
      modifies buf, tree
      ensures tree.Valid() && Grown(old(tree.nodes), tree.nodes, idx) && RestClean(tree.nodes, idx)
      ensures c0 <= c && (s > 0 ==> c < buf.Length)
      ensures ValueAt(t, old(buf[..]), c0, k) && key == KeyPtr(k) ==>
                var r := ReadValue(t, c0, k).value;
                s == 1 && ChildRead(t, old(buf[..]), buf[..], old(tree.nodes), tree.nodes, idx, r.0, EndsOf(r.0), r.1,
                    c, delim)
      decreases Left(c0), 3
    {
      hide Clean, Grown, Arena, ShapeOf, ReadValue, ValueRead, ChildRead, RestClean, KidShapes, Taken;
      ghost var before, mem := tree.nodes, buf[..];
      Remaining(before, idx);
      var cidx := tree.GetNextChild(idx);
      ghost var mid := tree.nodes;
      IsTaken(before, mid, idx, cidx);
      s, c, delim := ParseValue(cidx, c0, key, t, k);
      ChildParsed(before, mid, tree.nodes, idx, cidx);
      if ValueAt(t, mem, c0, k) && key == KeyPtr(k) {
        ValueIsChild(t, mem, buf[..], before, tree.nodes, idx, cidx, ReadValue(t, c0, k).value.0,
            ReadValue(t, c0, k).value.1, c, delim);
      }
    }

    method ParseArray(idx: nat, c0: nat, ghost t: string) returns (s: int, c: nat)
      requires tree.Valid() && idx < |tree.nodes| && Clean(tree.nodes, idx)
      modifies buf, tree
      ensures tree.Valid() && Grown(old(tree.nodes), tree.nodes, idx)
      ensures c0 <= c
      ensures ArrayAt(t, old(buf[..]), c0) ==>
                var r := ReadArray(t, Token(t, c0).value).value;
                s == 1 && c == r.1 && KidsRead(old(buf[..]), buf[..], old(tree.nodes), tree.nodes, idx, r.0)
      decreases Left(c0), 0
    {
      hide Clean, Grown, Arena, KidShapes, ReadArray, ReadValue, ArrayAt, InArray, KidsRead, RestClean, ChildRead;
      ghost var before, mem := tree.nodes, buf[..];
      ghost var good := ArrayAt(t, mem, c0);
      Start(before, idx);
      s, c := SkipWhitespace(c0);
      if good { ArrayBegins(t, mem, c0, s, c); }
      if s <= 0 { return; }
      var delim := Cur(c);
      c := c + 1;
      if delim != '[' { return -1, c; }
      ghost var bracket := c - 1;
      s, c := SkipWhitespace(c);
      if good { ArrayEntered(t, mem, before, idx, bracket, s, c); }
      if s <= 0 { return; }
      delim := Cur(c);
      var ei := 0;
      ghost var done: seq<Field> := [];
      while true
        invariant c0 < c < buf.Length
        invariant tree.Valid() && Grown(before, tree.nodes, idx) && idx < |tree.nodes| && RestClean(tree.nodes, idx)
        invariant good ==> InArray(t, mem, buf[..], before, tree.nodes, idx, bracket, done, c, delim) && |done| == ei
        decreases buf.Length - c, if delim == ']' then 0 else 1
      {
        ghost var now, mid, at, was := buf[..], tree.nodes, c, delim;
        if good { ElemNext(t, mem, now, before, mid, idx, bracket, done, c, delim); }
        if ei >= ELEM_CAP { return -1, c; }    // the original aborts
        if delim == ']' {
          if good { ArrayFinished(t, mem, now, before, mid, idx, bracket, done, c); }
          return 1, c + 1;
        }
        s, c, delim := ParseChild(idx, c, IndexString(ei), t, Elem(ei));
        StillGrown(before, mid, tree.nodes, idx);
        if s <= 0 { return; }
        ghost var behind := c;
        if delim == ',' {
          c := c + 1;
          s, c := SkipWhitespace(c);
        } else if delim != ']' {
          s := -1;
        }
        if good {
          ElemAdded(t, mem, now, buf[..], before, mid, tree.nodes, idx, bracket, done, at, was, behind, delim, s, c);
          done := done + [ReadValue(t, at, Elem(ei)).value.0];
        }
        if s <= 0 { return; }
        ei := ei + 1;
      }
    }

    /** `parse`: one record, in an arena that was cleared.  Whatever earlier records left in the arena and
        in front of the record in the buffer, the tree shows exactly the keys and values of its text, and the
        text behind it is as it was. */
    method Parse(c0: nat, ghost t: string) returns (s: int, c: nat)
      requires tree.Valid() && Clean(tree.nodes, 0)
      modifies buf, tree
      ensures tree.Valid() && c0 <= c
      ensures ObjectAt(t, old(buf[..]), c0) ==>
                var bgn := Token(t, c0).value;
                var r := ReadObject(t, bgn).value;
                && s == 1 && c == r.1
                && (Clear(t, bgn, c) ==> RecordShown(t, bgn, buf[..], tree.nodes) && Follows(t, buf[..], c))
    {
      hide Clean, Grown, ReadObject, RecordShown, KidsRead, SkipSpace;
      ghost var mem, ns := buf[..], tree.nodes;
      s, c := ParseObject(0, c0, t);
      if ObjectAt(t, mem, c0) {
        var bgn := Token(t, c0).value;
        if Clear(t, bgn, c) {
          ShowRecord(t, mem, buf[..], ns, tree.nodes, bgn);
        }
      }
    }
  }
}
