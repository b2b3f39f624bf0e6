// The tokens of a parsed text: what the pointers of the tree show in a text with a NUL behind every token.

module JsonTokens {
  import opened Wrappers
  import opened JsonTrees
  import opened JsonText

  // ---- What the source says ----

  datatype Name = Named(s: string) | Nth(i: nat)

  datatype Doc = Doc(key: Name, vtype: nat, val: Option<string>, kids: seq<Doc>)

  function Slice(t: string, s: Span): string {
    if s.bgn <= s.end <= |t| then t[s.bgn..s.end] else ""
  }

  function NameOf(t: string, key: Key): Name {
    match key
    case Quoted(s) => Named(Slice(t, s))
    case Elem(i) => Nth(i)
  }

  function ValOf(t: string, val: Option<Span>): Option<string> {
    if val.Some? then Some(Slice(t, val.value)) else None
  }

  /** Keys and values as they stand in the text. */
  function Source(t: string, f: Field): Doc
    decreases f, 1
  {
    Doc(NameOf(t, f.key), f.vtype, ValOf(t, f.val), Sources(t, f.kids))
  }

  function Sources(t: string, fs: seq<Field>): (ds: seq<Doc>)
    ensures |ds| == |fs|
    decreases fs, 0
  {
    if fs == [] then [] else [Source(t, fs[0])] + Sources(t, fs[1..])
  }

  // ---- What the tree shows ----

  /** A C string: up to the first NUL. */
  function CString(b: string, p: nat): string
    decreases |b| - p
  {
    if At(b, p) == NUL then "" else [b[p]] + CString(b, p + 1)
  }

  function ShownName(b: string, key: Pointer): Name {
    match key
    case Null => Named("")
    case InText(p) => Named(CString(b, p))
    case IndexString(i) => Nth(i)
  }

  function ShownVal(b: string, val: Pointer): Option<string> {
    if val.InText? then Some(CString(b, val.pos)) else None
  }

  function Shown(b: string, s: Shape): Doc
    decreases s, 1
  {
    Doc(ShownName(b, s.key), s.vtype, ShownVal(b, s.val), ShownAll(b, s.kids))
  }

  function ShownAll(b: string, ss: seq<Shape>): (ds: seq<Doc>)
    ensures |ds| == |ss|
    decreases ss, 0
  {
    if ss == [] then [] else [Shown(b, ss[0])] + ShownAll(b, ss[1..])
  }

  function KeyPtr(key: Key): Pointer {
    match key
    case Quoted(s) => InText(s.bgn)
    case Elem(i) => IndexString(i)
  }

  function ValPtr(val: Option<Span>): Pointer {
    if val.Some? then InText(val.value.bgn) else Null
  }

  /** The tree that the parser builds for a field. */
  function PtrOf(f: Field): Shape
    decreases f, 1
  {
    Shape(KeyPtr(f.key), ValPtr(f.val), f.vtype, PtrsOf(f.kids))
  }

  function PtrsOf(fs: seq<Field>): (ss: seq<Shape>)
    ensures |ss| == |fs|
    decreases fs, 0
  {
    if fs == [] then [] else [PtrOf(fs[0])] + PtrsOf(fs[1..])
  }

  // ---- Tokens survive ----

  /** No NUL in a range of the text. */
  ghost predicate Clear(t: string, lo: nat, hi: nat) {
    hi <= |t| && forall i :: lo <= i < hi ==> t[i] != NUL
  }

  /** In a range, b is the text with NULs at exactly the given positions. */
  ghost predicate Agree(b: string, t: string, ends: seq<nat>, lo: nat, hi: nat) {
    && |b| == |t| && hi <= |t|
    && forall i :: lo <= i < hi ==> b[i] == if i in ends then NUL else t[i]
  }

  lemma {:induction false} TokenShown(t: string, b: string, p: nat, end: nat)
    requires |b| == |t| && p <= end < |t| && b[end] == NUL
    requires forall i :: p <= i < end ==> b[i] == t[i] != NUL
    ensures CString(b, p) == t[p..end]
    decreases end - p
  {
    if p < end {
      TokenShown(t, b, p + 1, end);
      assert t[p..end] == [t[p]] + t[p + 1..end];
    }
  }

  /** Positions outside a range do not matter in it. */
  lemma Narrow(b: string, t: string, ends: seq<nat>, part: seq<nat>, lo: nat, hi: nat, l: nat, h: nat)
    requires Agree(b, t, ends, lo, hi) && lo <= l <= h <= hi
    requires forall e :: l <= e < h ==> (e in ends <==> e in part)
    ensures Agree(b, t, part, l, h)
  {
  }

  /** The body of a value: its own token, and its children. */
  ghost predicate BodyShown(t: string, b: string, f: Field) {
    ShownVal(b, ValPtr(f.val)) == ValOf(t, f.val) && ShownAll(b, PtrsOf(f.kids)) == Sources(t, f.kids)
  }

  lemma {:induction false} ValueShown(t: string, b: string, c: nat, key: Key)
    requires ReadValue(t, c, key).Some?
    requires var r := ReadValue(t, c, key).value;
             Clear(t, c, r.1) && Agree(b, t, EndsOf(r.0), c, r.1 + 1)
    ensures BodyShown(t, b, ReadValue(t, c, key).value.0)
    decreases |t| - c, 1
  {
    var r := ReadValue(t, c, key).value;
    var ty := TypeOf(At(t, c));
    if ty == OBJECT {
      ObjectShown(t, b, c);
    } else if ty == ARRAY {
      ArrayShown(t, b, c);
    } else {
      var end := r.0.val.value.end;
      assert EndsOf(r.0) == [end];
      TokenShown(t, b, c, end);
    }
  }

  lemma {:induction false} ObjectShown(t: string, b: string, c: nat)
    requires ReadObject(t, c).Some?
    requires var r := ReadObject(t, c).value;
             Clear(t, c, r.1) && Agree(b, t, EndsOfAll(r.0), c, r.1)
    ensures ShownAll(b, PtrsOf(ReadObject(t, c).value.0)) == Sources(t, ReadObject(t, c).value.0)
    decreases |t| - c, 0
  {
    var e := Token(t, c + 1).value;
    if t[e] != '}' {
      MembersShown(t, b, e);
    }
  }

  lemma {:induction false} ArrayShown(t: string, b: string, c: nat)
    requires ReadArray(t, c).Some?
    requires var r := ReadArray(t, c).value;
             Clear(t, c, r.1) && Agree(b, t, EndsOfAll(r.0), c, r.1)
    ensures ShownAll(b, PtrsOf(ReadArray(t, c).value.0)) == Sources(t, ReadArray(t, c).value.0)
    decreases |t| - c, 0
  {
    var e := Token(t, c + 1).value;
    if t[e] != ']' {
      ElemsShown(t, b, e, 0);
    }
  }

  lemma {:induction false} MemberShown(t: string, b: string, c: nat)
    requires ReadMember(t, c).Some?
    requires var r := ReadMember(t, c).value;
             Clear(t, c, r.1) && Agree(b, t, EndsOfKid(r.0), c, r.1 + 1)
    ensures Shown(b, PtrOf(ReadMember(t, c).value.0)) == Source(t, ReadMember(t, c).value.0)
    decreases |t| - c, 2
  {
    var r := ReadMember(t, c).value;
    var end := StringEnd(t, c + 1).value;
    var at := Token(t, Token(t, end).value + 1).value;
    var key := Quoted(Span(c, end));
    KeyKept(t, at, key);
    ValueEnds(t, at, key);
    hide EndsOf, ReadValue, PtrsOf, ShownAll, Sources, StringEnd, SkipSpace, CString;
    assert EndsOfKid(r.0) == [end] + EndsOf(r.0);
    Narrow(b, t, EndsOfKid(r.0), EndsOf(r.0), c, r.1 + 1, at, r.1 + 1);
    ValueShown(t, b, at, key);
    TokenShown(t, b, c, end);
  }

  lemma ShownCons(t: string, b: string, f: Field, rest: seq<Field>)
    requires Shown(b, PtrOf(f)) == Source(t, f) && ShownAll(b, PtrsOf(rest)) == Sources(t, rest)
    ensures ShownAll(b, PtrsOf([f] + rest)) == Sources(t, [f] + rest)
  {
    hide Shown, PtrOf, Source;
    assert ([f] + rest)[1..] == rest;
    assert PtrsOf([f] + rest)[1..] == PtrsOf(rest);
  }

  lemma ShownOne(t: string, b: string, f: Field)
    requires Shown(b, PtrOf(f)) == Source(t, f)
    ensures ShownAll(b, PtrsOf([f])) == Sources(t, [f])
  {
    hide Shown, PtrOf, Source;
    ShownCons(t, b, f, []);
    assert [f] + [] == [f];
  }

  lemma {:induction false} MembersShown(t: string, b: string, c: nat)
    requires ReadMembers(t, c).Some?
    requires var r := ReadMembers(t, c).value;
             Clear(t, c, r.1) && Agree(b, t, EndsOfAll(r.0), c, r.1)
    ensures ShownAll(b, PtrsOf(ReadMembers(t, c).value.0)) == Sources(t, ReadMembers(t, c).value.0)
    decreases |t| - c, 3
  {
    var r, v := ReadMembers(t, c).value, ReadMember(t, c).value;
    hide EndsOfKid, EndsOfAll, ReadMember, Shown, Source, PtrOf, SkipSpace, ShownAll, PtrsOf, Sources;
    MemberEnds(t, c);
    EndsOfOne(v.0);
    if t[v.1] == '}' {
      MemberShown(t, b, c);
      ShownOne(t, b, v.0);
    }
    if t[v.1] == ',' {
      var next := Token(t, v.1 + 1).value;
      var rest := ReadMembers(t, next).value;
      MembersEnds(t, next);
      EndsOfCons(v.0, rest.0);
      Narrow(b, t, EndsOfAll(r.0), EndsOfKid(v.0), c, r.1, c, v.1 + 1);
      Narrow(b, t, EndsOfAll(r.0), EndsOfAll(rest.0), c, r.1, next, r.1);
      MembersShown(t, b, next);
      MemberShown(t, b, c);
      ShownCons(t, b, v.0, rest.0);
    }
  }

  lemma {:induction false} ElemsShown(t: string, b: string, c: nat, ei: nat)
    requires ReadElems(t, c, ei).Some?
    requires var r := ReadElems(t, c, ei).value;
             Clear(t, c, r.1) && Agree(b, t, EndsOfAll(r.0), c, r.1)
    ensures ShownAll(b, PtrsOf(ReadElems(t, c, ei).value.0)) == Sources(t, ReadElems(t, c, ei).value.0)
    decreases |t| - c, 3
  {
    var r, v := ReadElems(t, c, ei).value, ReadValue(t, c, Elem(ei)).value;
    hide EndsOf, EndsOfKid, EndsOfAll, ReadValue, Shown, Source, PtrOf, SkipSpace, ShownAll, PtrsOf, Sources;
    KeyKept(t, c, Elem(ei));
    ElemKid(v.0);
    ValueEnds(t, c, Elem(ei));
    EndsOfOne(v.0);
    if t[v.1] == ']' {
      ElemShown(t, b, c, ei);
      ShownOne(t, b, v.0);
    }
    if t[v.1] == ',' {
      var next := Token(t, v.1 + 1).value;
      var rest := ReadElems(t, next, ei + 1).value;
      ElemsEnds(t, next, ei + 1);
      EndsOfCons(v.0, rest.0);
      Narrow(b, t, EndsOfAll(r.0), EndsOfKid(v.0), c, r.1, c, v.1 + 1);
      Narrow(b, t, EndsOfAll(r.0), EndsOfAll(rest.0), c, r.1, next, r.1);
      ElemsShown(t, b, next, ei + 1);
      ElemShown(t, b, c, ei);
      ShownCons(t, b, v.0, rest.0);
    }
  }

  lemma ElemKid(f: Field)
    requires f.key.Elem?
    ensures EndsOfKid(f) == EndsOf(f)
  {
    assert [] + EndsOf(f) == EndsOf(f);
  }

  lemma {:induction false} ElemShown(t: string, b: string, c: nat, ei: nat)
    requires ReadValue(t, c, Elem(ei)).Some?
    requires var r := ReadValue(t, c, Elem(ei)).value;
             Clear(t, c, r.1) && Agree(b, t, EndsOfKid(r.0), c, r.1 + 1)
    ensures Shown(b, PtrOf(ReadValue(t, c, Elem(ei)).value.0)) == Source(t, ReadValue(t, c, Elem(ei)).value.0)
    decreases |t| - c, 2
  {
    hide ReadValue, PtrsOf, ShownAll, Sources, CString, EndsOf, EndsOfKid;
    var r := ReadValue(t, c, Elem(ei)).value;
    KeyKept(t, c, Elem(ei));
    ElemKid(r.0);
    ValueShown(t, b, c, Elem(ei));
  }

  /** Whatever NULs the parser writes into an accepted text, none of them destroys a token: the finished
      tree shows exactly the keys and values of the source. */
  lemma TokensIntact(t: string, c: nat)
    requires ReadObject(t, c).Some? && Clear(t, c, ReadObject(t, c).value.1)
    ensures var fs := ReadObject(t, c).value.0;
            ShownAll(Blot(t, EndsOfAll(fs)), PtrsOf(fs)) == Sources(t, fs)
  {
    ObjectShown(t, Blot(t, EndsOfAll(ReadObject(t, c).value.0)), c);
  }
}
