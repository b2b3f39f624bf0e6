// JSON text as the parser reads it: where tokens begin and end, without any change to the text.

module JsonText {
  import opened Wrappers
  import opened JsonTrees

  const NUL := '\0'
  const ELEM_CAP := 4096    // s_elem_cap

  // ---- Characters ----

  /** Memory behind the text reads as NUL. */
  function At(t: string, c: nat): char { if c < |t| then t[c] else NUL }

  /** isspace of the C locale. */
  predicate IsSpace(ch: char) {
    ch == ' ' || ch == '\t' || ch == '\n' || ch == '\r' || ch == '\U{0B}' || ch == '\U{0C}'
  }

  predicate IsDigit(ch: char) { '0' <= ch <= '9' }

  predicate InNumber(ch: char) {
    IsDigit(ch) || ch == '+' || ch == '-' || ch == '.' || ch == 'e' || ch == 'E'
  }

  /** JSONType::type: the first character decides. */
  function TypeOf(ch: char): nat {
    match ch
    case '{' => OBJECT
    case '[' => ARRAY
    case '"' => STRING
    case 't' => TRUE
    case 'f' => FALSE
    case 'n' => NULL
    case _ => if IsDigit(ch) || ch == '-' then NUMBER else INVALID
  }

  // ---- Scanning ----

  function SkipSpace(t: string, c: nat): (e: nat)
    ensures c <= e
    decreases |t| - c
  {
    if c < |t| && IsSpace(t[c]) then SkipSpace(t, c + 1) else c
  }

  /** The next token's first character, unless the text is over. */
  function Token(t: string, c: nat): (e: Option<nat>)
    ensures e.Some? ==> c <= e.value < |t|
  {
    var e := SkipSpace(t, c);
    if At(t, e) == NUL then None else Some(e)
  }

  /** Behind the closing quote of a string whose inside begins at c. */
  function StringEnd(t: string, c: nat): (e: Option<nat>)
    ensures e.Some? ==> c < e.value <= |t|
    decreases |t| - c
  {
    if At(t, c) == NUL then None
    else if t[c] == '"' then Some(c + 1)
    else if t[c] == '\\' then StringEnd(t, c + 2)
    else StringEnd(t, c + 1)
  }

  function NumberEnd(t: string, c: nat): (e: nat)
    ensures c <= e && (c <= |t| ==> e <= |t|)
    decreases |t| - c
  {
    if c < |t| && InNumber(t[c]) then NumberEnd(t, c + 1) else c
  }

  /** n characters behind c, whatever they are. */
  function CharsEnd(t: string, c: nat, n: nat): (e: Option<nat>)
    ensures e.Some? ==> e.value == c + n && (n > 0 ==> e.value <= |t|)
    decreases n
  {
    if n == 0 then Some(c) else if At(t, c) == NUL then None else CharsEnd(t, c + 1, n - 1)
  }

  /** The end of a token without structure. */
  function PrimEnd(t: string, c: nat, ty: nat): (e: Option<nat>)
    ensures e.Some? ==> c < e.value <= |t|
  {
    if ty == STRING then StringEnd(t, c + 1)
    else if ty == NUMBER && c < |t| && InNumber(t[c]) then Some(NumberEnd(t, c + 1))
    else if ty == FALSE then CharsEnd(t, c, 5)
    else if ty == TRUE || ty == NULL then CharsEnd(t, c, 4)
    else None
  }

  // ---- Reading ----

  datatype Span = Span(bgn: nat, end: nat)

  datatype Key = Quoted(span: Span) | Elem(i: nat)

  datatype Field = Field(key: Key, vtype: nat, val: Option<Span>, kids: seq<Field>)

  /** A value, and where the character behind it and its white space is. */
  function ReadValue(t: string, c: nat, key: Key): (r: Option<(Field, nat)>)
    ensures r.Some? ==> c < r.value.1 < |t| && At(t, r.value.1) != NUL
    decreases |t| - c, 1
  {
    var ty := TypeOf(At(t, c));
    if ty == OBJECT then
      var kids :- ReadObject(t, c);
      var e :- Token(t, kids.1);
      Some((Field(key, ty, None, kids.0), e))
    else if ty == ARRAY then
      var kids :- ReadArray(t, c);
      var e :- Token(t, kids.1);
      Some((Field(key, ty, None, kids.0), e))
    else
      var end :- PrimEnd(t, c, ty);
      var e :- Token(t, end);
      Some((Field(key, ty, Some(Span(c, end)), []), e))
  }

  /** The members of an object whose brace is at c, and where its text is over. */
  function ReadObject(t: string, c: nat): (r: Option<(seq<Field>, nat)>)
    ensures r.Some? ==> c < r.value.1 <= |t|
    decreases |t| - c, 0
  {
    if At(t, c) != '{' then None
    else
      var e :- Token(t, c + 1);
      if t[e] == '}' then Some(([], e + 1)) else ReadMembers(t, e)
  }

  /** One member, from its key on. */
  function ReadMember(t: string, c: nat): (r: Option<(Field, nat)>)
    ensures r.Some? ==> c < r.value.1 < |t| && At(t, r.value.1) != NUL
    decreases |t| - c, 2
  {
    if At(t, c) != '"' then None
    else
      var end :- StringEnd(t, c + 1);
      var colon :- Token(t, end);
      if t[colon] != ':' then None
      else
        var at :- Token(t, colon + 1);
        ReadValue(t, at, Quoted(Span(c, end)))
  }

  function ReadMembers(t: string, c: nat): (r: Option<(seq<Field>, nat)>)
    ensures r.Some? ==> c < r.value.1 <= |t|
    decreases |t| - c, 3
  {
    var v :- ReadMember(t, c);
    if t[v.1] == '}' then Some(([v.0], v.1 + 1))
    else if t[v.1] == ',' then
      var next :- Token(t, v.1 + 1);
      var rest :- ReadMembers(t, next);
      Some(([v.0] + rest.0, rest.1))
    else None
  }

  /** The elements of an array whose bracket is at c.  The original asserts that their number stays below its cap. */
  function ReadArray(t: string, c: nat): (r: Option<(seq<Field>, nat)>)
    ensures r.Some? ==> c < r.value.1 <= |t|
    decreases |t| - c, 0
  {
    if At(t, c) != '[' then None
    else
      var e :- Token(t, c + 1);
      if t[e] == ']' then Some(([], e + 1)) else ReadElems(t, e, 0)
  }

  function ReadElems(t: string, c: nat, ei: nat): (r: Option<(seq<Field>, nat)>)
    ensures r.Some? ==> c < r.value.1 <= |t|
    decreases |t| - c, 2
  {
    if ei + 1 >= ELEM_CAP then None
    else
      var v :- ReadValue(t, c, Elem(ei));
      if t[v.1] == ']' then Some(([v.0], v.1 + 1))
      else if t[v.1] == ',' then
        var next :- Token(t, v.1 + 1);
        var rest :- ReadElems(t, next, ei + 1);
        Some(([v.0] + rest.0, rest.1))
      else None
  }

  // ---- Where NULs go ----

  /** Ends of the tokens of a value; of its key, only those of its members. */
  function EndsOf(f: Field): seq<nat>
    decreases f, 0
  {
    (if f.val.Some? then [f.val.value.end] else []) + EndsOfAll(f.kids)
  }

  function EndsOfKid(f: Field): seq<nat>
    decreases f, 1
  {
    (if f.key.Quoted? then [f.key.span.end] else []) + EndsOf(f)
  }

  function EndsOfAll(fs: seq<Field>): seq<nat>
    decreases fs, 0
  {
    if fs == [] then [] else EndsOfKid(fs[0]) + EndsOfAll(fs[1..])
  }

  /** The text with a NUL at each of the positions. */
  function Blot(t: string, ends: seq<nat>): (b: string)
    ensures |b| == |t|
  {
    seq(|t|, i requires 0 <= i < |t| => if i in ends then NUL else t[i])
  }

  lemma BlotTwice(t: string, a: seq<nat>, b: seq<nat>)
    ensures Blot(Blot(t, a), b) == Blot(t, a + b)
  {
    assert forall i :: i in a + b <==> i in a || i in b;
  }

  ghost predicate Between(ends: seq<nat>, lo: int, hi: int) {
    forall e :: e in ends ==> lo < e < hi
  }

  /** A value's tokens end behind its first character, at the latest where the next token begins. */
  lemma {:induction false} ValueEnds(t: string, c: nat, key: Key)
    ensures ReadValue(t, c, key).Some? ==>
              Between(EndsOf(ReadValue(t, c, key).value.0), c, ReadValue(t, c, key).value.1 + 1)
    decreases |t| - c, 1
  {
    if ReadValue(t, c, key).Some? {
      var ty := TypeOf(At(t, c));
      if ty == OBJECT {
        ObjectEnds(t, c);
      } else if ty == ARRAY {
        ArrayEnds(t, c);
      }
    }
  }

  lemma {:induction false} ObjectEnds(t: string, c: nat)
    ensures ReadObject(t, c).Some? ==> Between(EndsOfAll(ReadObject(t, c).value.0), c, ReadObject(t, c).value.1)
    decreases |t| - c, 0
  {
    if ReadObject(t, c).Some? {
      var e := Token(t, c + 1).value;
      if t[e] != '}' {
        MembersEnds(t, e);
      }
    }
  }

  lemma {:induction false} ArrayEnds(t: string, c: nat)
    ensures ReadArray(t, c).Some? ==> Between(EndsOfAll(ReadArray(t, c).value.0), c, ReadArray(t, c).value.1)
    decreases |t| - c, 0
  {
    if ReadArray(t, c).Some? {
      var e := Token(t, c + 1).value;
      if t[e] != ']' {
        ElemsEnds(t, e, 0);
      }
    }
  }

  lemma EndsOfOne(f: Field)
    ensures EndsOfAll([f]) == EndsOfKid(f)
  {
  }

  lemma EndsOfCons(f: Field, fs: seq<Field>)
    ensures EndsOfAll([f] + fs) == EndsOfKid(f) + EndsOfAll(fs)
  {
    assert ([f] + fs)[1..] == fs;
  }

  /** The end of the key comes in front of the value. */
  lemma {:induction false} MemberEnds(t: string, c: nat)
    ensures ReadMember(t, c).Some? ==> Between(EndsOfKid(ReadMember(t, c).value.0), c, ReadMember(t, c).value.1 + 1)
    decreases |t| - c, 2
  {
    if ReadMember(t, c).Some? {
      hide EndsOf, EndsOfAll, SkipSpace, StringEnd;
      var end := StringEnd(t, c + 1).value;
      var at := Token(t, Token(t, end).value + 1).value;
      KeyKept(t, at, Quoted(Span(c, end)));
      ValueEnds(t, at, Quoted(Span(c, end)));
    }
  }

  lemma KeyKept(t: string, c: nat, key: Key)
    ensures ReadValue(t, c, key).Some? ==> ReadValue(t, c, key).value.0.key == key
  {
  }

  lemma {:induction false} MembersEnds(t: string, c: nat)
    ensures ReadMembers(t, c).Some? ==> Between(EndsOfAll(ReadMembers(t, c).value.0), c, ReadMembers(t, c).value.1)
    decreases |t| - c, 3
  {
    if ReadMembers(t, c).Some? {
      hide EndsOfKid, EndsOfAll, SkipSpace, ReadMember;
      var v := ReadMember(t, c).value;
      MemberEnds(t, c);
      EndsOfOne(v.0);
      if t[v.1] == ',' {
        var next := Token(t, v.1 + 1).value;
        MembersEnds(t, next);
        EndsOfCons(v.0, ReadMembers(t, next).value.0);
      }
    }
  }

  lemma {:induction false} ElemsEnds(t: string, c: nat, ei: nat)
    ensures ReadElems(t, c, ei).Some? ==>
        Between(EndsOfAll(ReadElems(t, c, ei).value.0), c, ReadElems(t, c, ei).value.1)
    decreases |t| - c, 2
  {
    if ReadElems(t, c, ei).Some? {
      hide EndsOf, EndsOfAll, SkipSpace, ReadValue;
      var v := ReadValue(t, c, Elem(ei)).value;
      KeyKept(t, c, Elem(ei));
      ValueEnds(t, c, Elem(ei));
      EndsOfOne(v.0);
      if t[v.1] == ',' {
        var next := Token(t, v.1 + 1).value;
        ElemsEnds(t, next, ei + 1);
        EndsOfCons(v.0, ReadElems(t, next, ei + 1).value.0);
      }
    }
  }
}
