// JSON text as it is written, with any white space between its tokens; the parser reads it back.

module JsonPrint {
  import opened Wrappers
  import opened JsonTrees
  import opened JsonText
  import opened JsonTokens
  import opened JsonParser

  // ---- Text of a value ----

  /** A value with the white space inside it. */
  datatype Syntax =
    | Tok(tok: string)
    | Object(lead: string, members: seq<Part>)
    | Array(lead: string, elems: seq<Part>)

  /** A member, or an element, whose name is not written.  White space w1 and w2 is around the colon, w3
      behind the value, and w4 behind the comma, which the last part does not have. */
  datatype Part = Part(name: string, w1: string, w2: string, val: Syntax, w3: string, w4: string)

  function Text(s: Syntax): string
    decreases s, 1
  {
    match s
    case Tok(tok) => tok
    case Object(lead, ms) => "{" + (lead + (Parts(ms, true) + "}"))
    case Array(lead, es) => "[" + (lead + (Parts(es, false) + "]"))
  }

  function Parts(ps: seq<Part>, named: bool): string
    decreases ps, 0
  {
    if ps == [] then ""
    else PartText(ps[0], named) + (if |ps| == 1 then "" else "," + (ps[0].w4 + Parts(ps[1..], named)))
  }

  function PartText(p: Part, named: bool): string
    decreases p, 2
  {
    (if named then p.name + (p.w1 + (":" + p.w2)) else "") + (Text(p.val) + p.w3)
  }

  // ---- What may be written ----

  /** Space, tab, line feed, vertical tab, form feed and carriage return. */
  const BLANKS := " \t\n\U{0B}\U{0C}\r"

  ghost predicate Space(w: string) { forall i :: 0 <= i < |w| ==> w[i] in BLANKS }

  /** The inside of a string with its closing quote: no bare quote, and a character behind every backslash. */
  predicate StringRest(s: string) {
    if s == [] then false
    else if s[0] == '"' then |s| == 1
    else if s[0] == '\\' then |s| >= 2 && s[1] != NUL && StringRest(s[2..])
    else s[0] != NUL && StringRest(s[1..])
  }

  predicate StringToken(s: string) { |s| >= 2 && s[0] == '"' && StringRest(s[1..]) }

  const DIGITS := "0123456789"

  predicate NumberToken(s: string) {
    s != [] && s[0] in DIGITS + "-" && forall i :: 0 <= i < |s| ==> s[i] in DIGITS + "+-.eE"
  }

  ghost predicate TokenOk(s: string) {
    StringToken(s) || NumberToken(s) || s == "true" || s == "false" || s == "null"
  }

  ghost predicate Proper(s: Syntax)
    decreases s, 1
  {
    match s
    case Tok(tok) => TokenOk(tok)
    case Object(lead, ms) => Space(lead) && AllProper(ms, true)
    case Array(lead, es) => Space(lead) && AllProper(es, false)
  }

  /** No array has as many elements as the parser's cap. */
  ghost predicate Small(s: Syntax)
    decreases s, 1
  {
    match s
    case Tok(_) => true
    case Object(_, ms) => AllSmall(ms)
    case Array(_, es) => |es| < 4096 && AllSmall(es)
  }

  ghost predicate AllSmall(ps: seq<Part>)
    decreases ps, 0
  {
    ps != [] ==> PartSmall(ps[0]) && AllSmall(ps[1..])
  }

  ghost predicate PartSmall(p: Part)
    decreases p, 2
  {
    Small(p.val)
  }

  ghost predicate AllProper(ps: seq<Part>, named: bool)
    decreases ps, 0
  {
    ps != [] ==> PartProper(ps[0], named) && AllProper(ps[1..], named)
  }

  ghost predicate PartProper(p: Part, named: bool)
    decreases p, 2
  {
    && Space(p.w1) && Space(p.w2) && Space(p.w3) && Space(p.w4)
    && (named ==> StringToken(p.name)) && Proper(p.val)
  }

  /** The JSON type of a token as it is written. */
  function TokenType(tok: string): nat {
    if StringToken(tok) then STRING
    else if NumberToken(tok) then NUMBER
    else if tok == "true" then TRUE
    else if tok == "false" then FALSE
    else if tok == "null" then NULL
    else INVALID
  }

  /** The value's keys, types and tokens. */
  function DocOf(name: Name, s: Syntax): Doc
    decreases s, 1
  {
    match s
    case Tok(tok) => Doc(name, TokenType(tok), Some(tok), [])
    case Object(_, ms) => Doc(name, OBJECT, None, DocsOf(ms, true, 0))
    case Array(_, es) => Doc(name, ARRAY, None, DocsOf(es, false, 0))
  }

  function DocsOf(ps: seq<Part>, named: bool, i: nat): seq<Doc>
    decreases ps, 0
  {
    if ps == [] then []
    else [DocOf(if named then Named(ps[0].name) else Nth(i), ps[0].val)] + DocsOf(ps[1..], named, i + 1)
  }

  // ---- Text at a position ----

  ghost predicate Is(t: string, c: nat, x: string) {
    c + |x| <= |t| && t[c..c + |x|] == x
  }

  lemma IsConcat(t: string, c: nat, x: string, y: string)
    ensures Is(t, c, x + y) <==> Is(t, c, x) && Is(t, c + |x|, y)
  {
    if Is(t, c, x + y) {
      assert t[c..c + |x|] == (x + y)[..|x|];
      assert t[c + |x|..c + |x| + |y|] == (x + y)[|x|..];
    }
    if Is(t, c, x) && Is(t, c + |x|, y) {
      assert t[c..c + |x + y|] == t[c..c + |x|] + t[c + |x|..c + |x| + |y|];
    }
  }

  lemma IsAt(t: string, c: nat, x: string, i: nat)
    requires Is(t, c, x) && i < |x|
    ensures c + i < |t| && t[c + i] == x[i]
  {
    assert t[c..c + |x|][i] == x[i];
  }

  lemma {:induction false} SpaceSkipped(t: string, c: nat, w: string)
    requires Is(t, c, w) && Space(w) && c + |w| < |t| && !IsSpace(t[c + |w|]) && t[c + |w|] != NUL
    ensures Token(t, c) == Some(c + |w|)
    decreases |w|
  {
    if w != [] {
      IsAt(t, c, w, 0);
      assert t[c + 1..c + |w|] == w[1..];
      SpaceSkipped(t, c + 1, w[1..]);
    }
  }

  lemma {:induction false} StringScanned(t: string, c: nat, s: string)
    requires Is(t, c, s) && StringRest(s)
    ensures StringEnd(t, c) == Some(c + |s|)
    decreases |s|
  {
    IsAt(t, c, s, 0);
    if s[0] == '\\' {
      assert t[c + 2..c + |s|] == s[2..];
      StringScanned(t, c + 2, s[2..]);
    } else if s[0] != '"' {
      assert t[c + 1..c + |s|] == s[1..];
      StringScanned(t, c + 1, s[1..]);
    }
  }

  lemma {:induction false} NumberScanned(t: string, c: nat, s: string)
    requires Is(t, c, s) && (forall i :: 0 <= i < |s| ==> InNumber(s[i]))
    requires c + |s| < |t| && !InNumber(t[c + |s|])
    ensures NumberEnd(t, c) == c + |s|
    decreases |s|
  {
    if s != [] {
      IsAt(t, c, s, 0);
      assert t[c + 1..c + |s|] == s[1..];
      NumberScanned(t, c + 1, s[1..]);
    }
  }

  lemma {:induction false} CharsScanned(t: string, c: nat, s: string)
    requires Is(t, c, s) && forall i :: 0 <= i < |s| ==> s[i] != NUL
    ensures CharsEnd(t, c, |s|) == Some(c + |s|)
    decreases |s|
  {
    if s != [] {
      IsAt(t, c, s, 0);
      assert t[c + 1..c + |s|] == s[1..];
      CharsScanned(t, c + 1, s[1..]);
    }
  }

  /** What may stand behind a value. */
  predicate Delim(ch: char) { ch == ',' || ch == '}' || ch == ']' }

  /** The first character tells what a token is. */
  lemma TokenTyped(tok: string)
    requires TokenOk(tok)
    ensures tok != [] && STRING <= TypeOf(tok[0]) <= NULL && TypeOf(tok[0]) == TokenType(tok)
    ensures StringToken(tok) <==> TokenType(tok) == STRING
    ensures NumberToken(tok) <==> TokenType(tok) == NUMBER
    ensures tok == "true" <==> TokenType(tok) == TRUE
    ensures tok == "false" <==> TokenType(tok) == FALSE
    ensures tok == "null" <==> TokenType(tok) == NULL
  {
    hide StringRest;
  }

  /** What the scanner skips in front of a token: all the blanks and nothing else. */
  lemma {:induction false} TokenExact(t: string, c: nat)
    ensures Token(t, c).Some? ==>
              var e := Token(t, c).value;
              (forall i :: c <= i < e ==> t[i] in BLANKS) && t[e] !in BLANKS && t[e] != NUL
    ensures Token(t, c).None? ==>
              forall e :: c <= e < |t| && (forall i :: c <= i < e ==> t[i] in BLANKS) ==> t[e] in BLANKS || t[e] == NUL
    decreases |t| - c
  {
    if c < |t| && IsSpace(t[c]) {
      TokenExact(t, c + 1);
    }
  }

  /** Where a number ends: behind all characters that can be in one. */
  lemma {:induction false} NumberExact(t: string, c: nat)
    requires c <= |t|
    ensures var e := NumberEnd(t, c);
            (forall i :: c <= i < e ==> t[i] in DIGITS + "+-.eE") && (e < |t| ==> t[e] !in DIGITS + "+-.eE")
    decreases |t| - c
  {
    if c < |t| && InNumber(t[c]) { NumberExact(t, c + 1); }
  }

  /** A value begins with one of these characters. */
  lemma ValueBegins(t: string, c: nat, key: Key)
    requires ReadValue(t, c, key).Some?
    ensures c < |t| && t[c] in "{[\"tfn-" + DIGITS
  {
    hide ReadObject, ReadArray, StringEnd, NumberEnd, CharsEnd, Token;
  }

  /** Any token is read to its end. */
  lemma TokenScanned(t: string, c: nat, tok: string)
    requires Is(t, c, tok) && TokenOk(tok) && c + |tok| < |t| && !InNumber(t[c + |tok|])
    ensures STRING <= TypeOf(At(t, c)) <= NULL && TypeOf(At(t, c)) == TokenType(tok)
    ensures PrimEnd(t, c, TypeOf(At(t, c))) == Some(c + |tok|)
  {
    IsAt(t, c, tok, 0);
    TokenTyped(tok);
    hide TypeOf, TokenType;
    assert t[c + 1..c + |tok|] == tok[1..];
    if StringToken(tok) {
      StringScanned(t, c + 1, tok[1..]);
    } else if NumberToken(tok) {
      NumberScanned(t, c + 1, tok[1..]);
    } else {
      CharsScanned(t, c, tok);
    }
  }

  // ---- Reading what was written ----

  /** Text x at c is followed by a delimiter. */
  ghost predicate Ends(t: string, c: nat, x: string) {
    Is(t, c, x) && c + |x| < |t| && Delim(t[c + |x|])
  }

  ghost predicate ValueBack(t: string, c: nat, key: Key, s: Syntax, len: nat) {
    && (ReadValue(t, c, key).Some? <==> Small(s))
    && (Small(s) ==>
          var r := ReadValue(t, c, key).value;
          r.1 == c + len && Source(t, r.0) == DocOf(NameOf(t, key), s))
  }

  ghost predicate MemberBack(t: string, c: nat, p: Part) {
    && (ReadMember(t, c).Some? <==> PartSmall(p))
    && (PartSmall(p) ==>
          var r := ReadMember(t, c).value;
          r.1 == c + |PartText(p, true)| && Source(t, r.0) == DocOf(Named(p.name), p.val))
  }

  /** Members from c on, or elements from the i-th on. */
  ghost predicate PartsBack(t: string, r: Option<(seq<Field>, nat)>, ps: seq<Part>, named: bool, i: nat, end: nat) {
    && (r.Some? <==> AllSmall(ps) && (named || i + |ps| < ELEM_CAP))
    && (r.Some? ==> r.value.1 == end && Sources(t, r.value.0) == DocsOf(ps, named, i))
  }

  /** A value without structure. */
  lemma TokPrinted(t: string, c: nat, key: Key, tok: string, w: string)
    requires TokenOk(tok) && Space(w) && Ends(t, c, tok + w)
    ensures ValueBack(t, c, key, Tok(tok), |tok + w|)
  {
    hide TokenOk, PrimEnd;
    IsConcat(t, c, tok, w);
    NextAfter(t, c + |tok|, w);
    TokenFirst(tok);
    TokenScanned(t, c, tok);
    SpaceSkipped(t, c + |tok|, w);
    var r := ReadValue(t, c, key).value;
    assert r.0 == Field(key, TypeOf(At(t, c)), Some(Span(c, c + |tok|)), []);
    assert t[c..c + |tok|] == tok;
  }

  lemma TokenFirst(tok: string)
    requires TokenOk(tok)
    ensures tok != []
  {
  }

  /** Behind white space and in front of a delimiter no number goes on. */
  lemma NextAfter(t: string, c: nat, w: string)
    requires Is(t, c, w) && Space(w) && c + |w| < |t| && Delim(t[c + |w|])
    ensures c < |t| && !InNumber(t[c])
  {
    if w != [] {
      IsAt(t, c, w, 0);
    }
  }

  lemma {:induction false} ValuePrinted(t: string, c: nat, key: Key, s: Syntax, w: string)
    requires Proper(s) && Space(w) && Ends(t, c, Text(s) + w)
    ensures ValueBack(t, c, key, s, |Text(s) + w|)
    decreases s, 1
  {
    hide ReadObject, ReadArray, ReadValue, SkipSpace, PartsBack, ValueBack, TokenOk, Parts, Is;
    match s
    case Tok(tok) =>
      TokPrinted(t, c, key, tok, w);
    case Object(lead, ms) =>
      IsConcat(t, c, Text(s), w);
      ObjectPrinted(t, c, lead, ms);
      BehindStruct(t, c, s, w);
      StructBack(t, c, key, s, w);
    case Array(lead, es) =>
      IsConcat(t, c, Text(s), w);
      ArrayPrinted(t, c, lead, es);
      BehindStruct(t, c, s, w);
      StructBack(t, c, key, s, w);
  }

  lemma BehindStruct(t: string, c: nat, s: Syntax, w: string)
    requires Space(w) && Ends(t, c, Text(s) + w) && !s.Tok?
    ensures At(t, c) == if s.Object? then '{' else '['
    ensures Token(t, c + |Text(s)|) == Some(c + |Text(s) + w|)
  {
    IsConcat(t, c, Text(s), w);
    IsAt(t, c, Text(s), 0);
    hide Text;
    SpaceSkipped(t, c + |Text(s)|, w);
  }

  lemma StructBack(t: string, c: nat, key: Key, s: Syntax, w: string)
    requires s.Object? ==> PartsBack(t, ReadObject(t, c), s.members, true, 0, c + |Text(s)|)
    requires s.Array? ==> PartsBack(t, ReadArray(t, c), s.elems, false, 0, c + |Text(s)|)
    requires !s.Tok? && At(t, c) == if s.Object? then '{' else '['
    requires Token(t, c + |Text(s)|) == Some(c + |Text(s) + w|)
    ensures ValueBack(t, c, key, s, |Text(s) + w|)
  {
    hide ReadObject, ReadArray, Text, SkipSpace, Sources, DocsOf, AllSmall, NameOf;
  }

  /** Text between brackets. */
  function Bracketed(open: string, lead: string, ps: seq<Part>, named: bool, close: string): string {
    open + (lead + (Parts(ps, named) + close))
  }

  /** Where the first part of a structure begins, or the structure ends. */
  lemma StructCut(t: string, c: nat, open: string, lead: string, ps: seq<Part>, named: bool, close: string)
    requires |open| == |close| == 1 && (close == "}" || close == "]") && Space(lead) && AllProper(ps, named)
    requires Is(t, c, Bracketed(open, lead, ps, named, close))
    ensures var at := c + 1 + |lead|;
            && c < at < |t| && t[c] == open[0] && Token(t, c + 1) == Some(at)
            && (t[at] == close[0] <==> ps == []) && Is(t, at, Parts(ps, named) + close)
            && at + |Parts(ps, named) + close| == c + |Bracketed(open, lead, ps, named, close)|
  {
    hide Is, SkipSpace, Parts, AllProper;
    var body := Parts(ps, named) + close;
    var at := c + 1 + |lead|;
    IsConcat(t, c, open, lead + body);
    IsAt(t, c, open, 0);
    IsConcat(t, c + 1, lead, body);
    IsAt(t, at, body, 0);
    NoParts(named);
    if ps != [] { PartsBegin(ps, named); }
    SpaceSkipped(t, c + 1, lead);
  }

  lemma NoParts(named: bool)
    ensures Parts([], named) == ""
  {
  }

  lemma {:induction false} ObjectPrinted(t: string, c: nat, lead: string, ms: seq<Part>)
    requires Space(lead) && AllProper(ms, true) && Is(t, c, Text(Object(lead, ms)))
    ensures PartsBack(t, ReadObject(t, c), ms, true, 0, c + |Text(Object(lead, ms))|)
    decreases ms, 3
  {
    hide Is, SkipSpace, Parts, PartsBack, ReadMembers, Space, AllProper;
    StructCut(t, c, "{", lead, ms, true, "}");
    if ms == [] {
      EmptyBack(t, true, c + |Text(Object(lead, ms))|);
      NoParts(true);
    } else {
      MembersPrinted(t, c + 1 + |lead|, ms, 0);
    }
  }

  lemma EmptyBack(t: string, named: bool, end: nat)
    ensures PartsBack(t, Some(([], end)), [], named, 0, end)
  {
  }

  lemma {:induction false} ArrayPrinted(t: string, c: nat, lead: string, es: seq<Part>)
    requires Space(lead) && AllProper(es, false) && Is(t, c, Text(Array(lead, es)))
    ensures PartsBack(t, ReadArray(t, c), es, false, 0, c + |Text(Array(lead, es))|)
    decreases es, 3
  {
    hide Is, SkipSpace, Parts, PartsBack, ReadElems, Space, AllProper;
    StructCut(t, c, "[", lead, es, false, "]");
    if es == [] {
      EmptyBack(t, false, c + |Text(Array(lead, es))|);
      NoParts(false);
    } else {
      ElemsPrinted(t, c + 1 + |lead|, es, 0);
    }
  }

  /** Parts begin with a token. */
  lemma PartsBegin(ps: seq<Part>, named: bool)
    requires ps != [] && AllProper(ps, named)
    ensures Parts(ps, named) != []
    ensures var ch := Parts(ps, named)[0]; !IsSpace(ch) && ch != NUL && ch != '}' && ch != ']'
  {
    hide TokenOk;
    var p := ps[0];
    assert PartProper(p, named);
    if !named { TextBegins(p.val); }
    assert PartText(p, named) <= Parts(ps, named);
  }

  lemma TextBegins(s: Syntax)
    requires Proper(s)
    ensures Text(s) != [] && TypeOf(Text(s)[0]) != INVALID
  {
  }

  lemma MemberText(p: Part)
    ensures PartText(p, true) == p.name + (p.w1 + (":" + p.w2)) + (Text(p.val) + p.w3)
  {
  }

  /** Where the parts of a member are. */
  lemma MemberCut(t: string, c: nat, p: Part) returns (end: nat, colon: nat, at: nat)
    requires PartProper(p, true) && Ends(t, c, PartText(p, true))
    ensures end == c + |p.name| && Slice(t, Span(c, end)) == p.name
    ensures At(t, c) == '"' && StringEnd(t, c + 1) == Some(end)
    ensures Token(t, end) == Some(colon) && t[colon] == ':' && Token(t, colon + 1) == Some(at)
    ensures Ends(t, at, Text(p.val) + p.w3) && at + |Text(p.val) + p.w3| == c + |PartText(p, true)|
  {
    hide Is, Text, PartText, Proper, StringToken, StringEnd, SkipSpace, TypeOf, Slice;
    MemberText(p);
    TextBegins(p.val);
    var front, value := p.name + (p.w1 + (":" + p.w2)), Text(p.val) + p.w3;
    end := c + |p.name|;
    colon := end + |p.w1|;
    at := colon + 1 + |p.w2|;
    IsConcat(t, c, front, value);
    IsConcat(t, c, p.name, p.w1 + (":" + p.w2));
    IsConcat(t, end, p.w1, ":" + p.w2);
    IsConcat(t, colon, ":", p.w2);
    NamePrinted(t, c, p.name);
    IsAt(t, colon, ":", 0);
    SpaceSkipped(t, end, p.w1);
    IsAt(t, at, value, 0);
    NotSpaceType(value[0]);
    SpaceSkipped(t, colon + 1, p.w2);
  }

  lemma NotSpaceType(ch: char)
    ensures TypeOf(ch) != INVALID ==> !IsSpace(ch) && ch != NUL && ch != '}' && ch != ']'
  {
  }

  lemma {:induction false} MemberPrinted(t: string, c: nat, p: Part)
    requires PartProper(p, true) && Ends(t, c, PartText(p, true))
    ensures MemberBack(t, c, p)
    decreases p, 2
  {
    hide Ends, StringEnd, SkipSpace, ReadValue, Source, DocOf, Small, Text, PartText, Proper, Slice, StringToken;
    var end, colon, at := MemberCut(t, c, p);
    ValuePrinted(t, at, Quoted(Span(c, end)), p.val, p.w3);
    assert ReadMember(t, c) == ReadValue(t, at, Quoted(Span(c, end)));
  }

  lemma NamePrinted(t: string, c: nat, name: string)
    requires Is(t, c, name) && StringToken(name)
    ensures At(t, c) == '"' && StringEnd(t, c + 1) == Some(c + |name|) && Slice(t, Span(c, c + |name|)) == name
  {
    IsAt(t, c, name, 0);
    assert t[c + 1..c + |name|] == name[1..];
    StringScanned(t, c + 1, name[1..]);
  }

  lemma PartsText(ps: seq<Part>, named: bool, close: string)
    requires ps != []
    ensures |ps| == 1 ==> Parts(ps, named) + close == PartText(ps[0], named) + close
    ensures |ps| > 1 ==>
              Parts(ps, named) + close == PartText(ps[0], named) + ("," + (ps[0].w4 + (Parts(ps[1..], named) + close)))
  {
    hide PartText;
    if |ps| > 1 {
      var h, w, r := PartText(ps[0], named), ps[0].w4, Parts(ps[1..], named);
      assert Parts(ps, named) == h + ("," + (w + r));
      assert h + ("," + (w + r)) + close == h + ("," + (w + (r + close)));
    }
  }

  lemma ProperRest(ps: seq<Part>, named: bool)
    requires ps != [] && AllProper(ps, named)
    ensures PartProper(ps[0], named) && AllProper(ps[1..], named)
  {
  }

  /** Where the first part ends. */
  lemma PartsCut(t: string, c: nat, ps: seq<Part>, named: bool, close: string)
    requires ps != [] && AllProper(ps, named) && Is(t, c, Parts(ps, named) + close) && |close| == 1 && Delim(close[0])
    ensures Ends(t, c, PartText(ps[0], named))
    ensures |ps| == 1 ==> FirstOnly(t, c, ps, named, close)
    ensures |ps| > 1 ==> FirstOfMany(t, c, ps, named, close, c + |PartText(ps[0], named)| + 1 + |ps[0].w4|)
  {
    hide Is, PartText, PartProper, Parts, SkipSpace, AllProper;
    PartsText(ps, named, close);
    ProperRest(ps, named);
    var head := PartText(ps[0], named);
    var e := c + |head|;
    if |ps| == 1 {
      IsConcat(t, c, head, close);
      IsAt(t, e, close, 0);
    } else {
      var w, rest := ps[0].w4, Parts(ps[1..], named) + close;
      IsConcat(t, c, head, "," + (w + rest));
      IsConcat(t, e, ",", w + rest);
      IsAt(t, e, ",", 0);
      IsConcat(t, e + 1, w, rest);
      PartsBegin(ps[1..], named);
      IsAt(t, e + 1 + |w|, rest, 0);
      SpaceBehind(ps[0], named);
      SpaceSkipped(t, e + 1, w);
    }
  }

  lemma SpaceBehind(p: Part, named: bool)
    requires PartProper(p, named)
    ensures Space(p.w3) && Space(p.w4) && Proper(p.val)
  {
  }

  /** A single part, and the closing character. */
  ghost predicate FirstOnly(t: string, c: nat, ps: seq<Part>, named: bool, close: string)
    requires |ps| == 1 && |close| == 1
  {
    var e := c + |PartText(ps[0], named)|;
    e < |t| && t[e] == close[0] && e + 1 == c + |Parts(ps, named) + close|
  }

  /** A part, a comma, and from `next` on the others. */
  ghost predicate FirstOfMany(t: string, c: nat, ps: seq<Part>, named: bool, close: string, next: nat)
    requires |ps| > 1
  {
    var e := c + |PartText(ps[0], named)|;
    && e < |t| && t[e] == ',' && Token(t, e + 1) == Some(next) && Is(t, next, Parts(ps[1..], named) + close)
    && next + |Parts(ps[1..], named) + close| == c + |Parts(ps, named) + close|
  }

  lemma {:induction false} MembersPrinted(t: string, c: nat, ps: seq<Part>, i: nat)
    requires ps != [] && AllProper(ps, true) && Is(t, c, Parts(ps, true) + "}")
    ensures PartsBack(t, ReadMembers(t, c), ps, true, i, c + |Parts(ps, true) + "}"|)
    decreases ps, 2
  {
    hide ReadMembers, PartText, Parts, PartsBack, MemberBack, Ends, PartProper;
    PartsCut(t, c, ps, true, "}");
    MemberPrinted(t, c, ps[0]);
    if |ps| > 1 {
      var next := c + |PartText(ps[0], true)| + 1 + |ps[0].w4|;
      MembersPrinted(t, next, ps[1..], i + 1);
      MembersOn(t, c, ps, i, next);
    } else {
      LastMember(t, c, ps, i);
    }
  }

  lemma SmallOne(ps: seq<Part>)
    requires |ps| == 1
    ensures AllSmall(ps) <==> PartSmall(ps[0])
  {
    assert ps[1..] == [];
  }

  lemma SourcesOne(t: string, f: Field)
    ensures Sources(t, [f]) == [Source(t, f)]
  {
    assert [f][1..] == [];
  }

  lemma SourcesCons(t: string, f: Field, fs: seq<Field>)
    ensures Sources(t, [f] + fs) == [Source(t, f)] + Sources(t, fs)
  {
    assert ([f] + fs)[1..] == fs;
  }

  lemma DocsOne(ps: seq<Part>, named: bool, i: nat)
    requires |ps| == 1
    ensures DocsOf(ps, named, i) == [DocOf(if named then Named(ps[0].name) else Nth(i), ps[0].val)]
  {
    assert ps[1..] == [];
  }

  lemma LastMember(t: string, c: nat, ps: seq<Part>, i: nat)
    requires |ps| == 1 && MemberBack(t, c, ps[0]) && FirstOnly(t, c, ps, true, "}")
    ensures PartsBack(t, ReadMembers(t, c), ps, true, i, c + |Parts(ps, true) + "}"|)
  {
    SmallOne(ps);
    DocsOne(ps, true, i);
    hide ReadMember, PartText, Source, DocOf, PartSmall, SkipSpace, Sources, DocsOf, AllSmall, Parts;
    if PartSmall(ps[0]) {
      SourcesOne(t, ReadMember(t, c).value.0);
    }
  }

  lemma MembersOn(t: string, c: nat, ps: seq<Part>, i: nat, next: nat)
    requires |ps| > 1 && MemberBack(t, c, ps[0]) && FirstOfMany(t, c, ps, true, "}", next)
    requires PartsBack(t, ReadMembers(t, next), ps[1..], true, i + 1, next + |Parts(ps[1..], true) + "}"|)
    ensures PartsBack(t, ReadMembers(t, c), ps, true, i, c + |Parts(ps, true) + "}"|)
  {
    hide ReadMember, PartText, Source, DocOf, PartSmall, SkipSpace, Parts, Sources;
    if PartSmall(ps[0]) && AllSmall(ps[1..]) {
      SourcesCons(t, ReadMember(t, c).value.0, ReadMembers(t, next).value.0);
    }
  }

  lemma {:induction false} ElemsPrinted(t: string, c: nat, ps: seq<Part>, ei: nat)
    requires ps != [] && AllProper(ps, false) && Is(t, c, Parts(ps, false) + "]")
    ensures PartsBack(t, ReadElems(t, c, ei), ps, false, ei, c + |Parts(ps, false) + "]"|)
    decreases ps, 2
  {
    hide ReadElems, PartText, Parts, PartsBack, ValueBack, Ends, PartProper, Text;
    PartsCut(t, c, ps, false, "]");
    ElemText(ps[0]);
    SpaceBehind(ps[0], false);
    ValuePrinted(t, c, Elem(ei), ps[0].val, ps[0].w3);
    if |ps| > 1 {
      var next := c + |PartText(ps[0], false)| + 1 + |ps[0].w4|;
      ElemsPrinted(t, next, ps[1..], ei + 1);
      ElemsOn(t, c, ps, ei, next);
    } else {
      LastElem(t, c, ps, ei);
    }
  }

  lemma ElemText(p: Part)
    ensures PartText(p, false) == Text(p.val) + p.w3
  {
    assert "" + (Text(p.val) + p.w3) == Text(p.val) + p.w3;
  }

  lemma LastElem(t: string, c: nat, ps: seq<Part>, ei: nat)
    requires |ps| == 1 && ValueBack(t, c, Elem(ei), ps[0].val, |PartText(ps[0], false)|) &&
        FirstOnly(t, c, ps, false, "]")
    ensures PartsBack(t, ReadElems(t, c, ei), ps, false, ei, c + |Parts(ps, false) + "]"|)
  {
    SmallOne(ps);
    DocsOne(ps, false, ei);
    hide ReadValue, PartText, Source, DocOf, Small, SkipSpace, Sources, DocsOf, AllSmall, Parts;
    if Small(ps[0].val) && ei + 1 < ELEM_CAP {
      SourcesOne(t, ReadValue(t, c, Elem(ei)).value.0);
    }
  }

  lemma ElemsOn(t: string, c: nat, ps: seq<Part>, ei: nat, next: nat)
    requires |ps| > 1 && ValueBack(t, c, Elem(ei), ps[0].val, |PartText(ps[0], false)|)
    requires FirstOfMany(t, c, ps, false, "]", next)
    requires PartsBack(t, ReadElems(t, next, ei + 1), ps[1..], false, ei + 1, next + |Parts(ps[1..], false) + "]"|)
    ensures PartsBack(t, ReadElems(t, c, ei), ps, false, ei, c + |Parts(ps, false) + "]"|)
  {
    hide ReadValue, PartText, Source, DocOf, Small, SkipSpace, Parts, Sources;
    assert AllSmall(ps) <==> Small(ps[0].val) && AllSmall(ps[1..]);
    if Small(ps[0].val) && AllSmall(ps[1..]) && ei + |ps| < ELEM_CAP {
      var v, rest := ReadValue(t, c, Elem(ei)).value, ReadElems(t, next, ei + 1).value;
      assert ReadElems(t, c, ei) == Some(([v.0] + rest.0, rest.1));
      SourcesCons(t, v.0, rest.0);
      assert DocsOf(ps, false, ei) == [DocOf(Nth(ei), ps[0].val)] + DocsOf(ps[1..], false, ei + 1);
    } else {
      assert ReadElems(t, c, ei) == None;
    }
  }

  // ---- Records ----

  /** The parser inverts writing: a record of any shape and with any white space is accepted exactly when its
      arrays stay below the cap, and then its text gives back its keys, its values and their nesting. */
  lemma RecordPrinted(t: string, c: nat, lead: string, ms: seq<Part>)
    requires Proper(Object(lead, ms)) && Is(t, c, Text(Object(lead, ms)))
    ensures ReadObject(t, c).Some? <==> Small(Object(lead, ms))
    ensures Small(Object(lead, ms)) ==>
              && ReadObject(t, c).value.1 == c + |Text(Object(lead, ms))|
              && Sources(t, ReadObject(t, c).value.0) == DocsOf(ms, true, 0)
  {
    ObjectPrinted(t, c, lead, ms);
  }

  ghost predicate NoNul(s: string) { NUL !in s }

  lemma {:induction false} RestNoNul(s: string)
    requires StringRest(s)
    ensures NoNul(s)
  {
    if s[0] == '\\' {
      RestNoNul(s[2..]);
      assert s == [s[0], s[1]] + s[2..];
    } else if s[0] != '"' {
      RestNoNul(s[1..]);
      assert s == [s[0]] + s[1..];
    }
  }

  lemma NameNoNul(s: string)
    requires StringToken(s)
    ensures NoNul(s)
  {
    RestNoNul(s[1..]);
    assert s == [s[0]] + s[1..];
  }

  lemma TokenNoNul(s: string)
    requires TokenOk(s)
    ensures NoNul(s)
  {
    if StringToken(s) { NameNoNul(s); }
  }

  lemma {:induction false} TextNoNul(s: Syntax)
    requires Proper(s)
    ensures NoNul(Text(s))
    decreases s, 1
  {
    hide TokenOk;
    match s
    case Tok(tok) => TokenNoNul(tok);
    case Object(lead, ms) => PartsNoNul(ms, true);
    case Array(lead, es) => PartsNoNul(es, false);
  }

  lemma {:induction false} PartsNoNul(ps: seq<Part>, named: bool)
    requires AllProper(ps, named)
    ensures NoNul(Parts(ps, named))
    decreases ps, 0
  {
    hide PartText, PartProper, Space;
    if ps != [] {
      PartNoNul(ps[0], named);
      PartsNoNul(ps[1..], named);
      SpaceBehind(ps[0], named);
      SpaceNoNul(ps[0].w4);
    }
  }

  lemma SpaceNoNul(w: string)
    requires Space(w)
    ensures NoNul(w)
  {
  }

  lemma {:induction false} PartNoNul(p: Part, named: bool)
    requires PartProper(p, named)
    ensures NoNul(PartText(p, named))
    decreases p, 2
  {
    hide Text, Proper, StringToken;
    TextNoNul(p.val);
    if named { NameNoNul(p.name); }
  }

  /** A written record holds no NUL. */
  lemma PrintedClear(t: string, c: nat, s: Syntax)
    requires Proper(s) && Is(t, c, Text(s))
    ensures Clear(t, c, c + |Text(s)|)
  {
    hide Proper;
    TextNoNul(s);
    hide Text;
    forall i | c <= i < c + |Text(s)|
      ensures t[i] != NUL
    {
      IsAt(t, c, Text(s), i - c);
    }
  }

  /** Parsing a written record, wherever it lies in the buffer and whatever the arena was used for before: the
      tree shows the keys and values that were written, and what follows the record is untouched. */
  method ParsePrinted(p: JSONRecordNaiveParser, c0: nat, ghost t: string, ghost w: string, ghost lead: string,
        ghost ms: seq<Part>)
    returns (s: int, c: nat)
    requires p.tree.Valid() && Clean(p.tree.nodes, 0) && Follows(t, p.buf[..], c0)
    requires Space(w) && Proper(Object(lead, ms)) && Small(Object(lead, ms)) && Is(t, c0, w + Text(Object(lead, ms)))
    modifies p.buf, p.tree
    ensures s == 1 && c == c0 + |w + Text(Object(lead, ms))|
    ensures p.tree.Valid() && ShownAll(p.buf[..], KidShapes(p.tree.nodes, 0)) == DocsOf(ms, true, 0)
    ensures Follows(t, p.buf[..], c)
  {
    hide Clean, Arena, Text, Proper, Small, ReadObject, KidShapes, ShownAll, Sources, DocsOf, SkipSpace, Is, Clear;
    PrintedBegins(t, c0, w, lead, ms);
    RecordPrinted(t, c0 + |w|, lead, ms);
    PrintedClear(t, c0 + |w|, Object(lead, ms));
    s, c := p.Parse(c0, t);
  }

  lemma PrintedBegins(t: string, c0: nat, w: string, lead: string, ms: seq<Part>)
    requires Space(w) && Is(t, c0, w + Text(Object(lead, ms)))
    ensures Token(t, c0) == Some(c0 + |w|) && Is(t, c0 + |w|, Text(Object(lead, ms)))
  {
    IsConcat(t, c0, w, Text(Object(lead, ms)));
    IsAt(t, c0 + |w|, Text(Object(lead, ms)), 0);
    hide Text;
    SpaceSkipped(t, c0, w);
  }
}
