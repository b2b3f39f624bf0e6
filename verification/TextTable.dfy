// From JSON text to rows: a batch of records is parsed in place, shredded, stored and assembled.

module TextTable {
  import opened Wrappers
  import opened Bytes
  import opened Paths
  import opened Records
  import opened RoundTrip
  import opened Schema
  import opened EndToEnd
  import JsonTrees
  import JsonText
  import opened JsonTokens
  import opened JsonParser
  import JsonPrint

  // ---- Fields for the generator ----

  /** The bytes of a value's text: what the data types make of it. */
  type Mapper = (nat, string) -> Bytes

  function Digits(n: nat): string {
    (if n < 10 then "" else Digits(n / 10)) + ["0123456789"[n % 10]]
  }

  /** A key without its quotes; the key of an element is its index. */
  function KeyName(n: Name): string {
    match n
    case Named(s) => if |s| >= 2 && s[0] == '"' then s[1..|s| - 1] else s
    case Nth(i) => Digits(i)
  }

  function TypeIn(ty: nat): ValueType {
    if ty == JsonTrees.NULL then NullType
    else if ty == JsonTrees.OBJECT then ObjectType
    else if ty == JsonTrees.ARRAY then ArrayType
    else Primitive(ty)
  }

  /** The field as the generator sees it. */
  function JsonOf(m: Mapper, d: Doc): Json
    decreases d, 1
  {
    Json(KeyName(d.key), TypeIn(d.vtype), if d.val.Some? then m(d.vtype, d.val.value) else [], JsonsOf(m, d.kids))
  }

  function JsonsOf(m: Mapper, ds: seq<Doc>): seq<Json>
    decreases ds, 0
  {
    if ds == [] then [] else [JsonOf(m, ds[0])] + JsonsOf(m, ds[1..])
  }

  function Digit(ch: char): nat { if '0' <= ch <= '9' then ch as nat - '0' as nat else 0 }

  /** The number that a decimal numeral stands for. */
  function Decimal(s: string): nat {
    if s == [] then 0 else 10 * Decimal(s[..|s| - 1]) + Digit(s[|s| - 1])
  }

  lemma DecimalSnoc(s: string, ch: char)
    ensures Decimal(s + [ch]) == 10 * Decimal(s) + Digit(ch)
  {
    assert (s + [ch])[..|s|] == s;
  }

  lemma DigitOf(d: nat)
    requires d < 10
    ensures '0' <= "0123456789"[d] <= '9' && Digit("0123456789"[d]) == d
  {
  }

  /** The key of an array's element is its index in decimal, without zeros in front. */
  lemma ElementKey(i: nat)
    ensures KeyName(Nth(i)) != [] && Decimal(KeyName(Nth(i))) == i
    ensures forall k :: 0 <= k < |KeyName(Nth(i))| ==> '0' <= KeyName(Nth(i))[k] <= '9'
    ensures i > 0 ==> KeyName(Nth(i))[0] != '0'
  {
    DigitsRight(i);
  }

  lemma {:induction false} DigitsRight(i: nat)
    ensures Digits(i) != [] && Decimal(Digits(i)) == i
    ensures forall k :: 0 <= k < |Digits(i)| ==> '0' <= Digits(i)[k] <= '9'
    ensures i > 0 ==> Digits(i)[0] != '0'
  {
    hide Decimal, Digit;
    var front, last := if i < 10 then "" else Digits(i / 10), "0123456789"[i % 10];
    DigitOf(i % 10);
    DecimalSnoc(front, last);
    if i < 10 {
      NoDigits();
    } else {
      DigitsRight(i / 10);
    }
  }

  lemma NoDigits()
    ensures Decimal("") == 0
  {
  }

  /** The key of a member is what stands between the quotes of its name. */
  lemma WrittenKey(m: Mapper, key: string, s: JsonPrint.Syntax)
    ensures JsonOf(m, JsonPrint.DocOf(Named("\"" + key + "\""), s)).key == key
  {
    var name := "\"" + key + "\"";
    assert name[1..|name| - 1] == key;
  }

  /** The field that a written token becomes, and its data type: a string, a double or a boolean with the token's
      text, or nothing for null. */
  lemma WrittenToken(m: Mapper, name: Name, tok: string)
    requires JsonPrint.TokenOk(tok)
    ensures var f := JsonOf(m, JsonPrint.DocOf(name, JsonPrint.Tok(tok)));
            && f.kids == [] && f.txt == m(JsonPrint.TokenType(tok), tok) && !f.IsRepeatedArray()
            && (f.vtype == NullType <==> tok == "null") && (f.vtype != NullType ==> f.vtype.Primitive?)
            && (f.CalcType() == Some(StringLeaf) <==> JsonPrint.StringToken(tok))
            && (f.CalcType() == Some(DoubleLeaf) <==> JsonPrint.NumberToken(tok))
            && (f.CalcType() == Some(BooleanLeaf) <==> tok == "true" || tok == "false")
            && f.CalcCategory() == Single
  {
    JsonPrint.TokenTyped(tok);
    hide JsonPrint.StringToken, JsonPrint.NumberToken, JsonPrint.TokenOk, JsonPrint.TokenType;
  }

  /** A written object or array becomes a field with one child for every part, in order. */
  lemma WrittenStruct(m: Mapper, name: Name, s: JsonPrint.Syntax)
    requires !s.Tok?
    ensures var f := JsonOf(m, JsonPrint.DocOf(name, s));
            && f.vtype == (if s.Object? then ObjectType else ArrayType)
            && |f.kids| == if s.Object? then |s.members| else |s.elems|
  {
    if s.Object? {
      DocsCount(m, s.members, true, 0);
    } else {
      DocsCount(m, s.elems, false, 0);
    }
  }

  lemma {:induction false} DocsCount(m: Mapper, ps: seq<JsonPrint.Part>, named: bool, i: nat)
    ensures |JsonsOf(m, JsonPrint.DocsOf(ps, named, i))| == |ps|
  {
    if ps != [] { DocsCount(m, ps[1..], named, i + 1); }
  }

  // ---- A batch of records ----

  /** A record as it is written, with the white space in front of it. */
  datatype Written = Written(w: string, lead: string, members: seq<JsonPrint.Part>) {
    function Text(): string {
      w + JsonPrint.Text(JsonPrint.Object(lead, members))
    }

    ghost predicate Parsable() {
      && JsonPrint.Space(w) && JsonPrint.Proper(JsonPrint.Object(lead, members))
      && JsonPrint.Small(JsonPrint.Object(lead, members))
    }

    /** The root field. */
    function Record(m: Mapper): Json {
      Json("", ObjectType, [], JsonsOf(m, JsonPrint.DocsOf(members, true, 0)))
    }
  }

  function BatchText(rs: seq<Written>): string {
    if rs == [] then "" else rs[0].Text() + BatchText(rs[1..])
  }

  function BatchRecords(m: Mapper, rs: seq<Written>): (docs: seq<Json>)
    ensures |docs| == |rs|
  {
    seq(|rs|, i requires 0 <= i < |rs| => rs[i].Record(m))
  }

  /** `readJSONRecord` for a whole batch: one arena serves all records. */
  method ParseBatch(p: JSONRecordNaiveParser, n: nat, m: Mapper, ghost rs: seq<Written>) returns (docs: seq<Json>)
    requires p.tree.Valid() && |rs| == n && BatchText(rs) <= p.buf[..]
    requires forall r :: r in rs ==> r.Parsable()
    modifies p.buf, p.tree
    ensures docs == BatchRecords(m, rs)
  {
    hide Written.Text, Written.Parsable, Written.Record, JsonTrees.Arena, BatchRecords, BatchText, JsonPrint.Is;
    ghost var t := p.buf[..];
    BatchBegins(t, rs, m);
    docs := [];
    var c: nat := 0;
    while |docs| < n
      invariant |docs| <= n && p.tree.Valid() && Follows(t, p.buf[..], c)
      invariant JsonPrint.Is(t, c, BatchText(rs[|docs|..]))
      invariant docs == BatchRecords(m, rs[..|docs|])
    {
      ghost var i := |docs|;
      NextRecord(t, c, rs, i);
      assert rs[i] in rs;
      RecordsSnoc(m, rs, i);
      var doc;
      c, doc := ParseRecord(p, c, m, t, rs[i]);
      docs := docs + [doc];
    }
    assert rs[..n] == rs;
  }

  lemma BatchBegins(t: string, rs: seq<Written>, m: Mapper)
    requires BatchText(rs) <= t
    ensures JsonPrint.Is(t, 0, BatchText(rs[0..])) && BatchRecords(m, rs[..0]) == []
  {
    assert rs[0..] == rs;
  }

  /** One record of the batch, in the arena of the one before. */
  method ParseRecord(p: JSONRecordNaiveParser, c0: nat, m: Mapper, ghost t: string, ghost r: Written)
    returns (c: nat, doc: Json)
    requires p.tree.Valid() && Follows(t, p.buf[..], c0) && r.Parsable() && JsonPrint.Is(t, c0, r.Text())
    modifies p.buf, p.tree
    ensures p.tree.Valid() && c == c0 + |r.Text()| && Follows(t, p.buf[..], c) && doc == r.Record(m)
  {
    hide JsonPrint.Text, JsonPrint.Proper, JsonPrint.Small, JsonPrint.DocsOf, JsonPrint.Is, JsonPrint.Space, ShownAll,
         JsonsOf, KidShapes, JsonTrees.Arena, JsonTrees.Clean;
    p.tree.Clear();
    var s;
    s, c := JsonPrint.ParsePrinted(p, c0, t, r.w, r.lead, r.members);
    HasRoot(p.tree.nodes);
    doc := Json("", ObjectType, [], JsonsOf(m, ShownAll(p.buf[..], KidShapes(p.tree.nodes, 0))));
  }

  lemma HasRoot(ns: JsonTrees.Nodes)
    requires JsonTrees.Arena(ns)
    ensures ns != []
  {
  }

  lemma NextRecord(t: string, c: nat, rs: seq<Written>, i: nat)
    requires i < |rs| && JsonPrint.Is(t, c, BatchText(rs[i..]))
    ensures JsonPrint.Is(t, c, rs[i].Text()) && JsonPrint.Is(t, c + |rs[i].Text()|, BatchText(rs[i + 1..]))
  {
    hide Written.Text;
    assert rs[i..][1..] == rs[i + 1..];
    JsonPrint.IsConcat(t, c, rs[i].Text(), BatchText(rs[i + 1..]));
  }

  lemma RecordsSnoc(m: Mapper, rs: seq<Written>, i: nat)
    requires i < |rs|
    ensures BatchRecords(m, rs[..i + 1]) == BatchRecords(m, rs[..i]) + [rs[i].Record(m)]
  {
    hide Written.Record;
  }

  /** JSON text in, rows out: parsing a batch of written records in place, shredding them with the schema,
      storing the selected columns in blocks, reading the files back and assembling gives exactly the
      projections of the written records on the selected leaves, in order. */
  method TextToRows(p: JSONRecordNaiveParser, n: nat, m: Mapper, q: Query, ghost rs: seq<Written>) returns (rows: Bytes)
    requires p.tree.Valid() && |rs| == n && BatchText(rs) <= p.buf[..]
    requires forall r :: r in rs ==> r.Parsable()
    requires q.(docs := BatchRecords(m, rs)).Answerable()
    modifies p.buf, p.tree
    ensures rows == Concat(Rows(q.Columns(), Values(q.tree, BatchRecords(m, rs))))
  {
    hide Query.Answerable, Query.Columns, Values, Rows, Concat, BatchRecords, JsonTrees.Arena;
    IsWellFormed(q.(docs := BatchRecords(m, rs)));
    var docs := ParseBatch(p, n, m, rs);
    rows := ShredStoreAssemble(q.(docs := docs));
    SameColumns(q, docs);
  }

  lemma IsWellFormed(q: Query)
    requires q.Answerable()
    ensures q.tree.Valid() && (forall l :: l in q.leaves ==> l < |q.tree.nodes|)
    ensures forall v :: v in Values(q.tree, q.docs) ==> v.Obj?
  {
    hide Query.ValuesTyped, Encode, Project, Selected, Known, Tree.Valid, Values;
  }

  lemma SameColumns(q: Query, docs: seq<Json>)
    requires q.tree.Valid() && forall l :: l in q.leaves ==> l < |q.tree.nodes|
    ensures q.(docs := docs).Columns() == q.Columns()
  {
    hide Tree.Valid;
  }
}
