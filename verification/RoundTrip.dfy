// Assembling the items of a striped record gives back the record's projection.

module RoundTrip {
  import opened Wrappers
  import opened Bytes
  import opened Paths
  import opened RowCodec
  import opened Records
  import opened BuildSpec
  import opened BuildFacts
  import opened Machine
  import opened Occurrences
  import opened Runs

  // ---- Whole records ----

  /** The record agrees with the schema along every selected column. */
  ghost predicate Conforms(P: Plan, v: Value) {
    v.Obj? && forall k :: 0 <= k < |P.paths| ==> P.paths[k] != [] && FitsObject(P.rept, v, P.paths[k], 0)
  }

  /** The items that a record leaves in each column. */
  function StripeRecord(P: Plan, v: Value): (cols: seq<seq<Item>>)
    ensures |cols| == |P.paths|
  {
    seq(|P.paths|, k requires 0 <= k < |P.paths| =>
      if v.Obj? && P.paths[k] != [] then StripeObject(v, P.paths[k], 0, 0) else [])
  }

  /** Columns of one record in front of columns of later ones. */
  function Before0(a: seq<seq<Item>>, b: seq<seq<Item>>): (c: seq<seq<Item>>)
    requires |a| == |b|
    ensures |c| == |a|
  {
    seq(|a|, k requires 0 <= k < |a| => a[k] + b[k])
  }

  /** Every column is at the beginning of a record, or at its end. */
  ghost predicate AtRecord(cols: seq<seq<Item>>) {
    forall k :: 0 <= k < |cols| ==> HeadRep(cols[k]) == 0
  }

  lemma RootSpan(P: Plan, v: Value, rest: seq<seq<Item>>, tail: seq<seq<Item>>)
    requires P.Valid() && P.paths != [] && Conforms(P, v) && |tail| == |P.paths|
    requires rest == Before0(StripeRecord(P, v), tail) && AtRecord(tail)
    ensures MembersOk(P, v, 0, Span(0, |P.paths|, 0, rest, tail, 0), Root, Opened, [])
  {
    P.RootGroup();
    P.GroupIsTail(0, 0, |P.paths|);
    hide FitsObject, StripeObject;
  }

  lemma RootEnd(P: Plan, total: seq<Field>, b1: Build, p: Path)
    requires MembersDone(P, Root, Opened, 0, total, b1)
    ensures EndOf(P, b1, p) == Some(EncodeObject(total))
  {
    var y := Open(Build([], []), total);
    assert y.lv[..0] == [];
    hide CloseTo, EncodeObject;
    assert PackTop(y) == Some(Build([], EncodeObject(total)));
  }

  lemma JumpEnd(P: Plan, tail: seq<seq<Item>>, b1: Build, row: Bytes)
    requires P.paths != [] && |tail| == |P.paths| && HeadRep(tail[|P.paths| - 1]) == 0
    requires EndOf(P, b1, P.paths[|P.paths| - 1]) == Some(row)
    ensures Jump(P, |P.paths| - 1, tail, b1) == Machine.Done(row, tail)
  {
    hide EndOf, Read, Return, HeadRep;
  }

  lemma ProjectBytes(P: Plan, v: Value)
    requires v.Obj?
    ensures Encode(Project(P, v)) == EncodeObject([] + Members(P, v, 0, 0, |P.paths|))
  {
    ObjectBytes(ProjectMembers(P, v, 0, 0, |P.paths|));
    hide Encode, ProjectMembers, EncodeFields, EncodeObject;
    assert [] + Members(P, v, 0, 0, |P.paths|) == Members(P, v, 0, 0, |P.paths|);
  }

  /** Round trip: assembling the items of a striped record yields exactly the bytes of the record's
      projection on the selected columns, fails no assertion on the way, and leaves every column at the
      beginning of the next record. */
  lemma AssembleStriped(P: Plan, v: Value, tail: seq<seq<Item>>)
    requires P.Valid() && Conforms(P, v) && |tail| == |P.paths| && AtRecord(tail)
    ensures Assemble(P, Before0(StripeRecord(P, v), tail)) == Machine.Done(Encode(Project(P, v)), tail)
  {
    var rest := Before0(StripeRecord(P, v), tail);
    ProjectBytes(P, v);
    if P.paths == [] {
      NoColumns(P, v, rest, tail);
    } else {
      var z := Span(0, |P.paths|, 0, rest, tail, 0);
      RootSpan(P, v, rest, tail);
      RootState(P);
      hide *;
      var b1 := RunMembers(P, v, 0, z, Root, Opened, []);
      RootEnd(P, [] + Members(P, v, 0, 0, |P.paths|), b1, P.paths[|P.paths| - 1]);
      EndHead(P, tail);
      JumpEnd(P, tail, b1, Encode(Project(P, v)));
      AssembleLeads(P, rest, b1, tail);
    }
  }

  lemma RootState(P: Plan)
    ensures StateOf(P, Root, Opened, []) == Start() && !FrontOf(Root, Opened)
  {
  }

  lemma EndHead(P: Plan, tail: seq<seq<Item>>)
    requires P.paths != [] && |tail| == |P.paths| && AtRecord(tail)
    ensures HeadRep(tail[|P.paths| - 1]) == 0
  {
  }

  lemma AssembleLeads(P: Plan, rest: seq<seq<Item>>, b1: Build, tail: seq<seq<Item>>)
    requires P.paths != [] && Leads(P, 0, false, rest, Start(), |P.paths| - 1, tail, b1)
    ensures |rest| == |P.paths| == |tail| && Assemble(P, rest) == Jump(P, |P.paths| - 1, tail, b1)
  {
    hide Read, Jump;
  }

  lemma NoColumns(P: Plan, v: Value, rest: seq<seq<Item>>, tail: seq<seq<Item>>)
    requires P.paths == [] && v.Obj? && rest == tail == []
    ensures Assemble(P, rest) == Machine.Done(EncodeObject([] + Members(P, v, 0, 0, 0)), tail)
  {
    hide EncodeObject;
    assert [] + Members(P, v, 0, 0, 0) == [];
    assert Start().lv[..0] == [];
    assert PackTop(Start()) == Some(Build([], EncodeObject([])));
  }

  // ---- Whole tables ----

  function StripeAll(P: Plan, vs: seq<Value>): (cols: seq<seq<Item>>)
    ensures |cols| == |P.paths|
  {
    if vs == [] then seq(|P.paths|, _ => []) else Before0(StripeRecord(P, vs[0]), StripeAll(P, vs[1..]))
  }

  /** Assembles n records one after the other; None as soon as one fails. */
  function AssembleAll(P: Plan, rest: seq<seq<Item>>, n: nat): Option<seq<Bytes>>
    requires |rest| == |P.paths|
    decreases n
  {
    if n == 0 then Some([])
    else match Assemble(P, rest)
      case Done(row, tail) =>
        if |tail| != |P.paths| then None
        else
          var rows :- AssembleAll(P, tail, n - 1);
          Some([row] + rows)
      case _ => None
  }

  lemma StripeAllAtRecord(P: Plan, vs: seq<Value>)
    requires forall v :: v in vs ==> Conforms(P, v)
    ensures AtRecord(StripeAll(P, vs))
  {
    if vs != [] {
      assert Conforms(P, vs[0]);
      hide FitsObject, StripeAll, Conforms;
      StripedAtRecord(P, vs[0], StripeAll(P, vs[1..]));
      StripeAllCons(P, vs);
    }
  }

  lemma StripeAllCons(P: Plan, vs: seq<Value>)
    requires vs != []
    ensures StripeAll(P, vs) == Before0(StripeRecord(P, vs[0]), StripeAll(P, vs[1..]))
  {
  }

  lemma StripedAtRecord(P: Plan, v: Value, tail: seq<seq<Item>>)
    requires Conforms(P, v) && |tail| == |P.paths|
    ensures AtRecord(Before0(StripeRecord(P, v), tail))
  {
    hide FitsObject;
  }

  /** The rows a table should give back. */
  function Rows(P: Plan, vs: seq<Value>): seq<Bytes>
    requires forall v :: v in vs ==> v.Obj?
  {
    seq(|vs|, i requires 0 <= i < |vs| => Encode(Project(P, vs[i])))
  }

  lemma RowsCons(P: Plan, vs: seq<Value>)
    requires vs != [] && forall v :: v in vs ==> v.Obj?
    ensures Rows(P, vs) == [Encode(Project(P, vs[0]))] + Rows(P, vs[1..])
  {
    hide Encode, Project;
  }

  /** Round trip over a table: the rows are the projections of the records, in order. */
  lemma {:induction false} AssembleTable(P: Plan, vs: seq<Value>)
    requires P.Valid() && forall v :: v in vs ==> v.Obj? && Conforms(P, v)
    ensures AssembleAll(P, StripeAll(P, vs), |vs|) == Some(Rows(P, vs))
  {
    hide Conforms, Assemble, StripeRecord, Before0, Plan.Valid, Encode, Project, Rows;
    if vs == [] {
      NoRows(P);
    } else {
      var later := vs[1..];
      StripeAllAtRecord(P, later);
      AssembleStriped(P, vs[0], StripeAll(P, later));
      AssembleTable(P, later);
      RowsCons(P, vs);
    }
  }

  lemma NoRows(P: Plan)
    ensures Rows(P, []) == []
  {
  }
}
