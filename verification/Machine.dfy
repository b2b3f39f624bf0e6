// The assembling loop as a machine: it reads one item of the current column, builds, looks up the
// next column, returns to the level both columns share, and goes on there.

module Machine {
  import opened Wrappers
  import opened Bytes
  import opened Paths
  import opened Records
  import opened BuildSpec

  /** Outcome of assembling one record: an assertion of the original failed, a column ran out of
      items, or the record's bytes together with the items left in every column. */
  datatype Result = Abort | Eof | Done(row: Bytes, rest: seq<seq<Item>>)

  /** Repetition value of the next item; behind the last one a new record would begin. */
  function HeadRep(items: seq<Item>): nat {
    if items == [] then 0 else items[0].rep
  }

  /** `getCommonLevel`. */
  function CommonLevel(P: Plan, c: nat, n: nat, r: nat): nat
    requires c < |P.paths| && n < |P.paths|
  {
    if c == n then r
    else if n < c then (if r < P.Common(n, c) then r else P.Common(n, c))
    else P.Same(c, n)
  }

  function Remaining(rest: seq<seq<Item>>): nat {
    if rest == [] then 0 else |rest[0]| + Remaining(rest[1..])
  }

  lemma RemainingPop(rest: seq<seq<Item>>, c: nat)
    requires c < |rest| && rest[c] != []
    ensures Remaining(rest[c := rest[c][1..]]) == Remaining(rest) - 1
  {
    var r := rest[c := rest[c][1..]];
    if c > 0 {
      RemainingPop(rest[1..], c - 1);
      assert r[1..] == rest[1..][c - 1 := rest[1..][c - 1][1..]];
    }
  }

  /** What reading one item does to the builder. */
  function Take(P: Plan, c: nat, front: bool, it: Item, b: Build): (r: Option<Build>)
    requires c < |P.paths|
  {
    var p := P.paths[c];
    if b.lv == [] || it.def > |p| then None
    else
      var b1 :- Move(P.rept, b, it.def, p, front);
      if it.def < |p| then Some(b1)
      else if b1.lv == [] || it.val.None? then None
      else LeafValue(b1, it.val.value)
  }

  /** At the head of the loop, about to read from column c. */
  function Read(P: Plan, c: nat, front: bool, rest: seq<seq<Item>>, b: Build): Result
    requires c < |P.paths| == |rest|
    decreases Remaining(rest), 1
  {
    if rest[c] == [] then Eof
    else
      RemainingPop(rest, c);
      match Take(P, c, front, rest[c][0], b)
      case None => Abort
      case Some(b1) => Jump(P, c, rest[c := rest[c][1..]], b1)
  }

  /** Behind the read: look up the next column and return to the shared level. */
  function Jump(P: Plan, c: nat, rest: seq<seq<Item>>, b: Build): Result
    requires c < |P.paths| == |rest|
    decreases Remaining(rest), 2
  {
    var p := P.paths[c];
    var r := HeadRep(rest[c]);
    var n := P.Next(c, r);
    if n < 0 || n >= |P.paths| then
      match EndOf(P, b, p)
      case None => Abort
      case Some(row) => Done(row, rest)
    else
      var L := CommonLevel(P, c, n, r);
      if L > |p| then Abort
      else
        match Return(P.rept, b, L, p, n <= c)
        case None => Abort
        case Some(b1) => Read(P, n, n <= c, rest, b1)
  }

  function EndOf(P: Plan, b: Build, p: Path): Option<Bytes> {
    var b1 :- Return(P.rept, b, 0, p, false);
    Finish(b1)
  }

  /** Assembling one record from the items at the front of the columns. */
  function Assemble(P: Plan, rest: seq<seq<Item>>): Result
    requires |P.paths| == |rest|
  {
    if P.paths == [] then
      match Finish(Start())
      case None => Abort
      case Some(row) => Done(row, rest)
    else Read(P, 0, false, rest, Start())
  }
}
