// The columns that take part in the assembly of a record: those whose first valid record is not behind it.

module ActiveColumns {
  import opened Wrappers
  import opened Bytes
  import opened Paths
  import opened Records
  import opened Machine
  import opened RoundTrip

  /** The selected columns that are valid at record r. */
  function Active(valid: seq<nat>, r: int): (cs: seq<nat>)
    ensures forall i :: 0 <= i < |cs| ==> cs[i] < |valid|
  {
    if valid == [] then []
    else
      var n := |valid| - 1;
      Active(valid[..n], r) + if valid[n] <= r then [n] else []
  }

  lemma {:induction false} ActiveExact(valid: seq<nat>, r: int, c: nat)
    ensures c in Active(valid, r) <==> c < |valid| && valid[c] <= r
    ensures forall i, j :: 0 <= i < j < |Active(valid, r)| ==> Active(valid, r)[i] < Active(valid, r)[j]
  {
    if valid != [] {
      ActiveExact(valid[..|valid| - 1], r, c);
    }
  }

  /** While no column becomes valid, the active columns stay the same. */
  lemma {:induction false} ActiveSame(valid: seq<nat>, r: int, s: int)
    requires forall c :: 0 <= c < |valid| ==> (valid[c] <= r <==> valid[c] <= s)
    ensures Active(valid, r) == Active(valid, s)
  {
    if valid != [] {
      ActiveSame(valid[..|valid| - 1], r, s);
    }
  }

  function PathsOf(paths: seq<Path>, cs: seq<nat>): (ps: seq<Path>)
    requires forall i :: 0 <= i < |cs| ==> cs[i] < |paths|
    ensures |ps| == |cs|
  {
    seq(|cs|, i requires 0 <= i < |cs| => paths[cs[i]])
  }

  // ---- std::set<uint64_t> ----

  ghost predicate Increasing(s: seq<nat>) {
    forall i, j :: 0 <= i < j < |s| ==> s[i] < s[j]
  }

  /** Insertion into an ordered set. */
  function Insert(s: seq<nat>, x: nat): seq<nat> {
    if s == [] then [x]
    else if x < s[0] then [x] + s
    else if x == s[0] then s
    else [s[0]] + Insert(s[1..], x)
  }

  lemma Above(x: nat, rest: seq<nat>)
    requires Increasing([x] + rest)
    ensures forall y :: y in rest ==> y > x
  {
    forall y | y in rest
      ensures y > x
    {
      var i :| 0 <= i < |rest| && rest[i] == y;
      assert ([x] + rest)[0] < ([x] + rest)[i + 1];
    }
  }

  lemma IncreasingCons(x: nat, t: seq<nat>)
    requires Increasing(t) && forall y :: y in t ==> y > x
    ensures Increasing([x] + t)
  {
    forall i, j | 0 <= i < j < |[x] + t|
      ensures ([x] + t)[i] < ([x] + t)[j]
    {
      assert t[j - 1] in t;
      assert i > 0 ==> t[i - 1] < t[j - 1];
    }
  }

  lemma {:induction false} InsertFacts(s: seq<nat>, x: nat)
    requires Increasing(s)
    ensures Increasing(Insert(s, x))
    ensures forall y :: y in Insert(s, x) <==> y in s || y == x
  {
    if s != [] && x > s[0] {
      var rest := s[1..];
      assert s == [s[0]] + rest;
      InsertFacts(rest, x);
      Above(s[0], rest);
      IncreasingCons(s[0], Insert(rest, x));
    }
  }

  class AssembleColumn {
    const paths: seq<Path>        // m_all_path
    const valid: seq<nat>         // getValidRecdIdx of every reader
    var maxDepth: nat             // m_max_depth
    var curPath: seq<Path>        // m_cur_path
    var curCrds: seq<nat>         // m_cur_crds, readers by their column
    var queue: seq<nat>           // m_reinit_recd_id
    ghost var last: int           // record of the last call, -1 before the first

    /** The current columns are those valid at the last record, and the queue has the records at which
        others become valid, in order. */
    ghost predicate Valid()
      reads this
    {
      && |paths| == |valid| && last >= -1
      && curCrds == Active(valid, last) && curPath == PathsOf(paths, curCrds)
      && Increasing(queue) && (forall x :: x in queue <==> x in valid && x > last)
    }

    constructor (paths: seq<Path>, valid: seq<nat>)
      requires |paths| == |valid|
      ensures Valid() && last == -1 && this.paths == paths && this.valid == valid
      ensures forall p :: p in paths ==> |p| < maxDepth
      ensures maxDepth == 1 || exists p :: p in paths && maxDepth == |p| + 1
    {
      this.paths, this.valid := paths, valid;
      curPath, curCrds, last := [], [], -1;
      var depth := 0;
      for pi := 0 to |paths|
        invariant forall i :: 0 <= i < pi ==> |paths[i]| <= depth
        invariant depth == 0 || exists p :: p in paths && depth == |p|
      {
        depth := if depth > |paths[pi]| then depth else |paths[pi]|;
      }
      maxDepth := depth + 1;
      queue := [];
      new;
      NoneActive();
      queue := OrderedSet(valid);
    }

    static method OrderedSet(valid: seq<nat>) returns (ids: seq<nat>)
      ensures Increasing(ids) && forall x :: x in ids <==> x in valid
    {
      ids := [];
      for ri := 0 to |valid|
        invariant Increasing(ids) && forall x :: x in ids <==> x in valid[..ri]
      {
        InsertFacts(ids, valid[ri]);
        ids := Insert(ids, valid[ri]);
      }
      assert valid[..|valid|] == valid;
    }

    lemma NoneActive()
      ensures Active(valid, -1) == []
    {
      if Active(valid, -1) != [] {
        ActiveExact(valid, -1, Active(valid, -1)[0]);
      }
    }

    /** Whether a column has become valid since the last call. */
    method Need2Update(r: nat) returns (need: bool)
      requires Valid() && r >= last
      modifies this`queue
      ensures need <==> exists v :: v in valid && last < v <= r
      ensures Increasing(queue) && forall x :: x in queue <==> x in valid && x > r
    {
      if queue == [] || queue[0] > r {
        assert forall x :: x in queue ==> x > r;
        return false;
      }
      assert queue[0] in valid && last < queue[0] <= r;
      while queue != [] && queue[0] <= r
        invariant Increasing(queue)
        invariant forall x :: x in queue ==> x in old(queue)
        invariant forall x :: x in old(queue) && x > r ==> x in queue
        decreases |queue|
      {
        ghost var was := queue;
        queue := queue[1..];
        assert was == [was[0]] + queue;
      }
      assert forall x :: x in queue ==> x > r;
      need := true;
    }

    method UpdateColumn(r: nat)
      requires |paths| == |valid|
      modifies this`curPath, this`curCrds
      ensures curCrds == Active(valid, r) && curPath == PathsOf(paths, curCrds)
    {
      curPath, curCrds := [], [];
      for pi := 0 to |paths|
        invariant curCrds == Active(valid[..pi], r)
        invariant |curPath| == |curCrds| && forall i :: 0 <= i < |curCrds| ==> curPath[i] == paths[curCrds[i]]
      {
        assert valid[..pi + 1][..pi] == valid[..pi];
        if valid[pi] > r { continue; }
        curPath := curPath + [paths[pi]];
        curCrds := curCrds + [pi];
      }
      assert valid[..|paths|] == valid;
    }

    /** The first part of `prepareColumnReader`.  Whatever records were asked for before: at record r the
        current columns are all columns valid at r, and the assembler is told when they changed. */
    method Prepare(r: nat) returns (reinit: bool)
      requires Valid() && r >= last
      modifies this
      ensures Valid() && last == r && maxDepth == old(maxDepth)
      ensures curCrds == Active(valid, r) && curPath == PathsOf(paths, Active(valid, r))
      ensures reinit <==> curCrds != old(curCrds)
    {
      reinit := Need2Update(r);
      if reinit {
        ghost var v :| v in valid && last < v <= r;
        UpdateColumn(r);
        ghost var c :| 0 <= c < |valid| && valid[c] == v;
        ActiveExact(valid, r, c);
        ActiveExact(valid, last, c);
      } else {
        assert forall i :: 0 <= i < |valid| ==> valid[i] in valid;
        ActiveSame(valid, last, r);
      }
      last := r;
    }
  }

  // ---- Assembling the active columns ----

  /** The query on the columns that are valid at record r. */
  function ActivePlan(P: Plan, valid: seq<nat>, r: int): Plan
    requires |valid| == |P.paths|
  {
    Plan(PathsOf(P.paths, Active(valid, r)), P.rept)
  }

  /** Dropping columns leaves a proper plan, whose columns hold what they held before. */
  lemma ActiveValid(P: Plan, valid: seq<nat>, r: int, v: Value)
    requires |valid| == |P.paths| && P.Valid() && Conforms(P, v)
    ensures ActivePlan(P, valid, r).Valid() && Conforms(ActivePlan(P, valid, r), v)
    ensures var cs := Active(valid, r);
            forall i :: 0 <= i < |cs| ==> StripeRecord(ActivePlan(P, valid, r), v)[i] == StripeRecord(P, v)[cs[i]]
  {
    hide FitsObject, StripeObject, Active;
    ActiveExact(valid, r, 0);
  }

  /** Assembling with the active columns gives the record's projection on them. */
  lemma AssembleActive(P: Plan, valid: seq<nat>, r: int, v: Value, tail: seq<seq<Item>>)
    requires |valid| == |P.paths| && P.Valid() && Conforms(P, v)
    requires |tail| == |Active(valid, r)| && AtRecord(tail)
    ensures var Q := ActivePlan(P, valid, r);
            Assemble(Q, Before0(StripeRecord(Q, v), tail)) == Machine.Done(Encode(Project(Q, v)), tail)
  {
    hide Conforms, StripeRecord, Plan.Valid, Encode, Project, Machine.Assemble;
    ActiveValid(P, valid, r, v);
    AssembleStriped(ActivePlan(P, valid, r), v, tail);
  }
}
