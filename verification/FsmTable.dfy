// FSMTable: levels shared by neighbouring columns, and the transition table filled from them.

module FsmTable {
  import opened Paths

  /** In a tree a node fixes its ancestors: two paths that meet at a level agree above it. */
  ghost predicate TreePair(p: Path, q: Path) {
    forall k :: 0 <= k < |p| && k < |q| && p[k] == q[k] ==> p[..k] == q[..k]
  }

  ghost predicate TreePaths(paths: seq<Path>) {
    forall i, j :: 0 <= i < |paths| && 0 <= j < |paths| ==> TreePair(paths[i], paths[j])
  }

  /** Number of positions below n at which two paths agree. */
  function Agreeing(p: Path, q: Path, n: nat): nat
    requires n <= |p| && n <= |q|
  {
    if n == 0 then 0 else Agreeing(p, q, n - 1) + if p[n - 1] == q[n - 1] then 1 else 0
  }

  /** Counting agreeing positions finds the common ancestor, because a node fixes its ancestors. */
  lemma {:induction false} AgreeingIsLcp(p: Path, q: Path, n: nat)
    requires TreePair(p, q) && n <= |p| && n <= |q|
    ensures Agreeing(p, q, n) == if n < Lcp(p, q) then n else Lcp(p, q)
  {
    if n > 0 {
      AgreeingIsLcp(p, q, n - 1);
      var k := Lcp(p, q);
      LcpPrefix(p, q);
      if n - 1 < k {
        assert p[n - 1] == p[..k][n - 1] == q[n - 1];
      } else if n - 1 > k {
        if p[n - 1] == q[n - 1] {
          assert p[..n - 1] == q[..n - 1];
          LcpAtLeast(p, q, n - 1);
        }
      }
    }
  }

  /** `SchemaPath::getLowestSameLevel`. */
  method LowestSameLevel(p: Path, q: Path) returns (lowest: nat)
    requires p != [] && q != [] && TreePair(p, q)
    ensures lowest == Lcp(p, q)
  {
    var min := if |p| < |q| then |p| else |q|;
    var lvl := 0;
    lowest := 0;
    while lvl < min
      invariant 0 <= lvl <= min
      invariant lowest == Agreeing(p, q, lvl)
    {
      lowest := lowest + if p[lvl] == q[lvl] then 1 else 0;
      lvl := lvl + 1;
    }
    AgreeingIsLcp(p, q, min);
  }

  // ---- One row of the transition table ----

  /** Row after the columns f..c have been entered (passes 1 and 2): below the barrier the next column,
      above it the least column entered that shares exactly that level. */
  ghost predicate Entered(P: Plan, c: nat, f: nat, row: seq<int>)
    requires c < |P.paths| && f <= c + 1
  {
    && |row| == |P.paths[c]| + 1
    && forall l :: 0 <= l < |row| ==>
         if l <= P.Barrier(c) then row[l] == c + 1
         else if row[l] == -1 then forall g :: f <= g <= c ==> P.Common(g, c) != l
         else f <= row[l] <= c && P.Common(row[l], c) == l && forall g :: f <= g < row[l] ==> P.Common(g, c) != l
  }

  /** Row after the gaps from level `from` on have been filled (pass 3). */
  ghost predicate Filled(P: Plan, c: nat, from: nat, row: seq<int>)
    requires c < |P.paths|
  {
    && |row| == |P.paths[c]| + 1
    && forall l :: 0 <= l < |row| ==>
         if l <= P.Barrier(c) then row[l] == c + 1
         else if l < from then true
         else row[l] == if l <= P.Common(c, c) then P.First(c, l) else -1
  }

  /** Row after the levels of single nodes below index n have been erased (pass 4). */
  ghost predicate Erased(P: Plan, c: nat, n: nat, row: seq<int>)
    requires c < |P.paths|
  {
    && |row| == |P.paths[c]| + 1
    && forall l :: 0 <= l < |row| ==>
         if 0 < l <= n && P.paths[c][l - 1] !in P.rept then row[l] == -1
         else if l <= P.Barrier(c) then row[l] == c + 1
         else row[l] == if l <= P.Common(c, c) then P.First(c, l) else -1
  }

  lemma BarrierBounds(P: Plan, c: nat)
    requires P.Valid() && c < |P.paths|
    ensures P.Barrier(c) <= |P.paths[c]| && P.Common(c, c) <= |P.paths[c]|
  {
  }

  /** Common levels do not grow towards the front. */
  lemma CommonGrows(P: Plan, f: nat, g: nat, c: nat)
    requires P.Valid() && f <= g <= c < |P.paths|
    ensures P.Common(f, c) <= P.Common(g, c)
  {
    P.CommonMin(f, g, c);
  }

  /** The least column that shares at least level l shares exactly some level m >= l; if the entry at l is a
      gap, m is above l and the same column answers for l + 1. */
  lemma FillGap(P: Plan, c: nat, l: nat)
    requires P.Valid() && c < |P.paths| && l <= P.Common(c, c)
    requires forall g :: 0 <= g <= c ==> P.Common(g, c) != l
    ensures l + 1 <= P.Common(c, c) && P.First(c, l) == P.First(c, l + 1)
  {
    assert P.Common(c, c) != l;
    P.FirstLeast(c, l);
    P.FirstLeast(c, l + 1);
    var f, g := P.First(c, l), P.First(c, l + 1);
    assert P.Common(f, c) != l;
  }

  /** An entry at l is the least column sharing at least l. */
  lemma EntryIsFirst(P: Plan, c: nat, l: nat, f: nat)
    requires P.Valid() && f <= c < |P.paths| && P.Common(f, c) == l
    requires forall g :: 0 <= g < f ==> P.Common(g, c) != l
    ensures l <= P.Common(c, c) && P.First(c, l) == f
  {
    CommonGrows(P, f, c, c);
    P.FirstLeast(c, l);
    var g := P.First(c, l);
    if g < f { CommonGrows(P, g, f, c); }
  }

  /** Neighbour-minimum refinement of the common repetition level, one neighbour further. */
  lemma CommonStep(P: Plan, cur: nat, ci: nat)
    requires P.Valid() && cur <= ci && ci + 1 < |P.paths|
    ensures P.Common(cur, ci + 1)
         == if ci == cur then P.Barrier(ci)
            else if P.Common(cur, ci) > P.Barrier(ci) then P.Barrier(ci) else P.Common(cur, ci)
    ensures P.Barrier(ci) <= |P.paths[ci]|
  {
    P.CommonMin(cur, ci, ci + 1);
  }

  lemma SameStep(P: Plan, cur: nat, ci: nat)
    requires P.Valid() && cur <= ci && ci + 1 < |P.paths|
    ensures P.Same(cur, ci + 1)
         == if ci == cur then P.Same(ci, ci + 1)
            else if P.Same(cur, ci) > P.Same(ci, ci + 1) then P.Same(ci, ci + 1) else P.Same(cur, ci)
    ensures P.Same(ci, ci + 1) <= |P.paths[ci]|
  {
    P.SameMin(cur, ci, ci + 1);
  }

  lemma LevelsOf(P: Plan, c: nat, com: nat)
    requires c + 1 < |P.paths| && com <= Lcp(P.paths[c], P.paths[c + 1])
    requires P.ReptLevel(P.paths[c], com) == P.ReptLevel(P.paths[c], Lcp(P.paths[c], P.paths[c + 1]))
    requires com > 0 ==> P.paths[c][com - 1] in P.rept
    ensures P.Same(c, c + 1) == Lcp(P.paths[c], P.paths[c + 1]) && P.Barrier(c) == com
  {
  }

  lemma LastBarrier(P: Plan)
    requires P.paths != []
    ensures P.Barrier(|P.paths| - 1) == 0
  {
  }

  /** `SchemaTree::getLowestRepeatedNodeIndex`, as a level. */
  method LowestRepeated(P: Plan, c: nat) returns (lvl: nat)
    requires c < |P.paths|
    ensures lvl == P.Common(c, c)
  {
    P.SameSelf(c);
    var p := P.paths[c];
    lvl := |p|;
    while lvl > 0 && p[lvl - 1] !in P.rept
      invariant 0 <= lvl <= |p|
      invariant P.ReptLevel(p, lvl) == P.ReptLevel(p, |p|)
    {
      lvl := lvl - 1;
    }
  }

  // ---- The flat table ----

  /** Position of column c's entry for repetition value r in rows of length `size`. */
  function At(size: nat, c: nat, r: nat): nat { size * c + r }

  lemma AtInside(size: nat, n: nat, c: nat, r: nat)
    requires c < n && r < size
    ensures At(size, c, r) < size * n && At(size, c, r) < size * (c + 1)
  {
    assert size * n == size * (c + 1) + size * (n - (c + 1));
    assert size * (n - (c + 1)) >= 0;
  }

  /** Entry of a row padded with -1. */
  function Cell(row: seq<int>, r: nat): int { if r < |row| then row[r] else -1 }

  /** The flat array holds the transition of every column for every level of its path. */
  ghost predicate Transitions(P: Plan, size: nat, t: seq<int>) {
    forall c, r :: 0 <= c < |P.paths| && 0 <= r <= |P.paths[c]| ==>
      r < size && At(size, c, r) < |t| && t[At(size, c, r)] == P.Next(c, r)
  }

  lemma RowsAreTransitions(P: Plan, trans: seq<seq<int>>, size: nat, t: seq<int>)
    requires |trans| == |P.paths| && RowsIn(t, trans, |trans|, size)
    requires forall c :: 0 <= c < |P.paths| ==> |trans[c]| == |P.paths[c]| + 1 <= size
    requires forall c, r :: 0 <= c < |P.paths| && 0 <= r <= |P.paths[c]| ==> trans[c][r] == P.Next(c, r)
    ensures Transitions(P, size, t)
  {
    hide Plan.Next;
  }

  /** The first n rows stand in the flat array. */
  ghost predicate RowsIn(t: seq<int>, trans: seq<seq<int>>, n: nat, size: nat)
    requires n <= |trans|
  {
    forall c, r :: 0 <= c < n && 0 <= r < size ==> At(size, c, r) < |t| && t[At(size, c, r)] == Cell(trans[c], r)
  }

  lemma RowFits(size: nat, c: nat, n: nat)
    requires c < n
    ensures size * c + size == size * (c + 1) <= size * n
  {
    assert size * n == size * (c + 1) + size * (n - (c + 1));
    assert size * (n - (c + 1)) >= 0;
  }

  lemma RowAdded(before: seq<int>, after: seq<int>, trans: seq<seq<int>>, c: nat, size: nat)
    requires c < |trans| && |trans[c]| <= size && size * c + size <= |before| == |after|
    requires RowsIn(before, trans, c, size)
    requires forall i :: size * c <= i < |before| ==> before[i] == -1
    requires forall i :: 0 <= i < |after| ==>
               after[i] == if size * c <= i < size * c + |trans[c]| then trans[c][i - size * c] else before[i]
    ensures RowsIn(after, trans, c + 1, size)
  {
    forall d, r | 0 <= d < c + 1 && 0 <= r < size
      ensures At(size, d, r) < |after| && after[At(size, d, r)] == Cell(trans[d], r)
    {
      if d < c {
        AtInside(size, c, d, r);
      }
    }
  }

  lemma NoRows(trans: seq<seq<int>>, size: nat)
    ensures forall t: seq<int> :: RowsIn(t, trans, 0, size)
  {
  }

  /** `memcpy` of a row to position bgn. */
  method CopyRow(t: array<int>, bgn: nat, row: seq<int>)
    requires bgn + |row| <= t.Length
    modifies t
    ensures forall i :: 0 <= i < t.Length ==> t[i] == if bgn <= i < bgn + |row| then row[i - bgn] else old(t[i])
  {
    var i := 0;
    while i < |row|
      invariant 0 <= i <= |row|
      invariant forall k :: 0 <= k < t.Length ==> t[k] == if bgn <= k < bgn + i then row[k - bgn] else old(t[k])
    {
      t[bgn + i] := row[i];
      i := i + 1;
    }
  }

  const UINT_MAX: nat := 0xFFFF_FFFF

  class FSMTable {
    var plan: Plan            // m_pathes, and which nodes of m_tree are repeated
    var lowSame: seq<nat>     // m_low_same_lvl
    var comRep: seq<nat>      // m_com_rep_lvl
    var maxSize: nat          // m_max_size
    var table: array<int>     // m_fsm_table; uint32_t(-1) is -1 here

    constructor ()
      ensures plan.paths == []
    {
      plan := Plan([], {});
      lowSame, comRep, maxSize := [], [], 0;
      table := new int[0];
    }

    /** What the queries need: levels fit the machine's integers, and the level vectors are filled. */
    ghost predicate Levels()
      reads this
    {
      && plan.Valid()
      && |lowSame| == |comRep| == |plan.paths|
      && (forall c :: 0 <= c < |plan.paths| ==> 0 < |plan.paths[c]| < UINT_MAX && comRep[c] == plan.Barrier(c))
      && (forall c :: 0 <= c < |plan.paths| - 1 ==> lowSame[c] == plan.Same(c, c + 1))
    }

    /** The flat table holds the transitions. */
    ghost predicate Valid()
      reads this, table
    {
      && Levels()
      && table.Length == maxSize * |plan.paths|
      && Transitions(plan, maxSize, table[..])
    }

    /** `getCommonReptLevel`: a fold over the neighbours between two columns. */
    method GetCommonReptLevel(tgt: nat, cur: nat) returns (lvl: nat)
      requires Levels() && cur <= tgt < |plan.paths|
      ensures lvl == plan.Common(cur, tgt)
    {
      hide Plan.Valid, Plan.Common, Plan.Same, Plan.Barrier;
      if tgt == cur {
        lvl := LowestRepeated(plan, tgt);
        return;
      }
      lvl := UINT_MAX;
      var ci := cur;
      while ci < tgt
        invariant cur <= ci <= tgt
        invariant lvl == if ci == cur then UINT_MAX else plan.Common(cur, ci)
      {
        var tmp := comRep[ci];
        CommonStep(plan, cur, ci);
        lvl := if lvl > tmp then tmp else lvl;
        ci := ci + 1;
      }
    }

    /** `getLowestSameLevel`. */
    method GetLowestSameLevel(tgt: nat, cur: nat) returns (lvl: nat)
      requires Levels() && cur <= tgt < |plan.paths|
      ensures lvl == plan.Same(cur, tgt)
    {
      hide Plan.Valid, Plan.Common, Plan.Same, Plan.Barrier;
      if tgt == cur {
        plan.SameSelf(tgt);
        return |plan.paths[tgt]|;
      }
      lvl := UINT_MAX;
      var ci := cur;
      while ci < tgt
        invariant cur <= ci <= tgt
        invariant lvl == if ci == cur then UINT_MAX else plan.Same(cur, ci)
      {
        var tmp := lowSame[ci];
        SameStep(plan, cur, ci);
        lvl := if lvl > tmp then tmp else lvl;
        ci := ci + 1;
      }
    }

    /** `get`. */
    method Get(c: nat, rep: nat) returns (next: int)
      requires Valid() && c < |plan.paths| && rep <= |plan.paths[c]|
      ensures next == plan.Next(c, rep)
    {
      next := table[maxSize * c + rep] by { assert maxSize * c + rep == At(maxSize, c, rep); }
    }

    /** `initCommonLevel`. */
    method InitCommonLevel()
      requires plan.Valid() && TreePaths(plan.paths) && plan.paths != []
      requires forall c :: 0 <= c < |plan.paths| ==> 0 < |plan.paths[c]| < UINT_MAX
      modifies this`lowSame, this`comRep
      ensures Levels()
    {
      hide Plan.Valid, Less, Plan.Barrier, Plan.Same, Plan.Common, TreePair;
      var n := |plan.paths|;
      lowSame, comRep := [], [];
      var pi := 0;
      while pi + 1 < n
        invariant 0 <= pi < n
        invariant |lowSame| == |comRep| == pi
        invariant forall c :: 0 <= c < pi ==> comRep[c] == plan.Barrier(c)
        invariant forall c :: 0 <= c < pi ==> lowSame[c] == plan.Same(c, c + 1)
      {
        var p := plan.paths[pi];
        var low := LowestSameLevel(p, plan.paths[pi + 1]);
        var com := low;
        while com > 0 && p[com - 1] !in plan.rept
          invariant 0 <= com <= low <= |p|
          invariant plan.ReptLevel(p, com) == plan.ReptLevel(p, low)
        {
          com := com - 1;
        }
        LevelsOf(plan, pi, com);
        lowSame := lowSame + [low];
        comRep := comRep + [com];
        pi := pi + 1;
      }
      LastBarrier(plan);
      lowSame := lowSame + [0];
      comRep := comRep + [0];
    }

    /** Passes 1 and 2: enter the barrier, and the least column for every level above it. */
    method EnterColumns(c: nat) returns (row: seq<int>)
      requires Levels() && c < |plan.paths|
      ensures Entered(plan, c, 0, row)
    {
      hide Plan.Valid, Plan.Common, Plan.Same, Plan.Barrier;
      var barrier := comRep[c];
      BarrierBounds(plan, c);
      row := seq(|plan.paths[c]| + 1, _ => -1);
      var li := 0;
      while li <= barrier
        invariant 0 <= li <= barrier + 1 && |row| == |plan.paths[c]| + 1
        invariant forall l :: 0 <= l < |row| ==> row[l] == if l < li then c + 1 else -1
      {
        row := row[li := c + 1];
        li := li + 1;
      }
      var fi: int := c;
      while fi != -1
        invariant -1 <= fi <= c
        invariant Entered(plan, c, fi + 1, row)
      {
        var com := GetCommonReptLevel(c, fi);
        EnterStep(plan, c, fi, row, com);
        if com > barrier { row := row[com := fi]; }
        fi := fi - 1;
      }
    }

    /** Pass 3: a level without entry takes the entry of the level below it. */
    method FillGaps(c: nat, row0: seq<int>) returns (row: seq<int>)
      requires Levels() && c < |plan.paths| && Entered(plan, c, 0, row0)
      ensures Filled(plan, c, 0, row)
    {
      var barrier := comRep[c];
      BarrierBounds(plan, c);
      row := row0;
      var li: int := |plan.paths[c]| - 1;
      FillTop(plan, c, row0);
      while li != -1 && li > barrier
        invariant -1 <= li < |plan.paths[c]|
        invariant |row| == |row0|
        invariant forall l :: 0 <= l <= li ==> row[l] == row0[l]
        invariant forall l :: li < l < |row| && l > barrier ==>
            row[l] == if l <= plan.Common(c, c) then plan.First(c, l) else -1
        invariant forall l :: 0 <= l <= barrier ==> row[l] == c + 1
      {
        FillStep(plan, c, row0, li);
        if row[li] == -1 { row := row[li := row[li + 1]]; }
        li := li - 1;
      }
    }

    /** Pass 4: only levels of repeated nodes keep their entry. */
    method EraseSingles(c: nat, row0: seq<int>) returns (row: seq<int>)
      requires Levels() && c < |plan.paths| && Filled(plan, c, 0, row0)
      ensures Erased(plan, c, |plan.paths[c]|, row)
    {
      row := row0;
      var si := 0;
      while si < |plan.paths[c]|
        invariant 0 <= si <= |plan.paths[c]|
        invariant Erased(plan, c, si, row)
      {
        if plan.paths[c][si] !in plan.rept { row := row[si + 1 := -1]; }
        si := si + 1;
      }
    }

    /** `initFSMTable`: copies the rows into one array, each padded to the longest. */
    method InitFSMTable(trans: seq<seq<int>>)
      requires forall c :: 0 <= c < |trans| ==> |trans[c]| <= maxSize
      modifies this`table
      ensures fresh(table) && table.Length == maxSize * |trans| && RowsIn(table[..], trans, |trans|, maxSize)
    {
      hide *;
      var n, size := |trans|, maxSize;
      NoRows(trans, size);
      var t := new int[size * n](_ => -1);
      var pidx, bgn := 0, 0;
      while pidx < n
        invariant 0 <= pidx <= n && bgn == size * pidx
        invariant forall i :: bgn <= i < t.Length ==> t[i] == -1
        invariant RowsIn(t[..], trans, pidx, size)
      {
        RowFits(size, pidx, n);
        ghost var before := t[..];
        CopyRow(t, bgn, trans[pidx]);
        RowAdded(before, t[..], trans, pidx, size);
        bgn := bgn + size;
        pidx := pidx + 1;
      }
      table := t;
    }

    /** `init`. */
    method Init(P: Plan)
      requires P.Valid() && TreePaths(P.paths) && P.paths != []
      requires forall c :: 0 <= c < |P.paths| ==> 0 < |P.paths[c]| < UINT_MAX
      modifies this
      ensures Valid() && plan == P && fresh(table)
    {
      hide Plan.Valid, Plan.Next, Plan.Barrier, Plan.Same, TreePaths, RowsIn, Transitions;
      plan := P;
      InitCommonLevel();
      var trans := InitTransTable();
      InitFSMTable(trans);
      RowsAreTransitions(plan, trans, maxSize, table[..]);
    }

    /** `initTransTable`: the rows, and the length of the longest. */
    method InitTransTable() returns (trans: seq<seq<int>>)
      requires Levels()
      modifies this`maxSize
      ensures |trans| == |plan.paths|
      ensures forall c :: 0 <= c < |plan.paths| ==> |trans[c]| == |plan.paths[c]| + 1 <= maxSize
      ensures forall c, r :: 0 <= c < |plan.paths| && 0 <= r <= |plan.paths[c]| ==> trans[c][r] == plan.Next(c, r)
    {
      hide Plan.Valid, Plan.Common, Plan.Same, Plan.Barrier, Plan.Next, Entered, Filled, Erased;
      maxSize := 0;
      trans := [];
      var pidx := 0;
      while pidx < |plan.paths|
        invariant 0 <= pidx <= |plan.paths| && |trans| == pidx
        invariant forall c :: 0 <= c < pidx ==> |trans[c]| == |plan.paths[c]| + 1 <= maxSize
        invariant forall c, r :: 0 <= c < pidx && 0 <= r <= |plan.paths[c]| ==> trans[c][r] == plan.Next(c, r)
      {
        var row := EnterColumns(pidx);
        row := FillGaps(pidx, row);
        row := EraseSingles(pidx, row);
        RowIsNext(plan, pidx, row);
        maxSize := if maxSize > |row| then maxSize else |row|;
        trans := trans + [row];
        pidx := pidx + 1;
      }
    }
  }

  /** Entering column fi keeps every entry the least column for its level. */
  lemma EnterStep(P: Plan, c: nat, fi: nat, row: seq<int>, com: nat)
    requires P.Valid() && fi <= c < |P.paths| && Entered(P, c, fi + 1, row) && com == P.Common(fi, c)
    ensures com < |row|
    ensures Entered(P, c, fi, if com > P.Barrier(c) then row[com := fi] else row)
  {
    hide Plan.Valid, Plan.Common, Plan.Barrier;
    CommonGrows(P, fi, c, c);
    BarrierBounds(P, c);
    if com > P.Barrier(c) {
      var row1 := row[com := fi];
      forall l | 0 <= l < |row1| && l > P.Barrier(c) && row1[l] != -1
        ensures fi <= row1[l] <= c && P.Common(row1[l], c) == l
        ensures forall g :: fi <= g < row1[l] ==> P.Common(g, c) != l
      {
      }
    }
  }

  lemma FillTop(P: Plan, c: nat, row: seq<int>)
    requires P.Valid() && c < |P.paths| && Entered(P, c, 0, row)
    ensures var l := |P.paths[c]|;
            l > P.Barrier(c) ==> row[l] == if l <= P.Common(c, c) then P.First(c, l) else -1
  {
    var l := |P.paths[c]|;
    BarrierBounds(P, c);
    if l > P.Barrier(c) && row[l] != -1 { EntryIsFirst(P, c, l, row[l]); }
  }

  lemma FillStep(P: Plan, c: nat, row: seq<int>, l: nat)
    requires P.Valid() && c < |P.paths| && Entered(P, c, 0, row) && P.Barrier(c) < l < |P.paths[c]|
    ensures row[l] != -1 ==> l <= P.Common(c, c) && row[l] == P.First(c, l)
    ensures row[l] == -1 && l <= P.Common(c, c) ==> l + 1 <= P.Common(c, c) && P.First(c, l) == P.First(c, l + 1)
  {
    if row[l] != -1 { EntryIsFirst(P, c, l, row[l]); }
    else if l <= P.Common(c, c) { FillGap(P, c, l); }
  }

  /** The four passes compute the closed form of the transition. */
  lemma RowIsNext(P: Plan, c: nat, row: seq<int>)
    requires P.Valid() && c < |P.paths| && Erased(P, c, |P.paths[c]|, row)
    ensures |row| == |P.paths[c]| + 1
    ensures forall r :: 0 <= r <= |P.paths[c]| ==> row[r] == P.Next(c, r)
  {
    forall r | 0 <= r <= |P.paths[c]|
      ensures row[r] == P.Next(c, r)
    {
      if P.Jumps(c, r) {
        P.SameSelf(c);
        P.ReptLevelMono(P.paths[c], r, |P.paths[c]|);
      }
    }
  }
}
