// A column that is created in the middle of a table: the items that stand in for what the column has
// missed, and when they are what striping the current record would have given.

module Alignment {
  import opened Wrappers
  import opened Bytes
  import opened Bits
  import opened Paths
  import opened Records
  import opened CabFormat
  import opened CabWriter

  function Nulls(n: nat, rep: nat, def: nat): (its: seq<Item>)
    ensures |its| == n
  {
    seq(n, _ => Item(rep, def, None))
  }

  // ---- What alignColumnWriter writes for the current record ----

  /** Elements already begun at one level: all but the current one get an item; the first item of all
      begins the record. */
  function LevelItems(out: nat, lvl: nat, first: bool): (its: seq<Item>)
    ensures |its| == out
  {
    if out == 0 then [] else [Item(if first then 0 else lvl, lvl, None)] + Nulls(out - 1, lvl, lvl)
  }

  /** `cnt[i]` is the appearance counter of the path's node i, up to and with its current element. */
  function Emitted(cnt: seq<nat>, idx: nat, first: bool): seq<Item>
    decreases |cnt| - idx
  {
    if idx >= |cnt| || cnt[idx] == 0 then []
    else LevelItems(cnt[idx] - 1, idx + 1, first) + Emitted(cnt, idx + 1, first && cnt[idx] == 1)
  }

  lemma EmittedStep(cnt: seq<nat>, idx: nat, first: bool, got: seq<Item>, total: seq<Item>)
    requires idx < |cnt| && cnt[idx] > 0
    requires got + Emitted(cnt, idx, first) == total
    ensures got + LevelItems(cnt[idx] - 1, idx + 1, first) + Emitted(cnt, idx + 1, first && cnt[idx] == 1) == total
  {
  }

  lemma NullsSnoc(n: nat, rep: nat, def: nat)
    ensures Nulls(n, rep, def) + [Item(rep, def, None)] == Nulls(n + 1, rep, def)
  {
  }

  /** `initColumnWriter` for the first record of a table that has the column, and `alignColumnWriter`.
      Earlier records of the block get one item each in the file; the items of the current record go to
      the text buffer `text`. */
  method AlignColumnWriter(meta: Meta, cap: nat, cnt: seq<nat>, root: nat, room: bool, expItems: nat)
    returns (c: CABWriter, text: seq<Item>)
    requires cap > 0 && cap % 8 == 0 && meta.path != [] && meta.RepWidth() <= 32 && meta.DefWidth() <= 32
    requires root > 0 && expItems > 0 && |cnt| == |meta.path|
    ensures fresh(c) && fresh(c.cab.Repr) && c.Valid() && c.meta == meta && c.cap == cap
    ensures c.start == CalcAlignBegin(root - 1, cap) <= root - 1
    ensures c.its == Nulls(root - 1 - c.start, 0, 0) && c.recdNum == root - 1
    ensures text == Emitted(cnt, 0, true)
  {
    hide CABWriter.Valid, Emitted, LevelItems, Meta.RepWidth, Meta.DefWidth, Fits;
    var recdIdx := root - 1;
    c := new CABWriter(meta, cap, recdIdx);
    AlignBelow(recdIdx, cap);
    TrivialFits(meta);
    var nullNum := recdIdx - CalcAlignBegin(recdIdx, cap);
    for i := 0 to nullNum
      invariant fresh(c) && fresh(c.cab.Repr) && c.Valid() && c.its == Nulls(i, 0, 0)
    {
      c.Write(Item(0, 0, None), room, expItems);
      NullsSnoc(i, 0, 0);
    }
    RecordsWritten(c, nullNum);
    text := AlignInRecord(cnt);
  }

  lemma AlignBelow(idx: nat, cap: nat)
    requires cap > 0
    ensures CalcAlignBegin(idx, cap) <= idx
  {
    ghost var q, r := idx / cap, idx % cap;
    assert idx == q * cap + r;
  }

  lemma TrivialFits(m: Meta)
    requires m.path != []
    ensures Fits(m, Item(0, 0, None))
  {
  }

  lemma RecordsWritten(c: CABWriter, n: nat)
    requires c.Valid() && c.its == Nulls(n, 0, 0)
    ensures c.recdNum == c.start + n
  {
    hide CABWriter.Holding;
    AllZero(n);
  }

  lemma {:induction false} AllZero(n: nat)
    ensures Zeroes(Nulls(n, 0, 0)) == n
  {
    if n > 0 {
      AllZero(n - 1);
      NullsSnoc(n - 1, 0, 0);
      ZeroesSnoc(Nulls(n - 1, 0, 0), Item(0, 0, None));
    }
  }

  /** The loop over the levels of the path. */
  method AlignInRecord(cnt: seq<nat>) returns (text: seq<Item>)
    ensures text == Emitted(cnt, 0, true)
  {
    hide Emitted, LevelItems;
    text := [];
    var first := true;
    var idx := 0;
    ghost var total := Emitted(cnt, 0, true);
    assert text + total == total;
    while idx < |cnt|
      invariant 0 <= idx <= |cnt|
      invariant text + Emitted(cnt, idx, first) == total
    {
      var nullNum := cnt[idx];
      if nullNum == 0 {
        NothingLeft(cnt, idx, first);
        return;
      }
      EmittedStep(cnt, idx, first, text, total);
      var outNum := nullNum - 1;
      ghost var items := LevelItems(outNum, idx + 1, first);
      if outNum == 0 {
        NoItems(idx + 1, first);
        assert text + [] == text;
        idx := idx + 1;
        continue;
      }
      var lvl := idx + 1;
      ghost var before, was := text, first;
      if first {
        text := text + [Item(0, lvl, None)];
        first, outNum := false, outNum - 1;
      }
      ghost var sofar := text;
      for i := 0 to outNum
        invariant text == sofar + Nulls(i, lvl, lvl)
      {
        NullsSnoc(i, lvl, lvl);
        text := text + [Item(lvl, lvl, None)];
      }
      ItemsDone(before, text, nullNum - 1, outNum, lvl, was);
      idx := idx + 1;
    }
    NothingLeft(cnt, idx, first);
  }

  lemma NothingLeft(cnt: seq<nat>, idx: nat, first: bool)
    requires idx >= |cnt| || cnt[idx] == 0
    ensures Emitted(cnt, idx, first) == []
  {
  }

  lemma NoItems(lvl: nat, first: bool)
    ensures LevelItems(0, lvl, first) == []
  {
  }

  lemma ItemsDone(before: seq<Item>, text: seq<Item>, out: nat, left: nat, lvl: nat, first: bool)
    requires out > 0 && left == if first then out - 1 else out
    requires text == before + (if first then [Item(0, lvl, None)] else []) + Nulls(left, lvl, lvl)
    ensures text == before + LevelItems(out, lvl, first)
  {
    if !first {
      assert Nulls(out, lvl, lvl) == [Item(lvl, lvl, None)] + Nulls(out - 1, lvl, lvl);
    }
  }

  // ---- What the column would have received ----

  /** The element of a field at index e. */
  function Nth(w: Value, e: nat): Value {
    if w.Rep? && e < |w.elems| then w.elems[e] else w
  }

  /** The repetition level that is due when element e of a field begins. */
  function DueAt(e: nat, L: nat, rep: nat): nat { if e == 0 then rep else L }

  /** `at[i]` is the index of the element of path node i that the generator is in when it meets the
      leaf of p for the first time. */
  ghost predicate Cursor(v: Value, p: Path, L: nat, at: seq<nat>)
    requires L < |p| == |at|
    decreases |p| - L
  {
    && v.Obj? && Find(v.members, p[L]).Some?
    && var w := Find(v.members, p[L]).value;
    && (if w.Rep? then at[L] < |w.elems| else at[L] == 0)
    && if L + 1 == |p| then at[L] == 0 && Nth(w, 0).Prim? else Cursor(Nth(w, at[L]), p, L + 1, at)
  }

  /** The counters at that moment: the leaf's own node has not been counted yet. */
  function Counters(at: seq<nat>): (cnt: seq<nat>)
    requires at != []
    ensures |cnt| == |at|
  {
    seq(|at|, i requires 0 <= i < |at| => if i + 1 < |at| then at[i] + 1 else 0)
  }

  /** Items of the first e elements of a field. */
  function Earlier(w: Value, e: nat, p: Path, L: nat, rep: nat): seq<Item>
    requires w.Rep? && e <= |w.elems| && L <= |p|
  {
    if e == 0 then [] else Earlier(w, e - 1, p, L, rep) + StripeElem(w.elems[e - 1], p, L, DueAt(e - 1, L, rep))
  }

  /** Items that striping puts in front of the leaf's first occurrence. */
  function Before(v: Value, p: Path, L: nat, at: seq<nat>, rep: nat): seq<Item>
    requires L < |p| == |at| && Cursor(v, p, L, at)
    decreases |p| - L
  {
    var w := Find(v.members, p[L]).value;
    var earlier := if w.Rep? then Earlier(w, at[L], p, L + 1, rep) else [];
    if L + 1 == |p| then earlier
    else earlier + Before(Nth(w, at[L]), p, L + 1, at, DueAt(at[L], L + 1, rep))
  }

  /** Repetition level of the leaf's first occurrence. */
  function Due(at: seq<nat>, L: nat, rep: nat): nat
    decreases |at| - L
  {
    if L >= |at| then rep else Due(at, L + 1, DueAt(at[L], L + 1, rep))
  }

  lemma {:induction false} EarlierPrefix(w: Value, e: nat, p: Path, L: nat, rep: nat)
    requires w.Rep? && e < |w.elems| && 0 < L <= |p|
    ensures StripeField(w, p, L, rep)
         == Earlier(w, e, p, L, rep) + (StripeElem(w.elems[e], p, L, DueAt(e, L, rep)) + StripeElems(w, e + 1, p, L))
  {
    hide StripeElem;
    if e > 0 {
      EarlierPrefix(w, e - 1, p, L, rep);
      Regroup(Earlier(w, e - 1, p, L, rep), StripeElem(w.elems[e - 1], p, L, DueAt(e - 1, L, rep)),
          StripeElems(w, e, p, L));
    }
  }

  lemma Regroup(a: seq<Item>, b: seq<Item>, c: seq<Item>)
    ensures a + b + c == a + (b + c)
  {
  }

  lemma Deeper(a: seq<Item>, b: seq<Item>, c: seq<Item>, t: seq<Item>)
    requires b <= c && a + c <= t
    ensures a + b <= t
  {
    assert a + b <= a + c;
  }

  /** Striping gives `its`, and then an item of the leaf at repetition level `rep`. */
  ghost predicate LeadsToLeaf(its: seq<Item>, rep: nat, p: Path, all: seq<Item>) {
    exists b :: its + [Item(rep, |p|, Some(b))] <= all
  }

  lemma LeadsDeeper(a: seq<Item>, its: seq<Item>, rep: nat, p: Path, part: seq<Item>, all: seq<Item>)
    requires LeadsToLeaf(its, rep, p, part) && a + part <= all
    ensures LeadsToLeaf(a + its, rep, p, all)
  {
    var b :| its + [Item(rep, |p|, Some(b))] <= part;
    Deeper(a, its + [Item(rep, |p|, Some(b))], part, all);
    Regroup(a, its, [Item(rep, |p|, Some(b))]);
  }

  lemma LeadsHere(a: seq<Item>, rep: nat, p: Path, b: Bytes, all: seq<Item>)
    requires a + [Item(rep, |p|, Some(b))] <= all
    ensures LeadsToLeaf(a, rep, p, all)
  {
  }

  /** `Before` is what its name says: striping gives these items, and then the leaf's. */
  lemma {:induction false} BeforePrefix(v: Value, p: Path, L: nat, at: seq<nat>, rep: nat)
    requires L < |p| == |at| && Cursor(v, p, L, at)
    ensures LeadsToLeaf(Before(v, p, L, at, rep), Due(at, L, rep), p, StripeObject(v, p, L, rep))
    decreases |p| - L
  {
    hide LeadsToLeaf, Earlier, StripeElems;
    var w := Find(v.members, p[L]).value;
    var e, x := at[L], Nth(w, at[L]);
    var due := DueAt(e, L + 1, rep);
    var earlier := if w.Rep? then Earlier(w, e, p, L + 1, rep) else [];
    ElementInField(w, e, p, L + 1, rep);
    if L + 1 == |p| {
      LeadsHere(earlier, due, p, x.bin, StripeObject(v, p, L, rep));
    } else {
      BeforePrefix(x, p, L + 1, at, due);
      LeadsDeeper(earlier, Before(x, p, L + 1, at, due), Due(at, L + 1, due), p, StripeElem(x, p, L + 1, due),
        StripeField(w, p, L + 1, rep));
    }
  }

  /** The items of element e behind those of the earlier ones. */
  lemma ElementInField(w: Value, e: nat, p: Path, L: nat, rep: nat)
    requires 0 < L <= |p| && if w.Rep? then e < |w.elems| else e == 0
    ensures (if w.Rep? then Earlier(w, e, p, L, rep) else []) + StripeElem(Nth(w, e), p, L, DueAt(e, L, rep))
         <= StripeField(w, p, L, rep)
  {
    hide StripeElem;
    if w.Rep? {
      EarlierPrefix(w, e, p, L, rep);
    }
  }

  // ---- When the two agree ----

  /** Nothing on the path was repeated before, from level L on. */
  ghost predicate NoneBefore(at: seq<nat>, L: nat) {
    forall i :: L <= i < |at| - 1 ==> at[i] == 0
  }

  /** At most one level of the path has earlier elements. */
  ghost predicate OneLevel(at: seq<nat>, L: nat) {
    forall i :: L <= i < |at| - 1 && at[i] > 0 ==> NoneBefore(at, i + 1)
  }

  /** The first e elements of a field have no member for the path's next node. */
  ghost predicate BareElems(w: Value, e: nat, p: Path, L: nat)
    requires w.Rep? && e <= |w.elems| && L < |p|
  {
    forall j :: 0 <= j < e ==> w.elems[j].Obj? && Find(w.elems[j].members, p[L]).None?
  }

  ghost predicate Bare(v: Value, p: Path, L: nat, at: seq<nat>)
    requires L < |p| == |at| && Cursor(v, p, L, at)
    decreases |p| - L
  {
    var w := Find(v.members, p[L]).value;
    L + 1 < |p| ==> (w.Rep? ==> BareElems(w, at[L], p, L + 1)) && Bare(Nth(w, at[L]), p, L + 1, at)
  }

  /** The content below the cursor fits the schema again. */
  lemma CursorFits(rept: set<Sign>, v: Value, p: Path, L: nat, at: seq<nat>)
    requires L + 1 < |p| == |at| && Cursor(v, p, L, at) && FitsObject(rept, v, p, L)
    ensures var w := Find(v.members, p[L]).value;
            && Nth(w, at[L]).Obj? && FitsObject(rept, Nth(w, at[L]), p, L + 1)
            && (w.Rep? ==> forall j :: 0 <= j < |w.elems| ==> w.elems[j].Obj?)
  {
    var w := Find(v.members, p[L]).value;
    assert FitsField(rept, w, p, L + 1);
    if w.Rep? && p[L] in rept {
      assert forall j :: 0 <= j < |w.elems| ==> FitsElem(rept, w.elems[j], p, L + 1);
    }
  }

  /** Behind an earlier element, an item is due at that element's level, which no deeper level's first
      item has: the two agree only when nothing else was repeated. */
  lemma {:induction false} LaterLevels(rept: set<Sign>, v: Value, p: Path, L: nat, at: seq<nat>, rep: nat)
    requires L < |p| == |at| && Cursor(v, p, L, at) && FitsObject(rept, v, p, L) && 0 < rep <= L
    ensures Emitted(Counters(at), L, false) == Before(v, p, L, at, rep) <==> NoneBefore(at, L)
    decreases |p| - L
  {
    var w := Find(v.members, p[L]).value;
    if L + 1 < |p| {
      CursorFits(rept, v, p, L, at);
      assert Counters(at)[L] == at[L] + 1;
      if at[L] == 0 {
        LaterLevels(rept, Nth(w, 0), p, L + 1, at, rep);
        StepBefore(at, L);
        NoStep(v, p, L, at, rep);
        NoItems(L + 1, false);
      } else {
        FirstDue(w, at[L], p, L + 1, rep);
        assert Emitted(Counters(at), L, false)[0].rep == L + 1;
        assert Before(v, p, L, at, rep)[0].rep == rep;
        assert at[L] != 0 && L < |at| - 1;
      }
    } else {
      assert Counters(at)[L] == 0;
      assert Before(v, p, L, at, rep) == [];
    }
  }

  lemma StepBefore(at: seq<nat>, L: nat)
    requires L + 1 < |at| && at[L] == 0
    ensures NoneBefore(at, L) <==> NoneBefore(at, L + 1)
    ensures OneLevel(at, L) <==> OneLevel(at, L + 1)
  {
  }

  /** The first element adds nothing in front of it. */
  lemma NoStep(v: Value, p: Path, L: nat, at: seq<nat>, rep: nat)
    requires L + 1 < |p| == |at| && Cursor(v, p, L, at) && at[L] == 0
    ensures Before(v, p, L, at, rep) == Before(Nth(Find(v.members, p[L]).value, 0), p, L + 1, at, rep)
  {
  }

  lemma {:induction false} FirstDue(w: Value, e: nat, p: Path, L: nat, rep: nat)
    requires w.Rep? && 0 < e <= |w.elems| && L <= |p|
    ensures Earlier(w, e, p, L, rep) != [] && Earlier(w, e, p, L, rep)[0].rep == rep
  {
    hide StripeElem;
    if e > 1 {
      FirstDue(w, e - 1, p, L, rep);
    }
  }

  /** Bare elements leave one item each, at their own level. */
  lemma {:induction false} BareItems(w: Value, e: nat, p: Path, L: nat)
    requires w.Rep? && e <= |w.elems| && L < |p| && BareElems(w, e, p, L)
    ensures Earlier(w, e, p, L, 0) == LevelItems(e, L, true)
  {
    if e > 0 {
      BareItems(w, e - 1, p, L);
      assert StripeElem(w.elems[e - 1], p, L, DueAt(e - 1, L, 0)) == [Item(DueAt(e - 1, L, 0), L, None)];
      LevelSnoc(e - 1, L);
    }
  }

  lemma LevelSnoc(e: nat, L: nat)
    ensures LevelItems(e + 1, L, true) == LevelItems(e, L, true) + [Item(DueAt(e, L, 0), L, None)]
  {
    if e > 0 {
      NullsSnoc(e - 1, L, L);
    }
  }

  lemma NotBare(v: Value, p: Path, L: nat, rep: nat)
    requires L < |p| && v.Obj? && Find(v.members, p[L]).Some?
    ensures StripeElem(v, p, L, rep)[0].def > L
  {
  }

  /** An element that has the path's next node leaves an item of a deeper level. */
  lemma {:induction false} DeeperItem(w: Value, e: nat, p: Path, L: nat) returns (k: nat)
    requires w.Rep? && e <= |w.elems| && L < |p| && !BareElems(w, e, p, L)
    requires forall j :: 0 <= j < e ==> w.elems[j].Obj?
    ensures k < e && k < |Earlier(w, e, p, L, 0)| && Earlier(w, e, p, L, 0)[k].def > L
  {
    hide StripeElem, LevelItems, Find;
    if BareElems(w, e - 1, p, L) {
      BareItems(w, e - 1, p, L);
      k := e - 1;
      NotBare(w.elems[k], p, L, DueAt(k, L, 0));
    } else {
      k := DeeperItem(w, e - 1, p, L);
    }
  }

  /** The items that are put in for the current record are those that striping gives exactly when at most
      one level of the path has earlier elements, and none of these has the next node of the path. */
  lemma {:induction false} AlignIff(rept: set<Sign>, v: Value, p: Path, L: nat, at: seq<nat>)
    requires L < |p| == |at| && Cursor(v, p, L, at) && FitsObject(rept, v, p, L)
    ensures Emitted(Counters(at), L, true) == Before(v, p, L, at, 0) <==> OneLevel(at, L) && Bare(v, p, L, at)
    decreases |p| - L
  {
    var w := Find(v.members, p[L]).value;
    if L + 1 < |p| {
      CursorFits(rept, v, p, L, at);
      assert Counters(at)[L] == at[L] + 1;
      if at[L] == 0 {
        AlignIff(rept, Nth(w, 0), p, L + 1, at);
        StepBefore(at, L);
        NoStep(v, p, L, at, 0);
        NoItems(L + 1, true);
      } else if BareElems(w, at[L], p, L + 1) {
        BareItems(w, at[L], p, L + 1);
        LaterLevels(rept, Nth(w, at[L]), p, L + 1, at, L + 1);
        OneLevelHere(v, p, L, at);
        SameTail(LevelItems(at[L], L + 1, true), Emitted(Counters(at), L + 1, false),
          Before(Nth(w, at[L]), p, L + 1, at, L + 1));
      } else {
        var k := DeeperItem(w, at[L], p, L + 1);
        assert Emitted(Counters(at), L, true)[k].def == L + 1;
        assert Before(v, p, L, at, 0)[k].def > L + 1;
      }
    } else {
      assert Counters(at)[L] == 0;
      assert Before(v, p, L, at, 0) == [];
    }
  }

  lemma SameTail(a: seq<Item>, b: seq<Item>, c: seq<Item>)
    ensures a + b == a + c <==> b == c
  {
    if a + b == a + c {
      assert b == (a + b)[|a|..] && c == (a + c)[|a|..];
    }
  }

  /** Behind a level with earlier elements, the condition is that no other level has any. */
  lemma OneLevelHere(v: Value, p: Path, L: nat, at: seq<nat>)
    requires L + 1 < |p| == |at| && Cursor(v, p, L, at) && at[L] > 0
    requires BareElems(Find(v.members, p[L]).value, at[L], p, L + 1)
    ensures OneLevel(at, L) && Bare(v, p, L, at) <==> NoneBefore(at, L + 1)
  {
    if NoneBefore(at, L + 1) {
      BareBelow(Nth(Find(v.members, p[L]).value, at[L]), p, L + 1, at);
    }
  }

  lemma {:induction false} BareBelow(v: Value, p: Path, L: nat, at: seq<nat>)
    requires L < |p| == |at| && Cursor(v, p, L, at) && NoneBefore(at, L)
    ensures Bare(v, p, L, at)
    decreases |p| - L
  {
    if L + 1 < |p| {
      BareBelow(Nth(Find(v.members, p[L]).value, at[L]), p, L + 1, at);
    }
  }

  /** Two repeated levels: {1: [{}, {2: [{}, {3: leaf}]}]}. */
  lemma TwoLevelsWrong()
    ensures var v := Obj([Member(1, Rep([Obj([]), Obj([Member(2, Rep([Obj([]), Obj([Member(3, Prim([7]))])]))])]))]);
            && Cursor(v, [1, 2, 3], 0, [1, 1, 0]) && FitsObject({1, 2}, v, [1, 2, 3], 0)
            && Emitted(Counters([1, 1, 0]), 0, true) != Before(v, [1, 2, 3], 0, [1, 1, 0], 0)
  {
    var v := Obj([Member(1, Rep([Obj([]), Obj([Member(2, Rep([Obj([]), Obj([Member(3, Prim([7]))])]))])]))]);
    var at: seq<nat> := [1, 1, 0];
    assert at[1] > 0 && !NoneBefore(at, 1);
    AlignIff({1, 2}, v, [1, 2, 3], 0, at);
  }

  /** One repeated level, but its earlier element has the path's next node: {1: [{2: [{}]}, {2: [{3: leaf}]}]}. */
  lemma DeeperContentWrong()
    ensures var v := Obj([Member(1, Rep([Obj([Member(2, Rep([Obj([])]))]),
        Obj([Member(2, Rep([Obj([Member(3, Prim([7]))])]))])]))]);
            && Cursor(v, [1, 2, 3], 0, [1, 0, 0]) && FitsObject({1, 2}, v, [1, 2, 3], 0)
            && Emitted(Counters([1, 0, 0]), 0, true) != Before(v, [1, 2, 3], 0, [1, 0, 0], 0)
  {
    var w := Rep([Obj([Member(2, Rep([Obj([])]))]), Obj([Member(2, Rep([Obj([Member(3, Prim([7]))])]))])]);
    var v := Obj([Member(1, w)]);
    assert !BareElems(w, 1, [1, 2, 3], 1) by {
      assert Find(w.elems[0].members, 2) == Some(Rep([Obj([])]));
    }
    AlignIff({1, 2}, v, [1, 2, 3], 0, [1, 0, 0]);
  }
}
