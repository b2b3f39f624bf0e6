// The stored form of one block of a column (a CAB): repetition levels and definition levels as packed
// bit vectors, then the values.  A block without values keeps its levels only, a block of items that
// say nothing keeps no bytes at all.

module CabFormat {
  import opened Wrappers
  import opened Bytes
  import opened Bits
  import opened Paths
  import opened Records

  // ---- Data types of leaves ----

  /** A fixed number of bytes with a pattern that fills unused places, or text ended by NUL. */
  datatype DataType = Fixed(nil: Bytes) | Text {
    predicate Holds(v: Bytes) {
      match this
      case Fixed(_) => |v| == |nil|
      case Text => v != [] && v[|v| - 1] == 0 && 0 !in v[..|v| - 1]
    }

    /** Bytes that stand for a place in the value array. */
    function Place(v: Option<Bytes>): Bytes {
      match v
      case Some(b) => b
      case None => if Fixed? then nil else []
    }
  }

  // ---- How repetition levels are stored ----

  datatype ReptType = RepeatNone | RepeatSingle(level: nat) | RepeatMulti(max: nat) {
    /** Largest stored value. */
    function ReptBits(): nat {
      match this
      case RepeatNone => 0
      case RepeatSingle(_) => 1
      case RepeatMulti(m) => m
    }

    function Encode(rep: nat): nat {
      match this
      case RepeatNone => 0
      case RepeatSingle(l) => if l == rep then 1 else 0
      case RepeatMulti(_) => rep
    }

    function Decode(bin: nat): nat {
      match this
      case RepeatNone => 0
      case RepeatSingle(l) => if bin != 0 then l else 0
      case RepeatMulti(_) => bin
    }
  }

  /** `getRepeatedNumber` over the first L levels of a path. */
  function ReptNumber(rept: set<Sign>, p: Path, L: nat): nat
    requires L <= |p|
  {
    if L == 0 then 0 else ReptNumber(rept, p, L - 1) + (if p[L - 1] in rept then 1 else 0)
  }

  /** The repetition type of a column: by the number of repeated nodes, the deepest of which gives the
      largest level. */
  function ReptTypeOf(rept: set<Sign>, p: Path): ReptType {
    var n, max := ReptNumber(rept, p, |p|), Plan([p], rept).ReptLevel(p, |p|);
    if n == 0 then RepeatNone else if n == 1 then RepeatSingle(max) else RepeatMulti(max)
  }

  /** Repetition levels that occur in a column: 0 and the levels of its repeated nodes. */
  predicate Level(rept: set<Sign>, p: Path, r: nat) {
    r == 0 || (r <= |p| && p[r - 1] in rept)
  }

  lemma {:induction false} NoneRepeated(rept: set<Sign>, p: Path, L: nat, r: nat)
    requires 0 < r <= L <= |p| && p[r - 1] in rept
    ensures ReptNumber(rept, p, L) > 0
    ensures r <= Plan([p], rept).ReptLevel(p, L)
    ensures ReptNumber(rept, p, L) == 1 ==> r == Plan([p], rept).ReptLevel(p, L)
  {
    if r < L {
      NoneRepeated(rept, p, L - 1, r);
    }
  }

  /** Every level of the column survives its stored form, and the stored forms of 0 and of the other
      levels stay apart. */
  lemma DecodeEncode(rept: set<Sign>, p: Path, r: nat)
    requires Level(rept, p, r)
    ensures var t := ReptTypeOf(rept, p);
            && t.Decode(t.Encode(r)) == r && t.Encode(r) <= t.ReptBits() && (t.Encode(r) == 0 <==> r == 0)
  {
    if r > 0 {
      NoneRepeated(rept, p, |p|, r);
    } else if ReptNumber(rept, p, |p|) == 1 {
      SomeRepeated(rept, p, |p|);
    }
  }

  lemma {:induction false} SomeRepeated(rept: set<Sign>, p: Path, L: nat)
    requires L <= |p| && ReptNumber(rept, p, L) > 0
    ensures Plan([p], rept).ReptLevel(p, L) > 0
  {
    if p[L - 1] !in rept { SomeRepeated(rept, p, L - 1); }
  }

  /** What a reader and a writer know of their column (CABMeta and the RepetitionType). */
  datatype Meta = Meta(rept: set<Sign>, path: Path, dt: DataType) {
    function Rept(): ReptType { ReptTypeOf(rept, path) }

    function MaxDef(): nat { |path| }

    function RepWidth(): nat { UsedBits(Rept().ReptBits()) }

    function DefWidth(): nat { UsedBits(MaxDef()) }
  }

  /** Positions of the repeated nodes among the first L nodes of a path. */
  function Repeated(rept: set<Sign>, p: Path, L: nat): set<nat>
    requires L <= |p|
  {
    set i: nat | i < L && p[i] in rept
  }

  lemma {:induction false} RepeatedCount(rept: set<Sign>, p: Path, L: nat)
    requires L <= |p|
    ensures |Repeated(rept, p, L)| == ReptNumber(rept, p, L)
    ensures var max := Plan([p], rept).ReptLevel(p, L);
            && (forall i :: i in Repeated(rept, p, L) ==> i + 1 <= max)
            && (Repeated(rept, p, L) != {} ==> max > 0 && max - 1 in Repeated(rept, p, L))
  {
    if L > 0 {
      RepeatedCount(rept, p, L - 1);
      var front := Repeated(rept, p, L - 1);
      assert Repeated(rept, p, L) == if p[L - 1] in rept then front + {L - 1} else front;
    } else {
      assert Repeated(rept, p, 0) == {};
    }
  }

  /** How many bits a level takes.  A column that is never repeated has no repetition bits, and one with a single
      repeated node has one bit; otherwise they hold the largest repetition level, and no fewer bits would.  The
      bits of a definition level hold the depth of the leaf. */
  lemma LevelWidths(m: Meta)
    ensures var R := Repeated(m.rept, m.path, |m.path|);
            && (R == {} ==> m.RepWidth() == 0)
            && (|R| == 1 ==> m.RepWidth() == 1)
            && (|R| > 1 ==> forall w: nat :: m.RepWidth() <= w <==> forall i :: i in R ==> i + 1 < Pow2(w))
    ensures forall w: nat :: m.DefWidth() <= w <==> |m.path| < Pow2(w)
  {
    var R, max := Repeated(m.rept, m.path, |m.path|), Plan([m.path], m.rept).ReptLevel(m.path, |m.path|);
    RepeatedCount(m.rept, m.path, |m.path|);
    assert UsedBits(0) == 0 && UsedBits(1) == 1;
    hide UsedBits, Pow2, Repeated;
    forall w: nat
      ensures m.DefWidth() <= w <==> |m.path| < Pow2(w)
      ensures UsedBits(max) <= w <==> max < Pow2(w)
    {
      UsedBitsLeast(|m.path|, w);
      UsedBitsLeast(max, w);
    }
  }

  /** What is stored for a repetition level: one bit for a column with a single repeated node, else the level. */
  lemma StoredLevel(rept: set<Sign>, p: Path, r: nat)
    requires Level(rept, p, r)
    ensures var R := Repeated(rept, p, |p|);
            && (|R| == 1 ==> ReptTypeOf(rept, p).Encode(r) == if r > 0 then 1 else 0)
            && (|R| != 1 ==> ReptTypeOf(rept, p).Encode(r) == r)
  {
    RepeatedCount(rept, p, |p|);
    if r > 0 {
      NoneRepeated(rept, p, |p|, r);
    }
  }

  /** An item that can be written to the column. */
  ghost predicate Fits(m: Meta, it: Item) {
    && Level(m.rept, m.path, it.rep)
    && it.rep <= it.def <= |m.path|
    && (it.val.Some? <==> it.def == |m.path|)
    && (it.val.Some? ==> m.dt.Holds(it.val.value))
  }

  ghost predicate AllFit(m: Meta, its: seq<Item>) {
    m.path != [] && forall i :: 0 <= i < |its| ==> Fits(m, its[i])
  }

  // ---- Counters of a block ----

  datatype BlockType = Crucial | AllNull | Trivial

  datatype ItemInfo = ItemInfo(bgnRecd: nat, recdNum: nat, itemNum: nat, nullNum: nat, trivNum: nat) {
    function GetType(): BlockType {
      if nullNum != itemNum then Crucial else if trivNum != itemNum then AllNull else Trivial
    }

    /** `CABItemInfo::update`. */
    function Update(rep: nat, def: nat, maxDef: nat): ItemInfo {
      ItemInfo(bgnRecd,
               recdNum + (if rep == 0 then 1 else 0),
               itemNum + 1,
               nullNum + (if def < maxDef then 1 else 0),
               trivNum + (if def == 0 && rep == 0 then 1 else 0))
    }
  }

  /** Counters after the items have been written, one after the other. */
  function Counted(m: Meta, bgn: nat, its: seq<Item>): ItemInfo {
    if its == [] then ItemInfo(bgn, 0, 0, 0, 0)
    else
      var it := its[|its| - 1];
      Counted(m, bgn, its[..|its| - 1]).Update(m.Rept().Encode(it.rep), it.def, m.MaxDef())
  }

  predicate IsTrivial(it: Item) { it.rep == 0 && it.def == 0 }

  /** Number of records that begin in the items. */
  function Zeroes(its: seq<Item>): nat {
    if its == [] then 0 else Zeroes(its[..|its| - 1]) + (if its[|its| - 1].rep == 0 then 1 else 0)
  }

  /** What the counters tell about the items. */
  lemma {:induction false} CountedFacts(m: Meta, bgn: nat, its: seq<Item>)
    requires AllFit(m, its)
    ensures var c := Counted(m, bgn, its);
            && c.bgnRecd == bgn && c.itemNum == |its| && c.recdNum == Zeroes(its)
            && c.trivNum <= c.nullNum <= c.itemNum
            && (c.nullNum == c.itemNum <==> forall i :: 0 <= i < |its| ==> its[i].def < |m.path|)
            && (c.trivNum == c.itemNum <==> forall i :: 0 <= i < |its| ==> IsTrivial(its[i]))
  {
    if its != [] {
      var front, it := its[..|its| - 1], its[|its| - 1];
      assert AllFit(m, front) && Fits(m, it);
      CountedFacts(m, bgn, front);
      DecodeEncode(m.rept, m.path, it.rep);
      assert forall i :: 0 <= i < |front| ==> its[i] == front[i];
    }
  }

  /** Indexes of the items without a value, and of those that say nothing. */
  function Nulls(m: Meta, its: seq<Item>): set<nat> {
    set i: nat | i < |its| && its[i].def < |m.path|
  }

  function Trivials(its: seq<Item>): set<nat> {
    set i: nat | i < |its| && its[i].rep == 0 && its[i].def == 0
  }

  lemma NullsSnoc(m: Meta, front: seq<Item>, it: Item)
    ensures |Nulls(m, front + [it])| == |Nulls(m, front)| + if it.def < |m.path| then 1 else 0
  {
    var n := |front|;
    assert Nulls(m, front + [it]) == Nulls(m, front) + if it.def < |m.path| then {n} else {};
  }

  lemma TrivialsSnoc(front: seq<Item>, it: Item)
    ensures |Trivials(front + [it])| == |Trivials(front)| + if it.rep == 0 && it.def == 0 then 1 else 0
  {
    var n := |front|;
    assert Trivials(front + [it]) == Trivials(front) + if it.rep == 0 && it.def == 0 then {n} else {};
  }

  /** The counters are numbers of items of each kind. */
  lemma {:induction false} CountedExact(m: Meta, bgn: nat, its: seq<Item>)
    requires AllFit(m, its)
    ensures var c := Counted(m, bgn, its);
            c.itemNum == |its| && c.nullNum == |Nulls(m, its)| && c.trivNum == |Trivials(its)|
  {
    if its == [] {
      assert Nulls(m, its) == {} && Trivials(its) == {};
    } else {
      var front, it := its[..|its| - 1], its[|its| - 1];
      assert AllFit(m, front) && Fits(m, it) && its == front + [it];
      CountedExact(m, bgn, front);
      DecodeEncode(m.rept, m.path, it.rep);
      NullsSnoc(m, front, it);
      TrivialsSnoc(front, it);
      hide ReptTypeOf, Fits, Nulls, Trivials;
    }
  }

  /** A block is crucial iff it has a value, and trivial iff no item of it says anything. */
  lemma TypeFacts(m: Meta, bgn: nat, its: seq<Item>)
    requires AllFit(m, its)
    ensures var t := Counted(m, bgn, its).GetType();
            && (t == Crucial <==> exists i :: 0 <= i < |its| && its[i].val.Some?)
            && (t == Trivial <==> forall i :: 0 <= i < |its| ==> IsTrivial(its[i]))
  {
    CountedFacts(m, bgn, its);
    assert forall i :: 0 <= i < |its| ==> Fits(m, its[i]);
    if Counted(m, bgn, its).GetType() == Crucial {
      var i :| 0 <= i < |its| && its[i].def >= |m.path|;
      assert its[i].val.Some?;
    }
  }
}
