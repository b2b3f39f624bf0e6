// What becomes of a bit vector that is appended to after it was opened for reading.
//
// `init2read` computes where the next word begins with the arguments of its alignment swapped.  The words
// that `append` then opens may hold values already, and what lies in front of them may not have been cleared.

module BitResume {
  import opened Bytes
  import opened Bits
  import opened BitVectors

  /** The memory and the next word after a number of appends. */
  function AppendsMem(m: Bits, at: nat, cap: nat, used: nat, w: nat, next: nat, more: seq<nat>): (r: (Bits, nat))
    requires at + cap <= |m| && used + Total(w, |more|) <= cap
    ensures |r.0| == |m|
  {
    if more == [] then (m, next)
    else
      var n := |more| - 1;
      var (p, q) := AppendsMem(m, at, cap, used, w, next, more[..n]);
      AppendMem(p, at, cap, used + Total(w, n), w, q, more[n])
  }

  // ---- Which append opens which word ----

  /** Words that the first n appends open. */
  function Opened(used: nat, w: nat, next: nat, n: nat): (c: nat)
    ensures c <= n
  {
    if n == 0 then 0
    else
      var c := Opened(used, w, next, n - 1);
      if used + Total(w, n) > next + UNIT * c then c + 1 else c
  }

  /** The append that opens the c-th word: the first one that reaches behind the words before it, but each
      opens one word only. */
  function StepOf(used: nat, w: nat, next: nat, c: nat): nat
    requires w > 0
  {
    var x := next + UNIT * c;
    var first := if x < used then 0 else (x - used) / w;
    if first < c then c else first
  }

  /** `first` in `StepOf` is the first append whose value ends behind x. */
  lemma FirstBehind(used: nat, w: nat, x: nat, n: nat)
    requires w > 0
    ensures (if x < used then 0 else (x - used) / w) <= n <==> used + Total(w, n + 1) > x
  {
    TotalIs(w, n + 1);
    if used <= x {
      QuotientBelow(x - used, w, n + 1);
    }
  }

  lemma QuotientBelow(a: nat, w: nat, n: nat)
    requires w > 0
    ensures a / w < n <==> a < w * n
  {
    var q, r := a / w, a % w;
    assert a == w * q + r;
    if q < n {
      assert w * (q + 1) <= w * n by { MulMono(w, q + 1, n); }
    } else {
      MulMono(w, n, q);
    }
  }

  lemma MulMono(w: nat, a: nat, b: nat)
    requires a <= b
    ensures w * a <= w * b
  {
    assert w * (b - a) >= 0;
  }

  lemma StepGrows(used: nat, w: nat, next: nat, c: nat)
    requires 0 < w <= 32
    ensures StepOf(used, w, next, c) < StepOf(used, w, next, c + 1)
  {
    var x := next + UNIT * c;
    if used <= x {
      var a := x - used;
      assert a / w < (a + UNIT) / w by {
        var q := a / w;
        assert a < w * (q + 1) by { QuotientBelow(a, w, q + 1); }
        assert w * (q + 1) == w * q + w;
        if (a + UNIT) / w < q + 1 {
          QuotientBelow(a + UNIT, w, q + 1);
          QuotientBelow(a, w, q);
        }
      }
      assert next + UNIT * (c + 1) - used == a + UNIT;
    }
  }

  lemma {:induction false} StepMono(used: nat, w: nat, next: nat, c: nat, d: nat)
    requires 0 < w <= 32 && c <= d
    ensures StepOf(used, w, next, c) + (d - c) <= StepOf(used, w, next, d)
  {
    if c < d {
      StepMono(used, w, next, c, d - 1);
      StepGrows(used, w, next, d - 1);
    }
  }

  /** The words opened by n appends are those whose step comes before n. */
  lemma {:induction false} OpenedIff(used: nat, w: nat, next: nat, n: nat, c: nat)
    requires 0 < w <= 32
    ensures c < Opened(used, w, next, n) <==> StepOf(used, w, next, c) < n
  {
    hide StepOf;
    if n > 0 {
      var o := Opened(used, w, next, n - 1);
      OpenedIff(used, w, next, n - 1, c);
      OpenedIff(used, w, next, n - 1, o);
      StepAt(used, w, next, n - 1, o);
      if o < c { StepMono(used, w, next, o, c); }
    }
  }

  lemma StepAt(used: nat, w: nat, next: nat, n: nat, o: nat)
    requires w > 0 && o <= n
    ensures StepOf(used, w, next, o) <= n <==> used + Total(w, n + 1) > next + UNIT * o
  {
    FirstBehind(used, w, next + UNIT * o, n);
  }

  // ---- One bit through all appends ----

  /** Bits that are cleared at the front of a word whose opening begins at x. */
  function Span(cap: nat, x: nat): nat {
    if x + UNIT <= cap then UNIT else if x < cap then cap - x else 0
  }

  /** The number of the word that bit k lies in, counted from the first one to be opened. */
  function WordNo(next: nat, k: nat): int { k / UNIT - next / UNIT }

  /** Bit k is cleared by one of the first n appends. */
  predicate Cleared(used: nat, w: nat, next: nat, cap: nat, n: nat, k: nat)
    requires w > 0
  {
    var c := WordNo(next, k);
    c >= 0 && StepOf(used, w, next, c) < n && k % UNIT < Span(cap, next + UNIT * c)
  }

  /** Bit k belongs to a value that is appended after bit k was cleared, or by the same call. */
  predicate Behind(used: nat, w: nat, next: nat, k: nat)
    requires w > 0
  {
    var c := WordNo(next, k);
    c >= 0 && used + Total(w, StepOf(used, w, next, c)) <= k
  }

  /** Bit k after n appends of the packed values a, having been b. */
  predicate BitAfter(b: bool, a: Bits, used: nat, w: nat, next: nat, cap: nat, n: nat, k: nat)
    requires w > 0 && |a| == Total(w, n)
  {
    var put := used <= k < used + Total(w, n) && a[k - used];
    if Cleared(used, w, next, cap, n, k) then Behind(used, w, next, k) && put else b || put
  }

  /** Bits that are cleared before a value that ends at bit `end` is appended. */
  predicate OpensAt(cap: nat, end: nat, next: nat, k: nat)
    requires end <= cap
  {
    end > next && WordAt(next) <= k < WordAt(next) + OpenBits(cap, next)
  }

  lemma PutBit(m: Bits, pos: nat, b: Bits, i: nat)
    requires pos + |b| <= |m| && i < |m|
    ensures Put(m, pos, b)[i] == if pos <= i < pos + |b| then b[i - pos] else m[i]
  {
  }

  lemma PutOrBit(m: Bits, pos: nat, b: Bits, i: nat)
    requires pos + |b| <= |m| && i < |m|
    ensures PutOr(m, pos, b)[i] == (m[i] || (pos <= i < pos + |b| && b[i - pos]))
  {
    hide Put;
    PutBit(m, pos, Or(m[pos..pos + |b|], b), i);
  }

  lemma OpenBit(m: Bits, at: nat, cap: nat, used: nat, w: nat, next: nat, k: nat)
    requires at + cap <= |m| && used + w <= cap && k < cap
    ensures OpenMem(m, at, cap, used, w, next).0[at + k] == (m[at + k] && !OpensAt(cap, used + w, next, k))
  {
    hide Put, WordAt;
    if used + w > next {
      PutBit(m, at + WordAt(next), Zeros(OpenBits(cap, next)), at + k);
    }
  }

  /** One append, bit by bit. */
  lemma OneAppend(m: Bits, at: nat, cap: nat, used: nat, w: nat, next: nat, val: nat, k: nat)
    requires at + cap <= |m| && used + w <= cap && k < cap
    ensures var (r, q) := AppendMem(m, at, cap, used, w, next, val);
            q == (if used + w > next then next + UNIT else next)
            && r[at + k] == ((m[at + k] && !OpensAt(cap, used + w, next, k))
                             || (used <= k < used + w && ToBits(val, w)[k - used]))
  {
    hide ToBits, PutOr, OpensAt, Put;
    OpenBit(m, at, cap, used, w, next, k);
    var (o, q) := OpenMem(m, at, cap, used, w, next);
    PutOrBit(o, at + used, ToBits(val, w), at + k);
  }

  lemma {:induction false} AppendsNext(m: Bits, at: nat, cap: nat, used: nat, w: nat, next: nat, more: seq<nat>)
    requires at + cap <= |m| && used + Total(w, |more|) <= cap
    ensures AppendsMem(m, at, cap, used, w, next, more).1 == next + UNIT * Opened(used, w, next, |more|)
  {
    if more != [] {
      AppendsNext(m, at, cap, used, w, next, more[..|more| - 1]);
    }
  }

  /** The word that n + 1 appends open last, and the others. */
  lemma ClearedStep(used: nat, w: nat, next: nat, cap: nat, n: nat, k: nat)
    requires 0 < w <= 32 && used + Total(w, n + 1) <= cap
    ensures var here := OpensAt(cap, used + Total(w, n + 1), next + UNIT * Opened(used, w, next, n), k);
            && (Cleared(used, w, next, cap, n + 1, k) <==> here || Cleared(used, w, next, cap, n, k))
            && (here ==> !Cleared(used, w, next, cap, n, k) && WordNo(next, k) >= 0
                         && StepOf(used, w, next, WordNo(next, k)) == n)
  {
    var o, c := Opened(used, w, next, n), WordNo(next, k);
    if c >= 0 {
      OpenedIff(used, w, next, n, c);
      OpenedIff(used, w, next, n + 1, c);
    }
    hide StepOf, Total;
    WordIs(next, o, k);
  }

  lemma WordIs(next: nat, o: nat, k: nat)
    ensures WordAt(next + UNIT * o) <= k < WordAt(next + UNIT * o) + UNIT <==> WordNo(next, k) == o
    ensures WordNo(next, k) == o ==> k - WordAt(next + UNIT * o) == k % UNIT
  {
    assert (next + UNIT * o) / UNIT == next / UNIT + o;
  }

  lemma BehindEarlier(used: nat, w: nat, next: nat, n: nat, k: nat)
    requires w > 0 && WordNo(next, k) >= 0 && StepOf(used, w, next, WordNo(next, k)) <= n
    ensures used + Total(w, n) <= k ==> Behind(used, w, next, k)
  {
    TotalMono(w, StepOf(used, w, next, WordNo(next, k)), n);
  }

  /** Every bit of the vector after any number of appends, whatever the memory held. */
  lemma {:induction false} AppendsBit(m: Bits, at: nat, cap: nat, used: nat, w: nat, next: nat, more: seq<nat>, k: nat)
    requires at + cap <= |m| && used + Total(w, |more|) <= cap && 0 < w <= 32 && k < cap
    ensures |Pack(more, w)| == Total(w, |more|)
    ensures AppendsMem(m, at, cap, used, w, next, more).0[at + k]
            == BitAfter(m[at + k], Pack(more, w), used, w, next, cap, |more|, k)
  {
    hide AppendMem, BitAfter, ToBits, OpensAt, Opened;
    PackLength(more, w);
    if more == [] {
      NoAppends(m[at + k], used, w, next, cap, k);
    } else {
      var n := |more| - 1;
      var front := more[..n];
      AppendsBit(m, at, cap, used, w, next, front, k);
      AppendsNext(m, at, cap, used, w, next, front);
      PackLength(front, w);
      var (p, q) := AppendsMem(m, at, cap, used, w, next, front);
      OneAppend(p, at, cap, used + Total(w, n), w, q, more[n], k);
      BitStep(m[at + k], Pack(front, w), ToBits(more[n], w), used, w, next, cap, n, k);
    }
  }

  lemma NoAppends(b: bool, used: nat, w: nat, next: nat, cap: nat, k: nat)
    requires w > 0
    ensures BitAfter(b, [], used, w, next, cap, 0, k) == b
  {
  }

  lemma BitStep(b: bool, a: Bits, v: Bits, used: nat, w: nat, next: nat, cap: nat, n: nat, k: nat)
    requires 0 < w <= 32 && |a| == Total(w, n) && |v| == w && used + Total(w, n + 1) <= cap
    ensures Total(w, n + 1) == Total(w, n) + w
    ensures var from := used + Total(w, n);
            BitAfter(b, a + v, used, w, next, cap, n + 1, k) ==
            ((BitAfter(b, a, used, w, next, cap, n, k)
              && !OpensAt(cap, from + w, next + UNIT * Opened(used, w, next, n), k))
             || (from <= k < from + w && v[k - from]))
  {
    ClearedStep(used, w, next, cap, n, k);
    if WordNo(next, k) >= 0 && StepOf(used, w, next, WordNo(next, k)) <= n {
      BehindEarlier(used, w, next, n, k);
    }
    hide StepOf, OpensAt, Opened;
  }

  // ---- When the appended vector is right ----

  /** Of the bits p that the vector ought to have, none that is set is cleared after it was put there, and
      behind the `used` stored ones, where nothing is cleared, no bit of the memory b shows through. */
  ghost predicate Undisturbed(b: Bits, p: Bits, used: nat, w: nat, next: nat, cap: nat, n: nat)
    requires w > 0 && |b| == |p|
  {
    forall k: nat | k < |p| ::
      if Cleared(used, w, next, cap, n, k) then p[k] ==> Behind(used, w, next, k)
      else used <= k && b[k] ==> p[k]
  }

  /** A vector of stored values in memory that has room for n more. */
  ghost predicate Stored(m: Bits, at: nat, cap: nat, w: nat, vals: seq<nat>, n: nat) {
    && 0 < w <= 32 && at + cap <= |m| && Total(w, |vals|) + Total(w, n) <= cap
    && m[at..at + Total(w, |vals|)] == Pack(vals, w)
  }

  lemma TotalPlus(w: nat, a: nat, b: nat)
    ensures Total(w, a) + Total(w, b) == Total(w, a + b)
  {
    TotalIs(w, a);
    TotalIs(w, b);
    TotalIs(w, a + b);
    assert w * a + w * b == w * (a + b);
  }

  /** Appending gives the packed values, stored and new, exactly when they are undisturbed: for every memory,
      every capacity, every place of the next word and any number of values that fit. */
  lemma AppendedIff(m: Bits, at: nat, cap: nat, w: nat, next: nat, vals: seq<nat>, more: seq<nat>)
    requires Stored(m, at, cap, w, vals, |more|)
    ensures var used := Total(w, |vals|);
            var end := at + used + Total(w, |more|);
            var p := Pack(vals + more, w);
            |p| == end - at
            && (AppendsMem(m, at, cap, used, w, next, more).0[at..end] == p
                <==> Undisturbed(m[at..end], p, used, w, next, cap, |more|))
  {
    hide AppendsMem, Pack, Total, Cleared, Behind;
    var used, n := Total(w, |vals|), |more|;
    var p, b := Pack(vals + more, w), m[at..at + used + Total(w, n)];
    var r := AppendsMem(m, at, cap, used, w, next, more).0;
    PackConcat(vals, more, w);
    PackLength(vals, w);
    PackLength(more, w);
    forall k: nat | k < |p|
      ensures r[at..at + |p|][k] == r[at + k] == BitAfter(b[k], Pack(more, w), used, w, next, cap, n, k)
      ensures k < used ==> b[k] == p[k]
      ensures k >= used ==> p[k] == Pack(more, w)[k - used]
    {
      AppendsBit(m, at, cap, used, w, next, more, k);
      if k < used { assert b[k] == m[at..at + used][k]; }
    }
    BitsAgree(r[at..at + |p|], b, p, Pack(more, w), used, w, next, cap, n);
  }

  lemma BitsAgree(r: Bits, b: Bits, p: Bits, a: Bits, used: nat, w: nat, next: nat, cap: nat, n: nat)
    requires w > 0 && |r| == |b| == |p| == used + Total(w, n) && |a| == Total(w, n)
    requires forall k: nat | k < |p| :: r[k] == BitAfter(b[k], a, used, w, next, cap, n, k)
    requires forall k: nat | k < |p| :: if k < used then b[k] == p[k] else p[k] == a[k - used]
    ensures r == p <==> Undisturbed(b, p, used, w, next, cap, n)
  {
    hide Cleared, Total;
    forall k: nat | k < |p|
      ensures r[k] == p[k] <==> if Cleared(used, w, next, cap, n, k) then p[k] ==> Behind(used, w, next, k)
                                else used <= k && b[k] ==> p[k]
    {
    }
  }

  // ---- After a vector was read ----

  /** The next word that `init2read` computes is right, or is never reached. */
  predicate Resumable(used: nat, end: nat) {
    0 < used <= 64 && (64 % used == 0 || end <= NextAfterRead(used))
  }

  /** The next word by the number of bits that were read. */
  lemma NextCases(used: nat)
    requires used > 0
    ensures used > 64 ==> NextAfterRead(used) == 64
    ensures used <= 64 ==> 96 < NextAfterRead(used) <= 128
    ensures used <= 64 ==> (64 % used == 0 <==> NextAfterRead(used) == 128)
  {
    var q, r := 64 / used, 64 % used;
    assert 64 == used * q + r && q * used == used * q;
    if used <= 64 {
      assert q >= 1;
      assert used * q >= used by { MulMono(used, 1, q); }
    } else {
      assert q == 0;
    }
  }

  /** Whether appending n values behind `e` values that were read is right whatever the values are, in every
      memory that is zero from the stored values to the next word. */
  ghost predicate KeepsAll(cap: nat, w: nat, e: nat, n: nat)
    requires w > 0 && e > 0
  {
    forall m: Bits, at: nat, vals: seq<nat>, more: seq<nat> ::
      |vals| == e && |more| == n && Stored(m, at, cap, w, vals, n) && ZeroTo(m, at, cap, w, e)
      ==> Right(m, at, cap, w, vals, more)
  }

  ghost predicate ZeroTo(m: Bits, at: nat, cap: nat, w: nat, e: nat)
    requires w > 0 && e > 0 && at + cap <= |m|
  {
    TotalPositive(w, e);
    forall k :: at + Total(w, e) <= k < at + NextAfterRead(Total(w, e)) && k < at + cap ==> !m[k]
  }

  /** The n values are appended to the vector as `init2read` leaves it, and all can be read back. */
  ghost predicate Right(m: Bits, at: nat, cap: nat, w: nat, vals: seq<nat>, more: seq<nat>)
    requires vals != [] && Stored(m, at, cap, w, vals, |more|)
  {
    TotalPositive(w, |vals|);
    var used := Total(w, |vals|);
    AppendsMem(m, at, cap, used, w, NextAfterRead(used), more).0[at..at + used + Total(w, |more|)]
    == Pack(vals + more, w)
  }

  lemma TotalPositive(w: nat, n: nat)
    requires w > 0 && n > 0
    ensures Total(w, n) > 0
  {
  }

  /** In a resumable vector the bits that are not cleared in front of their value are those before the
      next word. */
  lemma ResumableBit(used: nat, w: nat, cap: nat, n: nat, k: nat)
    requires 0 < w <= 32 && Resumable(used, used + Total(w, n)) && k < used + Total(w, n) <= cap
    ensures var next := NextAfterRead(used);
            if k < next then !Cleared(used, w, next, cap, n, k)
            else Cleared(used, w, next, cap, n, k) && Behind(used, w, next, k)
  {
    NextCases(used);
    var next := NextAfterRead(used);
    var c := WordNo(next, k);
    if c >= 0 {
      var s, x := StepOf(used, w, next, c), next + UNIT * c;
      OpenedIff(used, w, next, n, c);
      TotalIs(w, n);
      TotalIs(w, s);
      if k < next {
        if n > 0 { FirstBehind(used, w, x, n - 1); }
      } else {
        assert x == WordAt(k);
        StepInside(used, w, x, c, k, n);
      }
    }
  }

  /** A word that begins at bit x = 128 + 64 c is opened by an append that begins in front of it. */
  lemma StepInside(used: nat, w: nat, x: nat, c: nat, k: nat, n: nat)
    requires 0 < w <= 32 && used <= 64 && x == 128 + UNIT * c <= k < used + Total(w, n)
    ensures StepOf(used, w, 128, c) < n && used + Total(w, StepOf(used, w, 128, c)) <= x
  {
    FirstInside(used, w, x, k, n);
    CountInside(used, w, x, c, k, n);
    hide Total;
  }

  lemma FirstInside(used: nat, w: nat, x: nat, k: nat, n: nat)
    requires w > 0 && used <= x <= k < used + Total(w, n)
    ensures (x - used) / w < n && used + Total(w, (x - used) / w) <= x
  {
    TotalIs(w, n);
    TotalIs(w, (x - used) / w);
    QuotientBelow(x - used, w, n);
    QuotientBelow(x - used, w, (x - used) / w);
  }

  lemma CountInside(used: nat, w: nat, x: nat, c: nat, k: nat, n: nat)
    requires 0 < w <= 32 && used <= 64 && x == 128 + UNIT * c <= k < used + Total(w, n)
    ensures c < n && used + Total(w, c) <= x
  {
    TotalIs(w, c);
    MulMono(c, w, 32);
    assert w * c == c * w;
    if n <= c { TotalMono(w, n, c); }
  }

  /** In a resumable vector no appended or stored bit is lost, and none shows through. */
  lemma ResumableKeeps(cap: nat, w: nat, e: nat, n: nat)
    requires 0 < w <= 32 && e > 0 && Total(w, e) + Total(w, n) <= cap
    requires Resumable(Total(w, e), Total(w, e) + Total(w, n))
    ensures KeepsAll(cap, w, e, n)
  {
    hide Total, Pack, AppendsMem, Cleared, Behind, Resumable, NextAfterRead;
    forall m: Bits, at: nat, vals: seq<nat>, more: seq<nat>
      | |vals| == e && |more| == n && Stored(m, at, cap, w, vals, n) && ZeroTo(m, at, cap, w, e)
      ensures Right(m, at, cap, w, vals, more)
    {
      TotalPositive(w, e);
      AppendedIff(m, at, cap, w, NextAfterRead(Total(w, e)), vals, more);
      forall k: nat | k < Total(w, e) + Total(w, n) {
        ResumableBit(Total(w, e), w, cap, n, k);
      }
    }
  }

  /** Otherwise the first word to be cleared holds bit 64 already. */
  lemma Bit64Lost(cap: nat, w: nat, used: nat, n: nat)
    requires 0 < w <= 32 && used > 0 && n > 0 && used + Total(w, n) <= cap
    requires !Resumable(used, used + Total(w, n))
    ensures 64 < used + Total(w, n)
    ensures var next := NextAfterRead(used);
            Cleared(used, w, next, cap, n, 64) && !Behind(used, w, next, 64)
  {
    NextCases(used);
    var next := NextAfterRead(used);
    if used <= 64 {
      hide NextAfterRead, Total, Resumable;
      FirstBehind(used, w, next, n - 1);
      FirstEndsBehind(used, w, next);
    } else {
      TotalMono(w, 1, n);
    }
  }

  /** The value that opens the word at `next` begins at most one width in front of it. */
  lemma FirstEndsBehind(used: nat, w: nat, next: nat)
    requires w > 0 && used <= next
    ensures used + Total(w, (next - used) / w) + w > next
  {
    var f := (next - used) / w;
    TotalIs(w, f);
    QuotientBelow(next - used, w, f + 1);
    assert w * (f + 1) == w * f + w;
  }

  /** Values of which every bit is set. */
  function Ones(n: nat, w: nat): (s: seq<nat>)
    ensures |s| == n
  {
    seq(n, _ => Pow2(w) - 1)
  }

  ghost predicate AllSet(b: Bits) {
    forall k :: 0 <= k < |b| ==> b[k]
  }

  lemma {:induction false} FullSet(w: nat)
    ensures AllSet(ToBits(Pow2(w) - 1, w))
  {
    if w > 0 {
      FullSet(w - 1);
      var p := Pow2(w - 1);
      assert (2 * p - 1) % 2 == 1 && (2 * p - 1) / 2 == p - 1;
    }
  }

  lemma {:induction false} OnesSet(n: nat, w: nat)
    ensures |Pack(Ones(n, w), w)| == Total(w, n) && AllSet(Pack(Ones(n, w), w))
  {
    if n > 0 {
      OnesSet(n - 1, w);
      FullSet(w);
      assert Ones(n, w)[..n - 1] == Ones(n - 1, w);
      hide ToBits, Pow2;
    }
  }

  /** Stored and appended values of set bits only are not kept. */
  lemma OnesLost(m: Bits, at: nat, cap: nat, w: nat, e: nat, n: nat)
    requires e > 0 && n > 0 && Stored(m, at, cap, w, Ones(e, w), n)
    requires !Resumable(Total(w, e), Total(w, e) + Total(w, n))
    ensures !Right(m, at, cap, w, Ones(e, w), Ones(n, w))
  {
    hide Total, Pack, AppendsMem, Cleared, Behind, Resumable, NextAfterRead, Ones;
    TotalPositive(w, e);
    AppendedIff(m, at, cap, w, NextAfterRead(Total(w, e)), Ones(e, w), Ones(n, w));
    Bit64Lost(cap, w, Total(w, e), n);
    OnesPlus(e, n, w);
    OnesSet(e + n, w);
    TotalPlus(w, e, n);
    assert Pack(Ones(e, w) + Ones(n, w), w)[64];
  }

  lemma OnesPlus(a: nat, b: nat, w: nat)
    ensures Ones(a, w) + Ones(b, w) == Ones(a + b, w)
  {
  }

  /** Appending to a vector that was opened for reading gives the right vector, whatever the values are, if
      and only if at most 64 bits are in use and their number divides 64 or the vector ends before the next
      word that was computed. */
  lemma KeepsAllIff(cap: nat, w: nat, e: nat, n: nat)
    requires 0 < w <= 32 && e > 0 && n > 0 && Total(w, e) + Total(w, n) <= cap
    ensures KeepsAll(cap, w, e, n) <==> Resumable(Total(w, e), Total(w, e) + Total(w, n))
  {
    hide Total, Pack, Resumable, NextAfterRead, Ones, Right;
    if Resumable(Total(w, e), Total(w, e) + Total(w, n)) {
      ResumableKeeps(cap, w, e, n);
    } else {
      var vals := Ones(e, w);
      PackLength(vals, w);
      var m := Pack(vals, w) + Zeros(cap - Total(w, e));
      OnesLost(m, 0, cap, w, e, n);
    }
  }

  lemma Pow2Eight()
    ensures Pow2(8) == 256
  {
    assert Pow2(4) == 16;
  }

  /** A vector of sixteen bytes with nine values 255 of eight bits and zeros behind them. */
  function NineValues(): (m: Bits)
    ensures |m| == 128
  {
    PackLength(Ones(9, 8), 8);
    TotalIs(8, 9);
    Pack(Ones(9, 8), 8) + Zeros(56)
  }

  /** When it is opened for reading and a tenth value is appended, the ninth reads as 0. */
  lemma NinthLost()
    ensures FromBits(NineValues()[64..72]) == 255
    ensures FromBits(AppendsMem(NineValues(), 0, 128, 72, 8, NextAfterRead(72), [255]).0[64..72]) == 0
  {
    hide AppendsMem, Pack, FromBits, Pow2, Zeros, NineValues;
    var m := NineValues();
    NineRead();
    var r := AppendsMem(m, 0, 128, 72, 8, NextAfterRead(72), [255]).0;
    forall k: nat | 64 <= k < 72
      ensures !r[k]
    {
      AppendsBit(m, 0, 128, 72, 8, NextAfterRead(72), [255], k);
      NinthCleared(k);
    }
    EightZeros(r[64..72]);
  }

  lemma NineRead()
    ensures FromBits(NineValues()[64..72]) == 255
  {
    hide Pack, FromBits, Pow2, Zeros;
    var m := NineValues();
    PackLength(Ones(9, 8), 8);
    TotalIs(8, 9);
    TotalIs(8, 8);
    assert m[0..0 + Total(8, 9)] == Pack(Ones(9, 8), 8);
    ElementInMem(m, 0, Ones(9, 8), 8, 8);
    Pow2Eight();
    CutSmall(255, 8);
  }

  lemma NinthCleared(k: nat)
    requires 64 <= k < 72
    ensures Cleared(72, 8, NextAfterRead(72), 128, 1, k) && !Behind(72, 8, NextAfterRead(72), k)
  {
  }

  lemma EightZeros(b: Bits)
    requires |b| == 8 && forall k :: 0 <= k < 8 ==> !b[k]
    ensures FromBits(b) == 0
  {
    FromBitsZeros([], 8);
    assert b == [] + Zeros(8);
  }

  /** Eight bytes of zeros in front of one bit that is not part of the vector. */
  function StaleBit(): (m: Bits)
    ensures |m| == 128 && m[..64] == Zeros(64)
  {
    Zeros(64) + [true] + Zeros(63)
  }

  /** When they are opened for reading and a zero is appended, it reads as 1. */
  lemma StaleShown()
    ensures FromBits(AppendsMem(StaleBit(), 0, 128, 64, 8, NextAfterRead(64), [0]).0[64..72]) == 1
  {
    hide AppendsMem, FromBits;
    var r := AppendsMem(StaleBit(), 0, 128, 64, 8, NextAfterRead(64), [0]).0;
    ToBitsZero(8);
    forall k: nat | 64 <= k < 72
      ensures r[k] <==> k == 64
    {
      AppendsBit(StaleBit(), 0, 128, 64, 8, NextAfterRead(64), [0], k);
      StaleKept(k);
    }
    LowestOnly(r[64..72]);
  }

  lemma StaleKept(k: nat)
    requires 64 <= k < 72
    ensures Pack([0], 8) == ToBits(0, 8)
    ensures !Cleared(64, 8, NextAfterRead(64), 128, 1, k)
  {
  }

  lemma LowestOnly(b: Bits)
    requires |b| == 8 && forall k :: 0 <= k < 8 ==> (b[k] <==> k == 0)
    ensures FromBits(b) == 1
  {
    FromBitsZeros([], 7);
    assert b[1..] == [] + Zeros(7);
  }
}
