// Bit strings, least significant bit first, and their bytes on a little-endian machine.

module Bits {
  import opened Bytes

  type Bits = seq<bool>

  function Pow2(w: nat): (p: nat)
    ensures p > 0
  {
    if w == 0 then 1 else 2 * Pow2(w - 1)
  }

  /** The value that is left of n in w bits. */
  function Cut(n: nat, w: nat): nat { n % Pow2(w) }

  lemma CutSmall(n: nat, w: nat)
    requires n < Pow2(w)
    ensures Cut(n, w) == n
  {
    hide Pow2;
    SmallMod(n, Pow2(w));
  }

  lemma SmallMod(n: nat, d: nat)
    requires n < d
    ensures n % d == n
  {
  }

  /** The low `w` bits of `n`. */
  function ToBits(n: nat, w: nat): (b: Bits)
    ensures |b| == w
  {
    if w == 0 then [] else [n % 2 == 1] + ToBits(n / 2, w - 1)
  }

  function FromBits(b: Bits): (n: nat)
    ensures n < Pow2(|b|)
  {
    if b == [] then 0 else (if b[0] then 1 else 0) + 2 * FromBits(b[1..])
  }

  lemma {:induction false} FromToBits(n: nat, w: nat)
    ensures FromBits(ToBits(n, w)) == Cut(n, w)
  {
    if w > 0 {
      FromToBits(n / 2, w - 1);
      assert ToBits(n, w)[1..] == ToBits(n / 2, w - 1);
      HalfMod(n, Pow2(w - 1));
    }
  }

  lemma HalfMod(n: nat, p: nat)
    requires p > 0
    ensures n % (2 * p) == n % 2 + 2 * (n / 2 % p)
  {
    var q, r := n / 2 / p, n / 2 % p;
    assert n == 2 * (p * q + r) + n % 2;
    assert n == (2 * p) * q + (2 * r + n % 2) by { assert 2 * (p * q) == (2 * p) * q; }
    DivUnique(n, 2 * p, q, 2 * r + n % 2);
  }

  lemma DivUnique(n: nat, d: nat, q: nat, r: nat)
    requires d > 0 && n == d * q + r && r < d
    ensures n % d == r && n / d == q
  {
    var k: int := n / d - q;
    assert d * k == r - n % d;
    if k != 0 { NoMultiple(d, k); }
  }

  lemma NoMultiple(d: nat, k: int)
    requires k != 0
    ensures d * k >= d || d * k <= 0 - d
  {
    if k > 0 { assert d * (k - 1) >= 0; } else { assert d * (0 - k - 1) >= 0; }
  }

  lemma {:induction false} ToFromBits(b: Bits)
    ensures ToBits(FromBits(b), |b|) == b
  {
    if b != [] {
      ToFromBits(b[1..]);
    }
  }

  /** `calcUsedBitNum`: the loop that shifts until nothing is left. */
  function UsedBits(v: nat): (w: nat)
    ensures v < Pow2(w)
    ensures w > 0 ==> Pow2(w - 1) <= v
  {
    if v == 0 then 0 else 1 + UsedBits(v / 2)
  }

  method CalcUsedBitNum(val: nat) returns (bnum: nat)
    ensures bnum == UsedBits(val)
  {
    bnum := 0;
    var v := val;
    while v > 0
      invariant bnum + UsedBits(v) == UsedBits(val)
    {
      v := v / 2;
      bnum := bnum + 1;
    }
  }

  lemma {:induction false} Pow2Mono(a: nat, b: nat)
    requires a <= b
    ensures Pow2(a) <= Pow2(b)
  {
    if a < b { Pow2Mono(a, b - 1); }
  }

  /** A width of w bits is enough for every value up to v exactly when w is at least `UsedBits(v)`. */
  lemma UsedBitsLeast(v: nat, w: nat)
    ensures UsedBits(v) <= w <==> v < Pow2(w)
  {
    if UsedBits(v) <= w {
      Pow2Mono(UsedBits(v), w);
    } else {
      Pow2Mono(w, UsedBits(v) - 1);
    }
  }

  /** `calcAlignBegin`. */
  function CalcAlignBegin(num: nat, align: nat): nat
    requires align > 0
  {
    num / align * align
  }

  /** It is the multiple of `align` at or in front of `num`, and the only one less than `align` away. */
  lemma AlignBeginIff(num: nat, align: nat, k: nat)
    requires align > 0
    ensures CalcAlignBegin(num, align) == align * k <==> align * k <= num < align * k + align
  {
    var q := num / align;
    assert num == align * q + num % align && q * align == align * q;
    if align * k <= num < align * k + align {
      DivUnique(num, align, k, num - align * k);
    } else if k != q {
      var d: int := k - q;
      NoMultiple(align, d);
      assert align * d == align * k - align * q;
    }
  }

  // ---- Packed vectors ----

  /** Bits of n values of w bits each. */
  function Total(w: nat, n: nat): nat {
    if n == 0 then 0 else Total(w, n - 1) + w
  }

  lemma {:induction false} TotalIs(w: nat, n: nat)
    ensures Total(w, n) == w * n
  {
    if n > 0 { TotalIs(w, n - 1); }
  }

  lemma {:induction false} TotalMono(w: nat, a: nat, b: nat)
    requires a <= b
    ensures Total(w, a) <= Total(w, b)
  {
    if a < b { TotalMono(w, a, b - 1); }
  }

  /** Values of `w` bits each, one directly behind the other. */
  function Pack(vals: seq<nat>, w: nat): Bits {
    if vals == [] then [] else Pack(vals[..|vals| - 1], w) + ToBits(vals[|vals| - 1], w)
  }

  lemma {:induction false} PackLength(vals: seq<nat>, w: nat)
    ensures |Pack(vals, w)| == Total(w, |vals|)
  {
    hide ToBits;
    if vals != [] {
      PackLength(vals[..|vals| - 1], w);
    }
  }

  lemma {:induction false} PackConcat(a: seq<nat>, b: seq<nat>, w: nat)
    ensures Pack(a + b, w) == Pack(a, w) + Pack(b, w)
  {
    if b == [] {
      assert a + b == a;
      assert Pack(b, w) == [];
    } else {
      var front, last := b[..|b| - 1], b[|b| - 1];
      PackConcat(a, front, w);
      PackLast(a + front, last, w);
      PackLast(front, last, w);
      SplitLast(a, b);
      hide Pack, ToBits;
      AssocBits(Pack(a, w), Pack(front, w), ToBits(last, w));
    }
  }

  lemma SplitLast<T>(a: seq<T>, b: seq<T>)
    requires b != []
    ensures b == b[..|b| - 1] + [b[|b| - 1]]
    ensures a + b == (a + b[..|b| - 1]) + [b[|b| - 1]]
  {
  }

  lemma PackLast(vals: seq<nat>, last: nat, w: nat)
    ensures Pack(vals + [last], w) == Pack(vals, w) + ToBits(last, w)
  {
    assert (vals + [last])[..|vals|] == vals;
  }

  lemma AssocBits(x: Bits, y: Bits, z: Bits)
    ensures x + (y + z) == x + y + z
  {
  }

  /** Element i of a packed vector. */
  function Element(b: Bits, i: nat, w: nat): nat
    requires Total(w, i) + w <= |b|
  {
    FromBits(b[Total(w, i)..Total(w, i) + w])
  }

  lemma ElementFits(w: nat, i: nat, n: nat)
    requires i < n
    ensures Total(w, i) + w == Total(w, i + 1) <= Total(w, n)
  {
    TotalMono(w, i + 1, n);
  }

  lemma ProductFits(w: nat, i: nat, n: nat)
    requires i < n
    ensures 0 <= w * i && w * i + w == w * (i + 1) <= w * n
  {
    assert w * n == w * (i + 1) + w * (n - (i + 1));
    assert w * (n - (i + 1)) >= 0;
  }

  lemma PackValue(vals: seq<nat>, w: nat, i: nat)
    requires i < |vals|
    ensures Total(w, i) + w <= |Pack(vals, w)|
    ensures Pack(vals, w)[Total(w, i)..Total(w, i) + w] == ToBits(vals[i], w)
  {
    ElementFits(w, i, |vals|);
    var a, b := vals[..i], vals[i + 1..];
    assert vals == a + [vals[i]] + b;
    PackOne(vals[i], w);
    PackConcat(a, [vals[i]], w);
    PackConcat(a + [vals[i]], b, w);
    PackLength(a, w);
    PackLength(vals, w);
    hide Pack, ToBits;
    MiddleBits(Pack(a, w), ToBits(vals[i], w), Pack(b, w));
  }

  lemma PackElement(vals: seq<nat>, w: nat, i: nat)
    requires i < |vals|
    ensures Total(w, i) + w <= |Pack(vals, w)|
    ensures Element(Pack(vals, w), i, w) == Cut(vals[i], w)
  {
    hide Pack, ToBits, FromBits, Pow2;
    PackValue(vals, w, i);
    FromToBits(vals[i], w);
  }

  lemma PackOne(n: nat, w: nat)
    ensures Pack([n], w) == ToBits(n, w)
  {
    var one := [n];
    assert one[..0] == [];
  }

  lemma MiddleBits(x: Bits, y: Bits, z: Bits)
    ensures (x + y + z)[|x|..|x| + |y|] == y
  {
  }

  // ---- Bytes ----

  function Zeros(n: nat): (b: Bits)
    ensures |b| == n
  {
    seq(n, _ => false)
  }

  /** `calcBytesUsed`. */
  function BytesUsed(bits: nat): nat { (bits + 7) / 8 }

  /** The least number of bytes that hold so many bits. */
  lemma BytesLeast(bits: nat, n: nat)
    ensures BytesUsed(bits) <= n <==> bits <= 8 * n
  {
  }

  /** Bytes of n packed values of w bits. */
  function SegBytes(w: nat, n: nat): nat { BytesUsed(Total(w, n)) }

  /** Filled with zero bits up to a whole byte. */
  function Padded(b: Bits): (p: Bits)
    ensures |p| == 8 * BytesUsed(|b|) && b <= p
  {
    b + Zeros(8 * BytesUsed(|b|) - |b|)
  }

  function Octets(b: Bits): (o: Bytes)
    requires |b| % 8 == 0
    ensures |o| == |b| / 8
  {
    if b == [] then []
    else
      Octet(b[..8]);
      [FromBits(b[..8])] + Octets(b[8..])
  }

  lemma Octet(b: Bits)
    requires |b| == 8
    ensures FromBits(b) < 256
  {
    assert Pow2(8) == 256;
  }

  function BitsOf(o: Bytes): (b: Bits)
    ensures |b| == 8 * |o|
  {
    if o == [] then [] else ToBits(o[0], 8) + BitsOf(o[1..])
  }

  lemma {:induction false} BitsOfOctets(b: Bits)
    requires |b| % 8 == 0
    ensures BitsOf(Octets(b)) == b
  {
    if b != [] {
      BitsOfOctets(b[8..]);
      ToFromBits(b[..8]);
      assert Octets(b)[1..] == Octets(b[8..]);
      assert b == b[..8] + b[8..];
    }
  }

  lemma {:induction false} OctetsConcat(a: Bits, b: Bits)
    requires |a| % 8 == 0 && |b| % 8 == 0
    ensures Octets(a + b) == Octets(a) + Octets(b)
  {
    hide FromBits;
    if a == [] {
      assert a + b == b;
    } else {
      OctetsConcat(a[8..], b);
      assert (a + b)[..8] == a[..8];
      assert (a + b)[8..] == a[8..] + b;
    }
  }

  /** The bytes of a packed vector. */
  function PackedBytes(vals: seq<nat>, w: nat): (b: Bytes)
    ensures |b| == SegBytes(w, |vals|)
  {
    PackLength(vals, w);
    Octets(Padded(Pack(vals, w)))
  }

  lemma {:induction false} BitOf(n: nat, w: nat, k: nat)
    requires k < w
    ensures ToBits(n, w)[k] <==> n / Pow2(k) % 2 == 1
  {
    if k > 0 {
      BitOf(n / 2, w - 1, k - 1);
      HalfDiv(n, Pow2(k - 1));
    }
  }

  lemma HalfDiv(n: nat, p: nat)
    requires p > 0
    ensures n / (2 * p) == n / 2 / p
  {
    var q, r := n / 2 / p, n / 2 % p;
    assert n / 2 == p * q + r;
    assert n == (2 * p) * q + (2 * r + n % 2) by { assert 2 * (p * q) == (2 * p) * q; }
    DivUnique(n, 2 * p, q, 2 * r + n % 2);
  }

  lemma {:induction false} OctetOf(b: Bits, q: nat)
    requires |b| % 8 == 0 && q < |b| / 8
    ensures Octets(b)[q] == FromBits(b[8 * q..8 * q + 8])
  {
    hide FromBits;
    if q > 0 {
      OctetOf(b[8..], q - 1);
      assert b[8..][8 * (q - 1)..8 * (q - 1) + 8] == b[8 * q..8 * q + 8];
    }
  }

  /** Bit r of byte q of a bit string, the least significant one first. */
  lemma OctetBit(b: Bits, q: nat, r: nat)
    requires |b| % 8 == 0 && q < |b| / 8 && r < 8
    ensures b[8 * q + r] <==> Octets(b)[q] / Pow2(r) % 2 == 1
  {
    var o := b[8 * q..8 * q + 8];
    assert b[8 * q + r] == o[r];
    hide *;
    OctetOf(b, q);
    ToFromBits(o);
    BitOf(FromBits(o), 8, r);
  }

  lemma PackPlace(vals: seq<nat>, w: nat, i: nat, k: nat)
    requires i < |vals| && k < w
    ensures 0 <= w * i + k < |Pack(vals, w)|
    ensures Pack(vals, w)[w * i + k] <==> vals[i] / Pow2(k) % 2 == 1
  {
    hide *;
    TotalIs(w, i);
    PackValue(vals, w, i);
    BitOf(vals[i], w, k);
    var t := Total(w, i);
    assert Pack(vals, w)[t..t + w][k] == Pack(vals, w)[t + k];
  }

  /** Bit k of the i-th value lies w * i + k bits behind the begin of the bytes, counted from each byte's least
      significant bit. */
  lemma PackedBit(vals: seq<nat>, w: nat, i: nat, k: nat)
    requires i < |vals| && k < w
    ensures 0 <= (w * i + k) / 8 < |PackedBytes(vals, w)|
    ensures PackedBytes(vals, w)[(w * i + k) / 8] / Pow2((w * i + k) % 8) % 2 == vals[i] / Pow2(k) % 2
  {
    PackPlace(vals, w, i, k);
    PackedAt(vals, w, w * i + k);
  }

  lemma PackedAt(vals: seq<nat>, w: nat, j: nat)
    requires j < |Pack(vals, w)|
    ensures j / 8 < |PackedBytes(vals, w)|
    ensures Pack(vals, w)[j] <==> PackedBytes(vals, w)[j / 8] / Pow2(j % 8) % 2 == 1
  {
    var b := Padded(Pack(vals, w));
    assert b[j] == Pack(vals, w)[j] && PackedBytes(vals, w) == Octets(b);
    hide *;
    OctetBit(b, j / 8, j % 8);
  }
}
