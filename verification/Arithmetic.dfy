/** 64-bit division out of one 64-by-32-bit machine divide (lib/arithmetic.c).

    Machine words are naturals below 2^32 or 2^64, and every wrap-around is
    written out.  A divisor of 32 bits takes two machine divides, one for each half
    of the quotient; a larger one is shifted, with the dividend halved, until one
    machine divide gives an estimate that is at most one too large. */
module Arithmetic {
  import opened Nonlinear
  import opened Options

  const TWO31: int := 0x8000_0000
  const TWO32: int := 0x1_0000_0000
  const TWO63: int := 0x8000_0000_0000_0000
  const TWO64: int := 0x1_0000_0000_0000_0000

  /** The machine divide traps when its quotient needs more than 32 bits.  A trap is
      a value, so that "does not trap" is proved about the callers. */
  datatype Quotient = Trap | Value(q: nat) {
    predicate IsFailure() { Trap? }
    function PropagateFailure(): Quotient requires Trap? { Trap }
    function Extract(): nat requires Value? { q }
  }

  function Pow2(k: nat): (p: nat)
    ensures p >= 1
  {
    if k == 0 then 1 else 2 * Pow2(k - 1)
  }

  /** The DIVL instruction: a divide error unless the quotient fits in 32 bits. */
  function Divl(n: nat, d: nat): Quotient
    requires n < TWO64 && d < TWO32
  {
    if d == 0 || Div(n, d) >= TWO32 then Trap else Value(Div(n, d))
  }

  /** A word being shifted left, and the number of shifts so far. */
  datatype Scan = Scan(x: nat, n: nat)

  /** One test of NLZ: if only the low bits are set, shift K places left. */
  function Narrow(sc: Scan, limit: nat, k: nat): Scan {
    if sc.x <= limit then Scan((sc.x * Pow2(k)) % TWO32, sc.n + k) else sc
  }

  /** Number of leading zero bits, by successive halving of the search window. */
  function Nlz(x: nat): nat {
    var s16 := Narrow(Scan(x, 0), 0x0000FFFF, 16);
    var s8 := Narrow(s16, 0x00FFFFFF, 8);
    var s4 := Narrow(s8, 0x0FFFFFFF, 4);
    var s2 := Narrow(s4, 0x3FFFFFFF, 2);
    Narrow(s2, 0x7FFFFFFF, 1).n
  }

  function Udiv64(n: nat, d: nat): Quotient
    requires n < TWO64 && 0 < d < TWO64
  {
    if d / TWO32 == 0 then UdivNarrow(n, d) else UdivWide(n, d)
  }

  function UdivNarrow(n: nat, d: nat): Quotient
    requires n < TWO64 && 0 < d < TWO32
  {
    var n1, n0 := n / TWO32, n % TWO32;
    RemainderAndLowHalf(n1, n0, d);
    var low :- Divl(TWO32 * Mod(n1, d) + n0, d);
    Value(Wrap64(low + TWO32 * Div(n1, d)))
  }

  function UdivWide(n: nat, d: nat): Quotient
    requires n < TWO64 && TWO32 <= d < TWO64
  {
    if n < d then Value(0) else
    NlzCountsLeadingZeros(d / TWO32);
    var s := Nlz(d / TWO32);
    var t :- Divl(n / 2, Shl64(d, s) / TWO32);
    var q := Div(t, Pow2(31 - s));
    Value(if Wrap64(n - (q - 1) * d) < d then Wrap64(q - 1) else q)
  }

  function Wrap64(x: int): (w: nat)
    ensures w < TWO64
  {
    x % TWO64
  }

  function Shl64(x: nat, k: nat): (y: nat)
    ensures y < TWO64
  {
    (x * Pow2(k)) % TWO64
  }

  function ToInt64(x: nat): int
    requires x < TWO64
  {
    if x < TWO63 then x else x - TWO64
  }

  predicate IsInt64(x: int) { -TWO63 <= x < TWO63 }

  /** -(uint64_t) n for a negative n, without leaving 64 bits. */
  function Magnitude(n: int): (w: nat)
    ensures w < TWO64
  {
    if n >= 0 then Wrap64(n) else Wrap64(0 - Wrap64(n))
  }

  function WithSign(negative: bool, q: nat): int
    requires q < TWO64
  {
    if negative then ToInt64(Wrap64(0 - ToInt64(q))) else ToInt64(q)
  }

  function Sdiv64(n: int, d: int): Option<int>
    requires IsInt64(n) && IsInt64(d) && d != 0
  {
    match Udiv64(Magnitude(n), Magnitude(d))
    case Trap => None
    case Value(q) => if q >= TWO64 then None else Some(WithSign((n < 0) != (d < 0), q))
  }

  /** C's division of signed integers, as a mathematical function. */
  function TruncDiv(n: int, d: int): int
    requires d != 0
  {
    var q := Abs(n) / Abs(d);
    if (n < 0) == (d < 0) then q else -q
  }

  function Abs(x: int): nat { if x < 0 then -x else x }

  // ----- Arithmetic facts -----

  lemma MulAssoc(a: nat, b: nat, c: nat)
    ensures a * (b * c) == (a * b) * c
  {
  }

  lemma MulAdd(a: nat, b: nat, c: nat)
    ensures (a + b) * c == a * c + b * c
  {
  }

  lemma DivMod(n: nat, d: nat)
    requires d > 0
    ensures n == Div(n, d) * d + Mod(n, d) && Mod(n, d) < d
  {
  }

  lemma DivBelow(n: nat, d: nat, b: nat)
    requires d > 0
    ensures Div(n, d) < b <==> n < b * d
  {
    hide Div, Mod;
    var k := Div(n, d);
    DivMod(n, d);
    if k < b { MulMono(k + 1, b, d); MulAdd(k, 1, d); } else { MulMono(b, k, d); }
  }

  lemma DivUnique(n: nat, d: nat, q: nat, r: nat)
    requires r < d && n == q * d + r
    ensures Div(n, d) == q
  {
    hide Div;
    MulAdd(q, 1, d);
    DivBelow(n, d, q + 1);
    DivBelow(n, d, q);
  }

  lemma {:induction false} Pow2Sum(a: nat, b: nat)
    ensures Pow2(a + b) == Pow2(a) * Pow2(b)
  {
    if a > 0 { Pow2Sum(a - 1, b); MulAssoc(2, Pow2(a - 1), Pow2(b)); }
  }

  lemma Pow2Values()
    ensures Pow2(1) == 2 && Pow2(2) == 4 && Pow2(4) == 0x10 && Pow2(8) == 0x100
    ensures Pow2(16) == 0x10000 && Pow2(31) == TWO31 && Pow2(32) == TWO32
  {
    Pow2Sum(1, 1); Pow2Sum(2, 2); Pow2Sum(4, 4); Pow2Sum(8, 8); Pow2Sum(16, 16);
  }

  lemma NoWrap(x: nat)
    requires x < TWO64
    ensures Wrap64(x) == x
  {
  }

  // ----- Leading zeros -----

  /** One test of NLZ raises the known lower bound of the word from LO. */
  lemma NarrowIsExact(x: nat, sc: Scan, lo: nat, limit: nat, k: nat)
    requires sc.x == x * Pow2(sc.n) && lo <= sc.x < TWO32
    requires lo * Pow2(k) == limit + 1 && (limit + 1) * Pow2(k) == TWO32
    ensures var r := Narrow(sc, limit, k);
            r.x == x * Pow2(r.n) && limit + 1 <= r.x < TWO32 && sc.n <= r.n <= sc.n + k
  {
    if sc.x <= limit {
      MulMono(lo, sc.x, Pow2(k));
      MulMono(sc.x + 1, limit + 1, Pow2(k));
      MulAdd(sc.x, 1, Pow2(k));
      Pow2Sum(sc.n, k);
      MulAssoc(x, Pow2(sc.n), Pow2(k));
    }
  }

  /** NLZ is the shift that brings the top set bit of X to bit 31. */
  lemma NlzCountsLeadingZeros(x: nat)
    requires 0 < x < TWO32
    ensures Nlz(x) <= 31
    ensures TWO31 <= x * Pow2(Nlz(x)) < TWO32
  {
    Pow2Values();
    var s0 := Scan(x, 0);
    NarrowIsExact(x, s0, 1, 0x0000FFFF, 16);
    var s16 := Narrow(s0, 0x0000FFFF, 16);
    NarrowIsExact(x, s16, 0x10000, 0x00FFFFFF, 8);
    var s8 := Narrow(s16, 0x00FFFFFF, 8);
    NarrowIsExact(x, s8, 0x1000000, 0x0FFFFFFF, 4);
    var s4 := Narrow(s8, 0x0FFFFFFF, 4);
    NarrowIsExact(x, s4, 0x10000000, 0x3FFFFFFF, 2);
    var s2 := Narrow(s4, 0x3FFFFFFF, 2);
    NarrowIsExact(x, s2, 0x40000000, 0x7FFFFFFF, 1);
  }

  // ----- Unsigned division -----

  lemma RemainderAndLowHalf(n1: nat, n0: nat, d: nat)
    requires 0 < d < TWO32 && n0 < TWO32
    ensures TWO32 * Mod(n1, d) + n0 < TWO64
    ensures Div(TWO32 * Mod(n1, d) + n0, d) < TWO32
  {
    hide Div, Mod;
    DivMod(n1, d);
    DivBelow(TWO32 * Mod(n1, d) + n0, d, TWO32);
  }

  lemma NarrowDivision(n: nat, d: nat)
    requires n < TWO64 && 0 < d < TWO32
    ensures UdivNarrow(n, d) == Value(Div(n, d))
  {
    hide Div, Mod, Wrap64;
    var n1, n0 := n / TWO32, n % TWO32;
    RemainderAndLowHalf(n1, n0, d);
    LongDivision(n1, n0, d, TWO32);
    QuotientBelow(n, d);
    NoWrap(Div(n, d));
  }

  lemma QuotientBelow(n: nat, d: nat)
    requires n < TWO64 && d > 0
    ensures Div(n, d) < TWO64
  {
    hide Div;
    MulMono(1, d, TWO64);
    DivBelow(n, d, TWO64);
  }

  /** Schoolbook division in base B: the high digit first, then its remainder
      with the low digit. */
  lemma LongDivision(n1: nat, n0: nat, d: nat, b: nat)
    requires d > 0
    ensures Div(b * n1 + n0, d) == Div(b * Mod(n1, d) + n0, d) + b * Div(n1, d)
  {
    hide Div, Mod;
    var h, r := Div(n1, d), Mod(n1, d);
    var rest := b * r + n0;
    DivMod(n1, d);
    DivMod(rest, d);
    DivUnique(b * n1 + n0, d, Div(rest, d) + b * h, Mod(rest, d));
  }

  /** The normalised divisor: its top half is d / m, where m is the part of
      the divisor that the shift leaves in the low half. */
  lemma Normalise(d: nat, s: nat)
    requires TWO32 <= d < TWO64 && s == Nlz(d / TWO32) && s <= 31
    ensures Shl64(d, s) / TWO32 == Div(d, Pow2(32 - s))
    ensures TWO31 <= Div(d, Pow2(32 - s)) < TWO32
  {
    hide Nlz, Div, Pow2;
    var p, m := Pow2(s), Pow2(32 - s);
    NlzCountsLeadingZeros(d / TWO32);
    Pow2Halves(s);
    HighHalf(d, p, m, Pow2(31 - s));
    assert Shl64(d, s) == d * p;
    ShiftedQuotient(d, p, m, TWO32);
    DivByConstant(d * p);
  }

  lemma Pow2Halves(s: nat)
    requires s <= 31
    ensures Pow2(32 - s) * Pow2(s) == TWO32 && Pow2(31 - s) * Pow2(s) == TWO31
    ensures Pow2(32 - s) == 2 * Pow2(31 - s)
  {
    Pow2Values();
    Pow2Sum(32 - s, s);
    Pow2Sum(31 - s, s);
  }

  lemma DivByConstant(x: nat)
    ensures Div(x, TWO32) == x / TWO32
  {
  }

  lemma ShiftedQuotient(d: nat, p: nat, m: nat, b: nat)
    requires p > 0 && m > 0 && m * p == b && b > 0
    ensures Div(d * p, b) == Div(d, m)
  {
    hide Div, Mod;
    var v, r := Div(d, m), Mod(d, m);
    DivMod(d, m);
    MulMono(r + 1, m, p);
    MulAdd(r, 1, p);
    MulAdd(v * m, r, p);
    MulAssoc(v, m, p);
    DivUnique(d * p, b, v, r * p);
  }

  lemma HighHalf(d: nat, p: nat, m: nat, w: nat)
    requires p > 0 && m * p == TWO32 && w * p == TWO31 && m == 2 * w && w > 0
    requires TWO31 <= (d / TWO32) * p < TWO32
    ensures d * p < TWO64 && TWO31 <= Div(d, m) < TWO32
  {
    hide Div;
    var h := d / TWO32;
    assert h < m by { if h >= m { MulMono(m, h, p); } }
    assert h >= w by { if h < w { MulMono(h, w, p); MulMono(h + 1, w, p); MulAdd(h, 1, p); } }
    assert h * TWO32 <= d < h * TWO32 + TWO32;
    DivBelow(d, m, TWO32);
    DivBelow(d, m, TWO31);
    MulMono(d + 1, m * TWO32, p);
    MulAdd(d, 1, p);
    MulAssoc(TWO32, m, p);
  }

  /** The estimate never undershoots. */
  lemma EstimateLow(n: nat, d: nat, v: nat, w: nat)
    requires d > 0 && v > 0 && w > 0 && 2 * (v * w) <= d
    ensures Div(n, d) <= Div(Div(n / 2, v), w)
  {
    hide Div, Mod;
    var k := Div(n, d);
    MulMono(2 * (v * w), d, k);
    DivMod(n, d);
    DivBelow(n / 2, v, k * w);
    DivBelow(Div(n / 2, v), w, k);
  }

  /** Why one correction is enough: what the estimate loses per divisor, over
      the whole quotient, is less than one divisor. */
  lemma LossIsSmall(n: nat, d: nat, m: nat, v: nat, r: nat)
    requires n < TWO64 && d == v * m + r && r < m && m >= 2 && v >= TWO31
    ensures (Div(n, d) + 2) * r <= d
  {
    hide Div, Mod;
    MulMono(TWO31, v, m);
    DivMod(n, d);
    SquareRoom(m, r);
    BoundProduct(Div(n, d), d, r, TWO64 - 1);
  }

  lemma BoundProduct(k: nat, d: nat, r: nat, top: nat)
    requires d > 0 && k * d <= top && r * top + 2 * r * d <= d * d
    ensures (k + 2) * r <= d
  {
    MulMono(k * d, top, r);
    assert ((k + 2) * r) * d == (k * d) * r + 2 * r * d;
    MulAdd(d, 1, d);
    if (k + 2) * r > d { MulMono(d + 1, (k + 2) * r, d); }
  }

  lemma SquareRoom(m: nat, r: nat)
    requires r < m && m >= 2
    ensures r * (TWO64 - 1) + r * r <= (TWO31 * TWO31) * (m * m)
  {
    var e, u := m - 1 - r, m - 2;
    assert m * m == u * u + 4 * e + 4 * r;
    assert r * r <= 4 * (u * u) + r by { SmallSquare(r, u); }
  }

  lemma SmallSquare(r: nat, u: nat)
    requires r <= u + 1
    ensures r * r <= 4 * (u * u) + r
  {
    if r > 0 {
      var z := r - 1;
      assert r * r == z * z + z + r;
      MulMono(z, u, z);
      MulMono(z, u, u);
      assert z * z >= z || z == 0;
    }
  }

  /** The estimate overshoots by one at most. */
  lemma EstimateHigh(n: nat, d: nat, v: nat, w: nat, r: nat)
    requires n < TWO64 && d == 2 * (v * w) + r && r < 2 * w && v >= TWO31
    ensures Div(Div(n / 2, v), w) <= Div(n, d) + 1
  {
    hide Div;
    LossIsSmall(n, d, 2 * w, v, r);
    FloorTwice(n / 2, v, w);
    DivBelow(n, d, Div(n, d) + 1);
    Overshoot(Div(n, d), Div(Div(n / 2, v), w), v * w, d, r, n);
  }

  lemma Overshoot(k: nat, q: nat, p: nat, d: nat, r: nat, n: nat)
    requires q * p <= n / 2 && n < (k + 1) * d && (k + 2) * r <= d && d == 2 * p + r
    ensures q <= k + 1
  {
    if q > k + 1 { MulMono(k + 2, q, p); }
    MulAdd(k + 1, 1, d);
    TwoParts(k + 2, p, r);
  }

  lemma TwoParts(k: nat, p: nat, r: nat)
    ensures k * (2 * p + r) == 2 * (k * p) + k * r
  {
  }

  lemma FloorTwice(u: nat, v: nat, w: nat)
    requires v > 0 && w > 0
    ensures Div(Div(u, v), w) * (v * w) <= u
  {
    hide Div, Mod;
    var t := Div(u, v);
    var q := Div(t, w);
    DivMod(u, v);
    DivMod(t, w);
    MulMono(q * w, t, v);
    MulAssoc(q, w, v);
  }

  lemma WideDivision(n: nat, d: nat)
    requires TWO32 <= d <= n < TWO64
    ensures UdivWide(n, d) == Value(Div(n, d))
  {
    hide Nlz, Shl64, Wrap64, Div, Mod;
    NlzCountsLeadingZeros(d / TWO32);
    var s := Nlz(d / TWO32);
    var w := Pow2(31 - s);
    assert Pow2(32 - s) == 2 * w;
    Normalise(d, s);
    EstimateInRange(n, d, w);
    Correction(n, d, Div(Div(n / 2, Div(d, 2 * w)), w));
  }

  lemma EstimateInRange(n: nat, d: nat, w: nat)
    requires TWO32 <= d <= n < TWO64 && w > 0 && TWO31 <= Div(d, 2 * w)
    ensures var v := Div(d, 2 * w);
            && Div(n / 2, v) < TWO32
            && 1 <= Div(n, d) <= Div(Div(n / 2, v), w) <= Div(n, d) + 1
  {
    hide Div, Mod;
    var v := Div(d, 2 * w);
    DivMod(d, 2 * w);
    assert v * (2 * w) == 2 * (v * w);
    MulMono(TWO31, v, TWO32);
    DivBelow(n / 2, v, TWO32);
    EstimateLow(n, d, v, w);
    EstimateHigh(n, d, v, w, Mod(d, 2 * w));
    DivBelow(n, d, 1);
  }

  /** The final comparison tells which of the two candidates is the floor. */
  lemma Correction(n: nat, d: nat, q: nat)
    requires d > 0 && n < TWO64 && 1 <= Div(n, d) <= q <= Div(n, d) + 1
    ensures (if Wrap64(n - (q - 1) * d) < d then Wrap64(q - 1) else q) == Div(n, d)
  {
    hide Div, Mod, Wrap64;
    var k := Div(n, d);
    DivMod(n, d);
    OneDivisor(k, d);
    NoWrap(n - (q - 1) * d);
    NoWrap(q - 1);
  }

  lemma OneDivisor(k: nat, d: nat)
    requires k > 0 && d > 0
    ensures (k - 1) * d == k * d - d && (k + 1) * d == k * d + d && k <= k * d
  {
    MulAdd(k - 1, 1, d);
    MulAdd(k, 1, d);
    MulMono(1, d, k);
  }

  /** For every dividend and nonzero divisor the division neither traps nor
      misses: the quotient is the floor of n / d. */
  lemma UdivIsFloor(n: nat, d: nat)
    requires n < TWO64 && 0 < d < TWO64
    ensures Udiv64(n, d) == Value(n / d)
  {
    hide UdivWide, UdivNarrow;
    if d / TWO32 == 0 {
      NarrowDivision(n, d);
    } else if n < d {
      BelowDivisor(n, d);
    } else {
      WideDivision(n, d);
    }
  }

  lemma BelowDivisor(n: nat, d: nat)
    requires n < d && TWO32 <= d < TWO64
    ensures UdivWide(n, d) == Value(Div(n, d))
  {
    DivUnique(n, d, 0, n);
  }

  // ----- Signed division -----

  /** Signed division truncates toward zero; the one quotient that has no
      representation, INT64_MIN / -1, comes back as INT64_MIN. */
  lemma SdivTruncates(n: int, d: int)
    requires IsInt64(n) && IsInt64(d) && d != 0
    ensures Sdiv64(n, d) == Some(if IsInt64(TruncDiv(n, d)) then TruncDiv(n, d) else -TWO63)
    ensures IsInt64(TruncDiv(n, d)) <==> !(n == -TWO63 && d == -1)
  {
    hide Udiv64, WithSign, Magnitude, Div;
    MagnitudeIsAbs(n);
    MagnitudeIsAbs(d);
    UdivIsFloor(Abs(n), Abs(d));
    NamedDiv(Abs(n), Abs(d));
    QuotientRange(Abs(n), Abs(d));
    SignedRange((n < 0) != (d < 0), Div(Abs(n), Abs(d)));
  }

  lemma NamedDiv(n: nat, d: nat)
    requires d > 0
    ensures Div(n, d) == n / d
  {
  }

  lemma MagnitudeIsAbs(n: int)
    requires IsInt64(n)
    ensures Magnitude(n) == Abs(n) <= TWO63
    ensures n != 0 ==> Abs(n) > 0
  {
  }

  lemma QuotientRange(a: nat, b: nat)
    requires a <= TWO63 && b > 0
    ensures Div(a, b) <= TWO63
    ensures Div(a, b) == TWO63 <==> a == TWO63 && b == 1
  {
    hide Div;
    MulMono(1, b, TWO63 + 1);
    DivBelow(a, b, TWO63 + 1);
    if b >= 2 { MulMono(2, b, TWO63); }
    DivBelow(a, b, TWO63);
  }

  lemma SignedRange(negative: bool, q: nat)
    requires q <= TWO63
    ensures var z := if negative then 0 - q else q;
            WithSign(negative, q) == if IsInt64(z) then z else -TWO63
    ensures q < TWO63 || negative ==> IsInt64(if negative then 0 - q else q)
  {
    hide Wrap64;
    if negative {
      if q < TWO63 { NegativeWord(q); } else { NoWrap(TWO63); }
    }
  }

  lemma NegativeWord(q: nat)
    requires q < TWO63
    ensures ToInt64(Wrap64(0 - q)) == 0 - q
  {
    if q > 0 { assert (0 - q) % TWO64 == TWO64 - q; }
  }
}
