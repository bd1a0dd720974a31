/** The bit tricks of the hash table (lib/kernel/hash.c): masking with a power of
    two less one, and rounding down to a power of two. */
module HashBits {
  import opened Nonlinear

  /** A & B on unsigned words. */
  function And(a: nat, b: nat): nat {
    if a == 0 || b == 0 then 0 else 2 * And(a / 2, b / 2) + (a % 2) * (b % 2)
  }

  predicate PowerOf2(n: nat) { n > 0 && (n == 1 || (n % 2 == 0 && PowerOf2(n / 2))) }

  /** The mask BUCKET_CNT - 1 takes the remainder. */
  lemma {:induction false} MaskIsRemainder(h: nat, n: nat)
    requires PowerOf2(n)
    ensures And(h, n - 1) == Mod(h, n)
  {
    hide Mod;
    if n > 1 && h > 0 {
      MaskIsRemainder(h / 2, n / 2);
      assert (n - 1) / 2 == n / 2 - 1 && (n - 1) % 2 == 1;
      HalfRemainder(h, n / 2);
      assert And(h, n - 1) == 2 * And(h / 2, n / 2 - 1) + h % 2;
    } else {
      ModSmall(h, n);
    }
  }

  lemma ModSmall(h: nat, n: nat)
    requires n > 0 && (h == 0 || n == 1)
    ensures Mod(h, n) == 0
  {
  }

  lemma HalfRemainder(h: nat, m: nat)
    requires m > 0
    ensures Mod(h, 2 * m) == 2 * Mod(h / 2, m) + h % 2
  {
    var q, r := h / 2 / m, h / 2 % m;
    assert h / 2 == m * q + r;
    assert h == 2 * m * q + (2 * r + h % 2);
    RemainderIs(h, 2 * m, q, 2 * r + h % 2);
  }

  lemma RemainderIs(h: nat, n: nat, q: nat, r: nat)
    requires n > 0 && r < n && h == n * q + r
    ensures h % n == r
  {
    var q', r' := h / n, h % n;
    assert n * (q - q') == r' - r;
    if q - q' >= 1 { TimesAtLeast(n, q - q'); }
    if q - q' <= -1 { TimesAtLeast(n, q' - q); }
  }

  lemma TimesAtLeast(n: nat, k: nat)
    requires k >= 1
    ensures n * k >= n
  {
  }

  /** Turns off the lowest bit of X that is 1. */
  function TurnOffLeast1Bit(x: nat): nat
    requires x > 0
  {
    And(x, x - 1)
  }

  predicate IsPowerOf2(x: nat) { x != 0 && TurnOffLeast1Bit(x) == 0 }

  lemma {:induction false} AndSelf(x: nat)
    ensures And(x, x) == x
  {
    if x != 0 { AndSelf(x / 2); }
  }

  /** Bit by bit: an odd number loses its last bit, an even one is that of its half. */
  lemma TurnOffStep(x: nat)
    requires x > 0
    ensures x % 2 == 1 ==> TurnOffLeast1Bit(x) == x - 1
    ensures x % 2 == 0 ==> TurnOffLeast1Bit(x) == 2 * TurnOffLeast1Bit(x / 2)
  {
    if x % 2 == 1 {
      assert (x - 1) / 2 == x / 2;
      AndSelf(x / 2);
      if x > 1 { assert And(x, x - 1) == 2 * And(x / 2, x / 2) + 0; }
    } else {
      assert (x - 1) / 2 == x / 2 - 1 && (x - 1) % 2 == 1;
      assert And(x, x - 1) == 2 * And(x / 2, x / 2 - 1) + 0;
    }
  }

  /** The greatest power of two that is at most N. */
  function FloorPower(n: nat): (p: nat)
    requires n > 0
    ensures PowerOf2(p) && p <= n < 2 * p
  {
    if n == 1 then 1 else 2 * FloorPower(n / 2)
  }

  lemma {:induction false} TurnOffKeepsTop(x: nat)
    requires x > 0
    ensures TurnOffLeast1Bit(x) < x
    ensures IsPowerOf2(x) <==> PowerOf2(x)
    ensures !IsPowerOf2(x) ==> TurnOffLeast1Bit(x) > 0 && FloorPower(TurnOffLeast1Bit(x)) == FloorPower(x)
    ensures IsPowerOf2(x) ==> FloorPower(x) == x
  {
    TurnOffStep(x);
    if x % 2 == 1 {
      if x > 1 { assert (x - 1) / 2 == x / 2; }
    } else {
      TurnOffKeepsTop(x / 2);
    }
  }

  /** rehash's loop leaves the greatest power of two. */
  method RoundDown(n: nat) returns (p: nat)
    requires n > 0
    ensures p == FloorPower(n)
  {
    p := n;
    TurnOffKeepsTop(p);
    while !IsPowerOf2(p)
      invariant p > 0 && FloorPower(p) == FloorPower(n)
      decreases p
    {
      TurnOffKeepsTop(p);
      p := TurnOffLeast1Bit(p);
    }
    TurnOffKeepsTop(p);
  }
}
