/** Numbers written as digits in base 2^16, most significant first. */
module Digits {

  const B := 0x1_0000

  /** B to the power k. */
  function Pow(k: nat): (r: nat)
    ensures r > 0
  {
    if k == 0 then 1 else Pow(k - 1) * B
  }

  predicate AreDigits(s: seq<nat>) { forall i :: 0 <= i < |s| ==> s[i] < B }

  function Val(s: seq<nat>): nat {
    if s == [] then 0 else Val(s[..|s| - 1]) * B + s[|s| - 1]
  }

  lemma ValTake(s: seq<nat>, k: nat)
    requires 0 < k <= |s|
    ensures Val(s[..k]) == Val(s[..k - 1]) * B + s[k - 1]
  {
    assert s[..k][..k - 1] == s[..k - 1];
  }

  lemma MulAssoc(a: int, b: int, c: int)
    ensures (a * b) * c == a * (b * c)
  {
  }

  lemma MulMono(a: int, b: int, c: int)
    requires a <= b && 0 <= c
    ensures a * c <= b * c
  {
  }

  lemma MulDist(a: int, b: int, c: int)
    ensures (a + b) * c == a * c + b * c
    ensures (a - b) * c == a * c - b * c
  {
  }

  lemma {:induction false} PowAdd(a: nat, b: nat)
    ensures Pow(a + b) == Pow(a) * Pow(b)
  {
    if b > 0 {
      PowAdd(a, b - 1);
      MulAssoc(Pow(a), Pow(b - 1), B);
    }
  }

  lemma {:induction false} ValBound(s: seq<nat>)
    requires AreDigits(s)
    ensures Val(s) < Pow(|s|)
  {
    if s != [] {
      var t := s[..|s| - 1];
      ValBound(t);
      MulMono(Val(t), Pow(|t|) - 1, B);
      assert s[|s| - 1] < B;
    }
  }

  lemma {:induction false} ValConcat(a: seq<nat>, b: seq<nat>)
    ensures Val(a + b) == Val(a) * Pow(|b|) + Val(b)
  {
    if b == [] {
      assert a + b == a;
    } else {
      var b', x := b[..|b| - 1], b[|b| - 1];
      ValConcat(a, b');
      assert (a + b)[..|a + b| - 1] == a + b';
      MulDist(Val(a) * Pow(|b'|), Val(b'), B);
      MulAssoc(Val(a), Pow(|b'|), B);
    }
  }

  lemma ValOne(x: nat)
    ensures Val([x]) == x
  {
    assert [x][..0] == [];
  }

  lemma ValPrepend(x: nat, b: seq<nat>)
    ensures Val([x] + b) == x * Pow(|b|) + Val(b)
  {
    ValConcat([x], b);
    ValOne(x);
  }

  lemma {:induction false} ValZero(s: seq<nat>)
    requires forall i :: 0 <= i < |s| ==> s[i] == 0
    ensures Val(s) == 0
  {
    if s != [] { ValZero(s[..|s| - 1]); }
  }

  /** A number with leading digit x and value below Pow has x == 0. */
  lemma LeadingZero(x: nat, b: seq<nat>)
    requires Val([x] + b) < Pow(|b|)
    ensures x == 0
  {
    ValPrepend(x, b);
    if x > 0 { MulMono(1, x, Pow(|b|)); }
  }

  // ------------------------------------------------------------- powers of two

  function Pow2(k: nat): (r: nat)
    ensures r > 0
  {
    if k == 0 then 1 else 2 * Pow2(k - 1)
  }

  lemma {:induction false} Pow2Add(a: nat, b: nat)
    ensures Pow2(a + b) == Pow2(a) * Pow2(b)
  {
    if b > 0 {
      Pow2Add(a, b - 1);
    }
  }

  lemma Pow2Digit()
    ensures Pow2(16) == B
  {
    assert Pow2(4) == 16;
    Pow2Add(4, 4);
    Pow2Add(8, 8);
  }

  /** Bitwise or of two unsigned numbers. */
  function Or(x: nat, y: nat): nat
    decreases x + y
  {
    if x == 0 && y == 0 then 0
    else (if x % 2 == 1 || y % 2 == 1 then 1 else 0) + 2 * Or(x / 2, y / 2)
  }

  lemma {:induction false} OrZero(y: nat)
    ensures Or(0, y) == y
  {
    if y > 0 { OrZero(y / 2); }
  }

  lemma {:induction false} OrZeroRight(x: nat)
    ensures Or(x, 0) == x
  {
    if x > 0 { OrZeroRight(x / 2); }
  }

  /** Or of a number shifted left by k and a number of k bits is their sum. */
  lemma {:induction false} OrShifted(x: nat, y: nat, k: nat)
    requires y < Pow2(k)
    ensures Or(x * Pow2(k), y) == x * Pow2(k) + y
    decreases k
  {
    if k == 0 {
      OrZeroRight(x);
    } else if x * Pow2(k) == 0 && y == 0 {
    } else {
      assert x * Pow2(k) == 2 * (x * Pow2(k - 1));
      OrShifted(x, y / 2, k - 1);
    }
  }

  // -------------------------------------------------------------------- shifting

  /** x << k, without a width. */
  function Up(x: nat, k: nat): nat
    decreases k
  {
    if k == 0 then x else Up(2 * x, k - 1)
  }

  /** x >> k. */
  function Down(x: nat, k: nat): nat
    decreases k
  {
    if k == 0 then x else Down(x / 2, k - 1)
  }

  /** The low k bits of x. */
  function Low(x: nat, k: nat): nat
    decreases k
  {
    if k == 0 then 0 else x % 2 + 2 * Low(x / 2, k - 1)
  }

  lemma {:induction false} UpIsTimes(x: nat, k: nat)
    ensures Up(x, k) == x * Pow2(k)
    decreases k
  {
    if k > 0 {
      UpIsTimes(2 * x, k - 1);
    }
  }

  /** Shifting right and keeping the low bits splits a number. */
  lemma {:induction false} DownLow(x: nat, k: nat)
    ensures x == Down(x, k) * Pow2(k) + Low(x, k)
    ensures Low(x, k) < Pow2(k)
    decreases k
  {
    if k > 0 {
      DownLow(x / 2, k - 1);
      DoubleSplit(x / 2, Down(x / 2, k - 1), Pow2(k - 1), Low(x / 2, k - 1), x % 2);
    }
  }

  lemma DoubleSplit(h: nat, a: nat, p: nat, r: nat, bit: nat)
    requires h == a * p + r && r < p && bit < 2
    ensures 2 * h + bit == a * (2 * p) + (bit + 2 * r) && bit + 2 * r < 2 * p
  {
    MulAssoc(a, p, 2);
  }

  lemma DivMod(x: nat, t: nat, q: nat, r: nat)
    requires t > 0 && q == x / t && r == x % t
    ensures x == q * t + r && r < t
  {
  }

  lemma SplitUnique(a: int, r: int, b: int, t: int, p: int)
    requires a * p + r == b * p + t && 0 <= r < p && 0 <= t < p
    ensures a == b && r == t
  {
    if a < b {
      MulMono(a + 1, b, p);
      MulDist(a, 1, p);
    } else if b < a {
      MulMono(b + 1, a, p);
      MulDist(b, 1, p);
    }
  }
}
