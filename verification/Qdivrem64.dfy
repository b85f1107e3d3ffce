/** __qdivrem on 64-bit numbers: splitting into digits, normalising by a shift,
    the division proper, and undoing the shift.

    Source: common/gcc-millicode/qdivrem.c. */
module Qdivrem64 {
  import opened Common
  import opened Digits
  import opened Qdivrem

  const HALF_BITS := 16
  const ULL := UINT * UINT      // 2^64

  // --------------------------------------------------------------------- shifting

  /** A digit of shl: the low bits of x moved up, joined with the high bits of the
      digit y after it. */
  function ShlDigit(x: nat, y: nat, sh: nat): nat
    requires sh <= HALF_BITS
  {
    Or(Up(x, sh) % B, Down(y, HALF_BITS - sh))
  }

  /** A digit of the final right shift: the high bits of y, joined with the low bits
      of the digit x before it. */
  function ShrDigit(x: nat, y: nat, sh: nat): nat
    requires sh <= HALF_BITS
  {
    Or(Down(y, sh), Up(x, HALF_BITS - sh) % B)
  }

  lemma ShiftFactors(sh: nat)
    requires sh <= HALF_BITS
    ensures Pow2(sh) * Pow2(HALF_BITS - sh) == B
  {
    Pow2Add(sh, HALF_BITS - sh);
    Pow2Digit();
  }

  /** Moving x up by sh carries its high bits out of the digit. */
  lemma UpSplits(x: nat, sh: nat)
    requires sh <= HALF_BITS
    ensures var carry, low := Down(x, HALF_BITS - sh), Low(x, HALF_BITS - sh);
            x * Pow2(sh) == carry * B + low * Pow2(sh) && low * Pow2(sh) <= B - Pow2(sh)
    ensures Up(x, sh) % B == Low(x, HALF_BITS - sh) * Pow2(sh)
  {
    var lo, hi := Pow2(sh), Pow2(HALF_BITS - sh);
    var a, b := Down(x, HALF_BITS - sh), Low(x, HALF_BITS - sh);
    DownLow(x, HALF_BITS - sh);
    UpIsTimes(x, sh);
    ShiftFactors(sh);
    ScaleSplit(x, a, b, lo, hi);
    ModOf(x * lo, a, b * lo);
  }

  lemma ScaleSplit(x: int, a: int, b: int, lo: int, hi: int)
    requires x == a * hi + b && 0 <= b < hi && 0 < lo && lo * hi == B
    ensures x * lo == a * B + b * lo && 0 <= b * lo <= B - lo
  {
    MulDist(a * hi, b, lo);
    MulAssoc(a, hi, lo);
    MulMono(b, hi - 1, lo);
    MulDist(hi, 1, lo);
  }

  lemma ModOf(x: int, a: int, r: int)
    requires x == a * B + r && 0 <= r < B
    ensures x % B == r
  {
  }

  lemma DownSmall(y: nat, k: nat)
    requires k <= HALF_BITS && y < B
    ensures Down(y, k) < Pow2(HALF_BITS - k)
  {
    DownLow(y, k);
    ShiftFactors(k);
    QuotientLess(Down(y, k), Pow2(k), Pow2(HALF_BITS - k), y);
  }

  lemma QuotientLess(a: nat, lo: nat, hi: nat, y: nat)
    requires a * lo <= y < B && lo * hi == B
    ensures a < hi
  {
    if a >= hi { MulMono(hi, a, lo); }
  }

  lemma {:induction false} OrComm(x: nat, y: nat)
    ensures Or(x, y) == Or(y, x)
    decreases x + y
  {
    if x != 0 || y != 0 { OrComm(x / 2, y / 2); }
  }

  /** The two halves that shl joins do not overlap. */
  lemma ShlDigitValue(x: nat, y: nat, sh: nat)
    requires sh <= HALF_BITS && x < B && y < B
    ensures ShlDigit(x, y, sh) == Low(x, HALF_BITS - sh) * Pow2(sh) + Down(y, HALF_BITS - sh) < B
  {
    UpSplits(x, sh);
    DownSmall(y, HALF_BITS - sh);
    OrShifted(Low(x, HALF_BITS - sh), Down(y, HALF_BITS - sh), sh);
  }

  lemma ShrDigitValue(x: nat, y: nat, sh: nat)
    requires sh <= HALF_BITS && x < B && y < B
    ensures ShrDigit(x, y, sh) == Low(x, sh) * Pow2(HALF_BITS - sh) + Down(y, sh) < B
  {
    UpSplits(x, HALF_BITS - sh);
    DownSmall(y, sh);
    OrComm(Down(y, sh), Low(x, sh) * Pow2(HALF_BITS - sh));
    OrShifted(Low(x, sh), Down(y, sh), HALF_BITS - sh);
  }

  function NextDigit(s: seq<nat>, i: nat): nat { if i + 1 < |s| then s[i + 1] else 0 }

  /** t is s shifted left by sh, digit by digit. */
  ghost predicate ShiftedLeft(s: seq<nat>, t: seq<nat>, sh: nat)
    requires sh <= HALF_BITS
  {
    |t| == |s| && forall i :: 0 <= i < |s| ==> t[i] == ShlDigit(s[i], NextDigit(s, i), sh)
  }

  /** If no bit leaves on the left, shifting multiplies the value. */
  lemma ShiftedLeftValue(s: seq<nat>, t: seq<nat>, sh: nat)
    requires sh <= HALF_BITS && AreDigits(s) && ShiftedLeft(s, t, sh) && s != []
    requires Down(s[0], HALF_BITS - sh) == 0
    ensures AreDigits(t) && Val(t) == Val(s) * Pow2(sh)
  {
    forall i | 0 <= i < |t| ensures t[i] < B {
      ShlDigitValue(s[i], NextDigit(s, i), sh);
    }
    ShiftedPrefix(s, t, sh, |s|);
    assert s[..|s|] == s && t[..|t|] == t;
  }

  function CarryInto(s: seq<nat>, k: nat, sh: nat): nat
    requires sh <= HALF_BITS
  {
    if k < |s| then Down(s[k], HALF_BITS - sh) else 0
  }

  lemma CarryIs(s: seq<nat>, k: nat, sh: nat)
    requires sh <= HALF_BITS && k <= |s|
    ensures k > 0 ==> CarryInto(s, k, sh) == Down(NextDigit(s, k - 1), HALF_BITS - sh)
    ensures k < |s| ==> CarryInto(s, k, sh) == Down(s[k], HALF_BITS - sh)
  {
    DownZero(HALF_BITS - sh);
  }

  lemma {:induction false} ShiftedPrefix(s: seq<nat>, t: seq<nat>, sh: nat, k: nat)
    requires sh <= HALF_BITS && AreDigits(s) && ShiftedLeft(s, t, sh) && s != [] && k <= |s|
    requires Down(s[0], HALF_BITS - sh) == 0
    ensures Val(t[..k]) == Val(s[..k]) * Pow2(sh) + CarryInto(s, k, sh)
  {
    if k > 0 {
      ShiftedPrefix(s, t, sh, k - 1);
      ShiftedPrefixNext(s, t, sh, k);
    } else {
      assert s[..0] == [] == t[..0];
    }
  }

  lemma ShiftedPrefixNext(s: seq<nat>, t: seq<nat>, sh: nat, k: nat)
    requires sh <= HALF_BITS && AreDigits(s) && ShiftedLeft(s, t, sh) && 0 < k <= |s|
    requires Val(t[..k - 1]) == Val(s[..k - 1]) * Pow2(sh) + CarryInto(s, k - 1, sh)
    ensures Val(t[..k]) == Val(s[..k]) * Pow2(sh) + CarryInto(s, k, sh)
  {
    var x, y := s[k - 1], NextDigit(s, k - 1);
    CarryIs(s, k, sh);
    CarryIs(s, k - 1, sh);
    ValTake(t, k);
    ValTake(s, k);
    assert t[k - 1] == ShlDigit(x, y, sh);
    NextPrefix(Val(t[..k]), Val(s[..k]), Val(t[..k - 1]), Val(s[..k - 1]), x, y, sh);
  }

  lemma NextPrefix(t': nat, s': nat, t: nat, s: nat, x: nat, y: nat, sh: nat)
    requires sh <= HALF_BITS && x < B && y < B && t == s * Pow2(sh) + Down(x, HALF_BITS - sh)
    requires t' == t * B + ShlDigit(x, y, sh) && s' == s * B + x
    ensures t' == s' * Pow2(sh) + Down(y, HALF_BITS - sh)
  {
    ShiftedPrefixStep(t, s, x, sh, y);
  }

  lemma ShiftedPrefixStep(t: nat, s: nat, x: nat, sh: nat, y: nat)
    requires sh <= HALF_BITS && x < B && y < B && t == s * Pow2(sh) + Down(x, HALF_BITS - sh)
    ensures t * B + ShlDigit(x, y, sh) == (s * B + x) * Pow2(sh) + Down(y, HALF_BITS - sh)
  {
    ShlDigitValue(x, y, sh);
    UpSplits(x, sh);
    PrefixArith(t, s, x, Pow2(sh), Down(x, HALF_BITS - sh), Low(x, HALF_BITS - sh) * Pow2(sh));
  }

  lemma {:induction false} DownZero(k: nat)
    ensures Down(0, k) == 0
  {
    if k > 0 { DownZero(k - 1); }
  }

  lemma PrefixArith(t: int, s: int, x: int, lo: int, a: int, b: int)
    requires t == s * lo + a && x * lo == a * B + b
    ensures t * B + b == (s * B + x) * lo
  {
    MulDist(s * lo, a, B);
    MulDist(s * B, x, lo);
    assert (s * lo) * B == (s * B) * lo;
  }

  /** shl: shift p[at..at+len] left in place. */
  method Shl(p: array<nat>, at: nat, len: nat, sh: nat)
    requires at + len < p.Length && sh <= HALF_BITS
    modifies p
    ensures ShiftedLeft(old(p[at..at + len + 1]), p[at..at + len + 1], sh)
    ensures forall k :: 0 <= k < p.Length && !(at <= k <= at + len) ==> p[k] == old(p[k])
  {
    ghost var was := p[..];
    ghost var s := was[at..at + len + 1];
    var i := 0;
    while i < len
      invariant 0 <= i <= len
      invariant forall k :: 0 <= k < p.Length && !(at <= k < at + i) ==> p[k] == was[k]
      invariant forall k :: at <= k < at + i ==> p[k] == ShlDigit(s[k - at], NextDigit(s, k - at), sh)
    {
      assert p[at + i] == s[i] && p[at + i + 1] == NextDigit(s, i);
      p[at + i] := Or(Up(p[at + i], sh) % B, Down(p[at + i + 1], HALF_BITS - sh));
      i := i + 1;
    }
    p[at + i] := Up(p[at + i], sh) % B;
    DownZero(HALF_BITS - sh);
    OrZeroRight(Up(s[len], sh) % B);
    assert old(p[at..at + len + 1]) == s;
    assert p[at + len] == ShlDigit(s[len], NextDigit(s, len), sh);
  }

  function PrevDigit(s: seq<nat>, i: nat): nat
    requires i <= |s|
  {
    if i > 0 then s[i - 1] else 0
  }

  /** t is s shifted right by sh, digit by digit. */
  ghost predicate ShiftedRight(s: seq<nat>, t: seq<nat>, sh: nat)
    requires sh <= HALF_BITS
  {
    |t| == |s| && forall i :: 0 <= i < |s| ==> t[i] == ShrDigit(PrevDigit(s, i), s[i], sh)
  }

  /** Shifting right divides the value, dropping the low bits of the last digit. */
  lemma {:induction false} ShiftedRightPrefix(s: seq<nat>, t: seq<nat>, sh: nat, k: nat)
    requires sh <= HALF_BITS && AreDigits(s) && ShiftedRight(s, t, sh) && k <= |s|
    ensures Val(s[..k]) == Val(t[..k]) * Pow2(sh) + Low(PrevDigit(s, k), sh)
  {
    if k > 0 {
      ShiftedRightPrefix(s, t, sh, k - 1);
      ShiftedDigit(s, t, sh, k - 1);
      ShiftedRightNext(s, t, sh, k, Low(PrevDigit(s, k - 1), sh));
    } else {
      assert s[..0] == [] == t[..0];
      DownLow(0, sh);
      LowZero(sh);
    }
  }

  lemma ShiftedDigit(s: seq<nat>, t: seq<nat>, sh: nat, i: nat)
    requires sh <= HALF_BITS && AreDigits(s) && ShiftedRight(s, t, sh) && i < |s|
    ensures t[i] == Low(PrevDigit(s, i), sh) * Pow2(HALF_BITS - sh) + Down(s[i], sh)
  {
    ShrDigitValue(PrevDigit(s, i), s[i], sh);
  }

  lemma {:induction false} LowZero(k: nat)
    ensures Low(0, k) == 0
  {
    if k > 0 { LowZero(k - 1); }
  }

  lemma ShiftedRightNext(s: seq<nat>, t: seq<nat>, sh: nat, k: nat, r: nat)
    requires sh <= HALF_BITS && 0 < k <= |s| == |t|
    requires t[k - 1] == r * Pow2(HALF_BITS - sh) + Down(s[k - 1], sh)
    requires Val(s[..k - 1]) == Val(t[..k - 1]) * Pow2(sh) + r
    ensures Val(s[..k]) == Val(t[..k]) * Pow2(sh) + Low(s[k - 1], sh)
  {
    ValTake(s, k);
    ValTake(t, k);
    RightStep(Val(s[..k - 1]), Val(t[..k - 1]), r, s[k - 1], sh, t[k - 1], Val(t[..k]));
  }

  lemma RightStep(vs: nat, vt: nat, r: nat, y: nat, sh: nat, d: nat, vt': nat)
    requires sh <= HALF_BITS && vs == vt * Pow2(sh) + r && d == r * Pow2(HALF_BITS - sh) + Down(y, sh)
    requires vt' == vt * B + d
    ensures vs * B + y == vt' * Pow2(sh) + Low(y, sh)
  {
    DownLow(y, sh);
    ShiftFactors(sh);
    RightArith(vs, vt, r, y, Down(y, sh), Low(y, sh), Pow2(sh), Pow2(HALF_BITS - sh), d, vt');
  }

  lemma RightArith(vs: int, vt: int, r: int, y: int, a: int, b: int, lo: int, hi: int, d: int, vt': int)
    requires vs == vt * lo + r && y == a * lo + b && d == r * hi + a && lo * hi == B && vt' == vt * B + d
    ensures vs * B + y == vt' * lo + b
  {
    MulDist(vt * B, d, lo);
    MulDist(r * hi, a, lo);
    MulDist(vt * lo, r, B);
    assert (vt * B) * lo == (vt * lo) * B;
    assert (r * hi) * lo == r * B by { MulAssoc(r, hi, lo); }
  }

  lemma ShiftedRightExact(s: seq<nat>, t: seq<nat>, sh: nat, r: nat)
    requires sh <= HALF_BITS && AreDigits(s) && ShiftedRight(s, t, sh) && Val(s) == r * Pow2(sh)
    ensures Val(t) == r && AreDigits(t)
  {
    ShiftedRightPrefix(s, t, sh, |s|);
    assert s[..|s|] == s && t[..|t|] == t;
    DownLow(PrevDigit(s, |s|), sh);
    SplitUnique(r, 0, Val(t), Low(PrevDigit(s, |s|), sh), Pow2(sh));
    forall i | 0 <= i < |t| ensures t[i] < B {
      ShrDigitValue(PrevDigit(s, i), s[i], sh);
    }
  }

  /** The shift back of the remainder, u[lo+1..hi], where u[lo] is zero. */
  method Unshift(u: array<nat>, lo: nat, hi: nat, sh: nat)
    requires lo <= hi < u.Length && sh <= HALF_BITS && u[lo] == 0
    modifies u
    ensures ShiftedRight(old(u[lo + 1..hi + 1]), u[lo + 1..hi + 1], sh)
    ensures forall k :: 0 <= k < u.Length && !(lo < k <= hi) ==> u[k] == old(u[k])
  {
    ghost var was := u[..];
    ghost var s := was[lo + 1..hi + 1];
    var i := hi;
    while i > lo
      invariant lo <= i <= hi
      invariant forall k :: 0 <= k < u.Length && !(i < k <= hi) ==> u[k] == was[k]
      invariant forall k :: i < k <= hi ==> u[k] == ShrDigit(PrevDigit(s, k - (lo + 1)), s[k - (lo + 1)], sh)
    {
      assert u[i] == s[i - (lo + 1)] && u[i - 1] == PrevDigit(s, i - (lo + 1));
      u[i] := Or(Down(u[i], sh), Up(u[i - 1], HALF_BITS - sh) % B);
      i := i - 1;
    }
    u[i] := 0;
    assert old(u[lo + 1..hi + 1]) == s;
  }

  // ----------------------------------------------------------------- normalisation

  /** D1: the shift that brings the leading divisor digit to at least B / 2. */
  method NormalizingShift(v1: nat) returns (d: nat)
    requires 0 < v1 < B
    ensures d < HALF_BITS && B / 2 <= v1 * Pow2(d) < B
  {
    d := 0;
    var t := v1;
    while t < B / 2
      invariant t == v1 * Pow2(d) && 0 < t < B
      decreases B - t
    {
      DoubleShift(v1, d);
      t := 2 * t;
      d := d + 1;
    }
    ShiftBelow(v1, d);
  }

  lemma DoubleShift(v1: nat, d: nat)
    ensures 2 * (v1 * Pow2(d)) == v1 * Pow2(d + 1)
  {
  }

  lemma ShiftBelow(v1: nat, d: nat)
    requires 0 < v1 && v1 * Pow2(d) < B
    ensures d < HALF_BITS
  {
    if d >= HALF_BITS {
      Pow2Add(HALF_BITS, d - HALF_BITS);
      Pow2Digit();
      MulMono(1, Pow2(d - HALF_BITS), B);
      MulMono(1, v1, Pow2(d));
    }
  }

  lemma NoCarryOut(v1: nat, d: nat)
    requires d <= HALF_BITS && v1 * Pow2(d) < B
    ensures Down(v1, HALF_BITS - d) == 0
  {
    UpSplits(v1, d);
  }

  /** The leading n digits of the shifted dividend are below the shifted divisor. */
  lemma LeadingBelow(us: seq<nat>, n: nat, m: nat, u: nat, v: nat, p: nat)
    requires |us| == m + n + 1 && n > 0 && Val(us) == u * p && p > 0
    requires u < Pow(m + n) && v >= Pow(n - 1)
    ensures Val(us[..n]) < v * p
  {
    var lead, rest := us[..n], us[n..];
    assert us == lead + rest;
    ValConcat(lead, rest);
    if Val(lead) >= v * p {
      PowAdd(n - 1, m + 1);
      MulMono(v * p, Val(lead), Pow(m + 1));
      LeadingArith(u, v, p, Pow(m + 1), Pow(n - 1));
    }
  }

  lemma LeadingArith(u: nat, v: nat, p: nat, pm: nat, pn: nat)
    requires p > 0 && v >= pn && (v * p) * pm <= u * p
    ensures u >= pn * pm
  {
    assert (v * p) * pm == (v * pm) * p;
    if u < v * pm { MulMono(u + 1, v * pm, p); MulDist(u, 1, p); }
    MulMono(pn, v, pm);
  }

  /** Taking the common factor 2^d out of dividend, divisor and remainder. */
  lemma Unscale(u: nat, v: nat, q: nat, r: nat, p: nat) returns (rem: nat)
    requires u * p == q * (v * p) + r && r < v * p && p > 0
    ensures r == rem * p && u == q * v + rem && rem < v
  {
    assert q * (v * p) == (q * v) * p by { MulAssoc(q, v, p); }
    MulDist(u, q * v, p);
    assert r == (u - q * v) * p;
    if u < q * v { MulMono(u - q * v, -1, p); }
    rem := u - q * v;
    if rem >= v { MulMono(v, rem, p); }
  }

  // --------------------------------------------------------------- digits of 64 bits

  /** uspace or vspace: a leading zero and the four digits of x. */
  method ToDigits(x: nat) returns (a: array<nat>)
    requires x < ULL
    ensures fresh(a) && a.Length == 5 && a[0] == 0 && AreDigits(a[..]) && Val(a[1..]) == x
  {
    var hi, lo := x / UINT, x % UINT;
    a := new nat[5](_ => 0);
    a[1], a[2], a[3], a[4] := hi / B, hi % B, lo / B, lo % B;
    assert a[1..] == [hi / B, hi % B, lo / B, lo % B];
    Val4(hi / B, hi % B, lo / B, lo % B);
  }

  lemma Val4(a: nat, b: nat, c: nat, d: nat)
    ensures Val([a, b, c, d]) == Combine(a, b) * UINT + Combine(c, d)
  {
    assert [a, b, c, d] == [a, b] + [c, d];
    ValConcat([a, b], [c, d]);
    Val2([a, b], 0);
    Val2([c, d], 0);
    assert [a, b][0..2] == [a, b] && [c, d][0..2] == [c, d];
    assert Pow(2) == UINT;
  }

  /** The two halves of the result, from digits 1 to 4. */
  method FromDigits(a: array<nat>) returns (x: nat)
    requires a.Length == 5
    ensures x == Val(a[1..])
  {
    x := Combine(a[1], a[2]) * UINT + Combine(a[3], a[4]);
    assert a[1..] == [a[1], a[2], a[3], a[4]];
    Val4(a[1], a[2], a[3], a[4]);
  }

  /** Leading zeros do not count. */
  lemma SkipZeros(s: seq<nat>, i: nat, j: nat)
    requires i <= j <= |s| && forall k :: i <= k < j ==> s[k] == 0
    ensures Val(s[i..]) == Val(s[j..])
  {
    assert s[i..] == s[i..j] + s[j..];
    ValConcat(s[i..j], s[j..]);
    ValZero(s[i..j]);
  }

  lemma LeadingNonzero(s: seq<nat>)
    requires s != [] && AreDigits(s)
    ensures s[0] > 0 <==> Val(s) >= Pow(|s| - 1)
  {
    var rest := s[1..];
    assert s == [s[0]] + rest;
    ValPrepend(s[0], rest);
    ValBound(rest);
    if s[0] > 0 { MulMono(1, s[0], Pow(|rest|)); }
  }

  lemma {:induction false} PowMono(a: nat, b: nat)
    requires Pow(a) < Pow(b)
    ensures a < b
  {
    if b <= a {
      PowAdd(b, a - b);
      MulMono(1, Pow(a - b), Pow(b));
    }
  }

  // ------------------------------------------------------------- one-digit divisor

  /** Exercise 16 of the same section, unrolled: a divisor of one digit. */
  method DivideByDigit(u1: nat, u2: nat, u3: nat, u4: nat, t: nat) returns (q: nat, r: nat)
    requires u1 < B && u2 < B && u3 < B && u4 < B && 0 < t < B
    ensures Combine(u1, u2) * UINT + Combine(u3, u4) == q * t + r && r < t
  {
    var q1, r1 := u1 / t, u1 % t;
    DivMod(u1, t, q1, r1);
    var q2, r2 := DigitQuotient(r1, u2, t);
    var q3, r3 := DigitQuotient(r2, u3, t);
    var q4, r4 := DigitQuotient(r3, u4, t);
    q, r := Combine(q1, q2) * UINT + Combine(q3, q4), r4;
    ExtendQuotient(B, u1, q1, t, r1, u2, q2, r2);
    ExtendQuotient(B, Combine(u1, u2), Combine(q1, q2), t, r2, u3, q3, r3);
    ExtendQuotient(B, Combine(Combine(u1, u2), u3), Combine(Combine(q1, q2), q3), t, r3, u4, q4, r4);
    assert q == Combine(Combine(Combine(q1, q2), q3), q4);
  }

  /** rbj = COMBINE(r, u): its quotient by t is a digit. */
  method DigitQuotient(r: nat, u: nat, t: nat) returns (q: nat, r': nat)
    requires r < t < B && u < B
    ensures r * B + u == q * t + r' && r' < t && q < B
  {
    q, r' := FirstEstimate(r, u, t);
  }

  // ------------------------------------------------------------------ the function

  /** How many leading zero digits the dividend has after position 0; the loop that
      sets m never runs past the divisor's length. */
  method SkipDividend(u: array<nat>, n: nat, ghost v: nat) returns (uo: nat)
    requires u.Length == 5 && AreDigits(u[..]) && 2 <= n <= 4 && Val(u[1..]) >= v >= Pow(n - 1)
    ensures uo + n <= 4 && forall k :: 1 <= k <= uo ==> u[k] == 0
  {
    uo := 0;
    while u[uo + 1] == 0
      invariant uo + n <= 4 && forall k :: 1 <= k <= uo ==> u[k] == 0
      decreases 4 - uo
    {
      ghost var us := u[..];
      assert us[1..] == u[1..];
      SkipZeros(us, 1, uo + 2);
      ValBound(us[uo + 2..]);
      PowMono(n - 1, 3 - uo);
      uo := uo + 1;
    }
  }

  /** The window the division works on, shifted: its value is scaled by 2^d. */
  method Normalize(p: array<nat>, at: nat, len: nat, d: nat)
    requires at + len + 1 == p.Length && d <= HALF_BITS && AreDigits(p[..])
    requires Down(p[at], HALF_BITS - d) == 0
    modifies p
    ensures AreDigits(p[..]) && Val(p[at..]) == Val(old(p[at..])) * Pow2(d)
    ensures forall k :: 0 <= k < at ==> p[k] == old(p[k])
  {
    if d > 0 {
      ghost var s := p[at..];
      assert p[at..at + len + 1] == s;
      Shl(p, at, len, d);
      assert p[at..at + len + 1] == p[at..];
      ShiftedLeftValue(s, p[at..], d);
      forall k | 0 <= k < p.Length ensures p[k] < B {
        if k >= at { assert p[k] == p[at..][k - at]; }
      }
    }
  }

  /** Both numbers scaled by 2^d, ready for Program D. */
  ghost predicate Scaled(us: seq<nat>, uo: nat, vs: seq<nat>, vo: nat, n: nat, d: nat, x: nat, y: nat) {
    && |us| == 5 && |vs| == 5 && AreDigits(us) && AreDigits(vs) && 2 <= n && uo + n <= 4 && vo + n == 4
    && d <= HALF_BITS && (forall k :: 0 <= k < uo ==> us[k] == 0)
    && vs[vo + 1] > 0 && Val(us[uo..]) == x * Pow2(d) && Val(vs[vo + 1..]) == y * Pow2(d)
    && Val(us[uo..uo + n]) < y * Pow2(d)
  }

  /** The first part of Program D: count the dividend's digits and normalise. The
      divisor has n digits, v[vo+1..], and v[vo+1] is the first nonzero one. */
  method Prepare(u: array<nat>, v: array<nat>, vo: nat, n: nat, ghost x: nat, ghost y: nat) returns (uo: nat, d: nat)
    requires u != v && u.Length == 5 && v.Length == 5 && AreDigits(u[..]) && AreDigits(v[..]) && u[0] == 0
    requires 2 <= n && vo + n == 4 && v[vo + 1] > 0 && Val(u[1..]) == x && Val(v[vo + 1..]) == y && y <= x
    modifies u, v
    ensures Scaled(u[..], uo, v[..], vo, n, d, x, y)
  {
    LeadingNonzero(v[vo + 1..]);
    uo := SkipDividend(u, n, y);
    d := NormalizingShift(v[vo + 1]);
    assert u[..][1..] == u[1..];
    WindowStart(u[..], uo, x);
    assert u[..][uo..] == u[uo..];
    NormalizeBoth(u, uo, v, vo, n, d, x, y);
  }

  /** Both numbers shifted by the same d. */
  method NormalizeBoth(u: array<nat>, uo: nat, v: array<nat>, vo: nat, n: nat, d: nat, ghost x: nat, ghost y: nat)
    requires u != v && u.Length == 5 && v.Length == 5 && AreDigits(u[..]) && AreDigits(v[..])
    requires 2 <= n && vo + n == 4 && uo + n <= 4 && d < HALF_BITS && 0 < v[vo + 1] && v[vo + 1] * Pow2(d) < B
    requires (forall k :: 0 <= k <= uo ==> u[k] == 0) && Val(u[uo..]) == x && Val(v[vo + 1..]) == y
    requires x < Pow(4 - uo) && y >= Pow(n - 1)
    modifies u, v
    ensures Scaled(u[..], uo, v[..], vo, n, d, x, y)
  {
    DownZero(HALF_BITS - d);
    NoCarryOut(v[vo + 1], d);
    Normalize(u, uo, 4 - uo, d);
    Normalize(v, vo + 1, n - 1, d);
    ReadyToDivide(u[uo..], v[vo + 1..], n, 4 - n - uo, d, x, y);
    assert u[..][uo..] == u[uo..] && v[..][vo + 1..] == v[vo + 1..];
    assert u[..][uo..uo + n] == u[uo..][..n] && v[..][vo + 1] == v[vo + 1..][0];
  }

  lemma ReadyToDivide(us: seq<nat>, vs: seq<nat>, n: nat, m: nat, d: nat, x: nat, y: nat)
    requires |us| == m + n + 1 && |vs| == n > 0 && AreDigits(vs)
    requires Val(us) == x * Pow2(d) && Val(vs) == y * Pow2(d) && x < Pow(m + n) && y >= Pow(n - 1)
    ensures vs[0] > 0 && Val(us[..n]) < y * Pow2(d)
  {
    ScaledDivisor(vs, y, Pow2(d), n);
    LeadingBelow(us, n, m, x, y, Pow2(d));
  }

  /** The loop of Program D on the scaled numbers: quotient digits, and the scaled
      remainder in the last digits of u. */
  method DivideScaled(u: array<nat>, uo: nat, v: array<nat>, vo: nat, n: nat, ghost d: nat, ghost x: nat, ghost y: nat)
    returns (q: nat, ghost rem: nat)
    requires u != v && Scaled(u[..], uo, v[..], vo, n, d, x, y)
    modifies u
    ensures x == q * y + rem && rem < y
    ensures u.Length == 5 && AreDigits(u[..]) && Val(u[5 - n..]) == rem * Pow2(d)
    ensures forall k :: 0 <= k < 5 - n ==> u[k] == 0
  {
    var m := 4 - n - uo;
    var qd := new nat[5](_ => 0);
    ghost var was, vs := u[..], v[..];
    assert v[vo + 1..vo + n + 1] == vs[vo + 1..] && u[uo..uo + n] == was[uo..uo + n];
    DivideDigits(u, uo, v, vo, qd, 4 - m, m, n);
    ghost var now := u[..];
    assert v[vo + 1..vo + n + 1] == vs[vo + 1..];
    assert was[uo..uo + n + (m + 1)] == was[uo..] && now[uo + (m + 1)..uo + n + (m + 1)] == u[5 - n..];
    assert qd[4 - m..4 - m + m + 1] == qd[4 - m..5];
    rem := Unscale(x, y, Val(qd[4 - m..5]), Val(u[5 - n..]), Pow2(d));
    q := NumberAt(qd, 4 - m);
  }

  /** Program D with its normalisation. */
  method DivideLong(u: array<nat>, v: array<nat>, vo: nat, n: nat, ghost x: nat, ghost y: nat) returns (q: nat, r: nat)
    requires u != v && u.Length == 5 && v.Length == 5 && AreDigits(u[..]) && AreDigits(v[..]) && u[0] == 0
    requires 2 <= n && vo + n == 4 && v[vo + 1] > 0 && Val(u[1..]) == x && Val(v[vo + 1..]) == y && y <= x
    modifies u, v
    ensures x == q * y + r && r < y
  {
    var uo, d := Prepare(u, v, vo, n, x, y);
    ghost var rem: nat;
    q, rem := DivideScaled(u, uo, v, vo, n, d, x, y);
    r := Remainder(u, n, d, rem);
  }

  /** The last part: shift the remainder back and read it off. */
  method Remainder(u: array<nat>, n: nat, d: nat, ghost rem: nat) returns (r: nat)
    requires u.Length == 5 && 2 <= n <= 4 && d <= HALF_BITS && AreDigits(u[..])
    requires Val(u[5 - n..]) == rem * Pow2(d) && forall k :: 0 <= k < 5 - n ==> u[k] == 0
    modifies u
    ensures r == rem
  {
    if d > 0 {
      ghost var s := u[5 - n..];
      assert u[5 - n..4 + 1] == s;
      Unshift(u, 4 - n, 4, d);
      assert u[5 - n..4 + 1] == u[5 - n..];
      ShiftedRightExact(s, u[5 - n..], d, rem);
    }
    assert u[5 - n..5] == u[5 - n..];
    r := NumberAt(u, 5 - n);
  }

  lemma WindowStart(us: seq<nat>, uo: nat, x: nat)
    requires |us| == 5 && uo <= 2 && AreDigits(us) && us[0] == 0 && (forall k :: 1 <= k <= uo ==> us[k] == 0)
    requires Val(us[1..]) == x
    ensures us[uo] == 0 && Val(us[uo..]) == x && x < Pow(4 - uo)
  {
    SkipZeros(us, uo, uo + 1);
    SkipZeros(us, 1, uo + 1);
    ValBound(us[uo + 1..]);
  }

  /** The scaled divisor keeps a nonzero leading digit. */
  lemma ScaledDivisor(vs: seq<nat>, y: nat, p: nat, n: nat)
    requires |vs| == n >= 1 && AreDigits(vs) && Val(vs) == y * p && p > 0 && y >= Pow(n - 1)
    ensures vs[0] > 0
  {
    MulMono(1, p, y);
    LeadingNonzero(vs);
  }

  method NumberAt(qd: array<nat>, at: nat) returns (q: nat)
    requires qd.Length == 5 && 1 <= at < 5 && forall k :: 1 <= k < at ==> qd[k] == 0
    ensures q == Val(qd[at..5])
  {
    q := FromDigits(qd);
    ghost var s := qd[..];
    SkipZeros(s, 1, at);
    assert s[1..] == qd[1..] && s[at..] == qd[at..5];
  }

  /** __qdivrem: quotient and remainder of 64-bit numbers; None is the trap on a zero
      divisor. */
  method QdivremWithRemainder(ull: nat, vll: nat) returns (r: Option<(nat, nat)>)
    requires ull < ULL && vll < ULL
    ensures r.None? <==> vll == 0
    ensures r.Some? ==> ull == r.value.0 * vll + r.value.1 && r.value.1 < vll
  {
    if vll == 0 {
      return None;
    }
    if ull < vll {
      return Some((0, ull));
    }
    var u := ToDigits(ull);
    var v := ToDigits(vll);
    var n, vo := 4, 0;
    while v[vo + 1] == 0
      invariant AreDigits(u[..]) && u[0] == 0 && Val(u[1..]) == ull && AreDigits(v[..]) && Val(v[1..]) == vll
      invariant vo <= 2 && n == 4 - vo && forall k :: 1 <= k <= vo ==> v[k] == 0
      decreases n
    {
      n := n - 1;
      ghost var vs := v[..];
      assert vs[1..] == v[1..];
      SkipZeros(vs, 1, vo + 2);
      if n == 1 {
        assert vs[4..] == [v[4]] && v[vo + 2] == v[4];
        ValOne(v[4]);
        assert u[1..] == [u[1], u[2], u[3], u[4]];
        Val4(u[1], u[2], u[3], u[4]);
        var q, rem := DivideByDigit(u[1], u[2], u[3], u[4], v[vo + 2]);
        return Some((q, rem));
      }
      vo := vo + 1;
    }
    SkipZeros(v[..], 1, vo + 1);
    assert v[..][1..] == v[1..] && v[..][vo + 1..] == v[vo + 1..];
    var q, rem := DivideLong(u, v, vo, n, ull, vll);
    r := Some((q, rem));
  }
}
