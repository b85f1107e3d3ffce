/** Unsigned 64-bit division from 16-bit digits: Knuth's Algorithm D (The Art of
    Computer Programming, volume 2, section 4.3.1), for any number of digits, and
    then for the four digits of a 64-bit number.

    Source: common/gcc-millicode/qdivrem.c. */
module Qdivrem {
  import opened Digits

  const UINT := 0x1_0000_0000   // 2^32: unsigned int arithmetic wraps here

  /** COMBINE: two digits as one number. */
  function Combine(a: nat, b: nat): nat { a * B + b }

  // ------------------------------------------------ D3: trial digit, in any base

  /** Two digits of base b as one number. */
  function Pair(b: nat, x: nat, y: nat): nat { x * b + y }

  /** The test of the D3 loop compares the top two divisor digits, times qhat,
      with the top three dividend digits. */
  lemma TwoDigitTest(b: nat, qhat: nat, rhat: nat, u01: nat, u2: nat, v1: nat, v2: nat)
    requires rhat + qhat * v1 == u01
    ensures qhat * Pair(b, v1, v2) - Pair(b, u01, u2) == v2 * qhat - Pair(b, rhat, u2)
  {
    MulAssoc(qhat, v1, b);
    MulDist(u01, rhat, b);
    MulDist(v1 * b, v2, qhat);
  }

  /** qhat is a digit whose remainder by v1 is rhat, and the next digit up is too
      large for the top two divisor digits. */
  ghost predicate NotTooSmall(b: nat, qhat: nat, rhat: nat, u01: nat, u2: nat, v1: nat, v2: nat) {
    && qhat < b && rhat + qhat * v1 == u01
    && (qhat < b - 1 ==> (qhat + 1) * Pair(b, v1, v2) > Pair(b, u01, u2))
  }

  lemma StartEqual(b: nat, u1: nat, u2: nat, v1: nat, v2: nat)
    requires b > 0
    ensures NotTooSmall(b, b - 1, u1 + v1, Pair(b, v1, u1), u2, v1, v2)
  {
    MulDist(b, 1, v1);
  }

  lemma StartLess(b: nat, q: nat, r: nat, u01: nat, u2: nat, v1: nat, v2: nat)
    requires r + q * v1 == u01 && r < v1 && q < b && u2 < b
    ensures NotTooSmall(b, q, r, u01, u2, v1, v2)
  {
    FirstEstimateHigh(b, q, r, u01, u2, v1, v2);
  }

  lemma Decrement(b: nat, qhat: nat, rhat: nat, u01: nat, u2: nat, v1: nat, v2: nat)
    requires NotTooSmall(b, qhat, rhat, u01, u2, v1, v2) && v2 * qhat > Pair(b, rhat, u2)
    ensures qhat > 0 && NotTooSmall(b, qhat - 1, rhat + v1, u01, u2, v1, v2)
  {
    TwoDigitTest(b, qhat, rhat, u01, u2, v1, v2);
    DecrementKeeps(qhat, rhat, u01, v1);
  }

  lemma TrialDone(b: nat, qhat: nat, rhat: nat, u01: nat, u2: nat, v1: nat, v2: nat)
    requires NotTooSmall(b, qhat, rhat, u01, u2, v1, v2) && v2 < b
    requires rhat >= b || v2 * qhat <= Pair(b, rhat, u2)
    ensures qhat * Pair(b, v1, v2) <= Pair(b, u01, u2)
  {
    TwoDigitTest(b, qhat, rhat, u01, u2, v1, v2);
    if rhat >= b { LargeRemainder(b, qhat, rhat, u2, v2); }
  }

  lemma QuotientDigit(b: nat, nn: nat, u0: nat, u1: nat, v1: nat, q: nat, r: nat)
    requires nn == Pair(b, u0, u1) && u0 < v1 && u1 < b && q == nn / v1 && r == nn % v1
    ensures q < b && r < v1 && r + q * v1 == nn
  {
    MulMono(u0 + 1, v1, b);
    MulDist(u0, 1, b);
    DivMod(nn, v1, q, r);
    QuotientBelow(b, q, v1, nn);
  }

  lemma QuotientBelow(b: nat, q: nat, v1: nat, nn: nat)
    requires q * v1 <= nn < v1 * b
    ensures q < b
  {
    if q >= b { MulMono(b, q, v1); }
  }

  lemma FirstEstimateHigh(b: nat, qhat: nat, rhat: nat, u01: nat, u2: nat, v1: nat, v2: nat)
    requires rhat + qhat * v1 == u01 && rhat < v1 && u2 < b
    ensures (qhat + 1) * Pair(b, v1, v2) > Pair(b, u01, u2)
  {
    MulDist(qhat, 1, v1);
    MulMono(u01 + 1, (qhat + 1) * v1, b);
    MulDist(u01, 1, b);
    MulAssoc(qhat + 1, v1, b);
    MulDist(v1 * b, v2, qhat + 1);
    MulMono(0, v2, qhat + 1);
  }

  lemma DecrementKeeps(qhat: nat, rhat: nat, u01: nat, v1: nat)
    requires rhat + qhat * v1 == u01
    ensures (rhat + v1) + (qhat - 1) * v1 == u01
  {
    MulDist(qhat, 1, v1);
  }

  /** Once rhat reaches the base the test cannot succeed any more. */
  lemma LargeRemainder(b: nat, qhat: nat, rhat: nat, u2: nat, v2: nat)
    requires qhat < b && v2 < b && rhat >= b
    ensures v2 * qhat <= Pair(b, rhat, u2)
  {
    MulMono(v2, b, qhat);
    MulMono(qhat, b, b);
    MulMono(b, rhat, b);
  }

  /** In any base, the quotient of the top three digits of the dividend by the top two of
      the divisor, capped at b - 1, is the true quotient digit or one more. The dividend is
      u012 * p + wl and the divisor v12 * p + vl. */
  lemma TrialDigitNear(b: nat, qhat: nat, u012: nat, wl: nat, v12: nat, vl: nat, p: nat, w: nat, v: nat)
    requires p > 0 && wl < p && vl < p && w == u012 * p + wl && v == v12 * p + vl
    requires qhat < b <= v12 && qhat * v12 <= u012 && w < v * b
    requires qhat < b - 1 ==> (qhat + 1) * v12 > u012
    ensures (qhat - 1) * v <= w < (qhat + 1) * v
  {
    if qhat < b - 1 {
      NotBelow(qhat, u012, wl, v12, vl, p, w, v);
    } else {
      assert (qhat + 1) * v == v * b;
    }
    if qhat >= 1 {
      NotFarAbove(qhat, u012, wl, v12, vl, p, w, v);
    } else {
      assert (qhat - 1) * v <= 0;
    }
  }

  lemma NotBelow(qhat: nat, u012: nat, wl: nat, v12: nat, vl: nat, p: nat, w: nat, v: nat)
    requires wl < p && w == u012 * p + wl && v == v12 * p + vl && (qhat + 1) * v12 > u012
    ensures w < (qhat + 1) * v
  {
    calc {
      (qhat + 1) * v;
    >= { MulMono(v12 * p, v, qhat + 1); }
      (qhat + 1) * (v12 * p);
    == { MulAssoc(qhat + 1, v12, p); }
      ((qhat + 1) * v12) * p;
    >= { MulMono(u012 + 1, (qhat + 1) * v12, p); }
      (u012 + 1) * p;
    == { MulDist(u012, 1, p); }
      u012 * p + p;
    }
  }

  lemma NotFarAbove(qhat: nat, u012: nat, wl: nat, v12: nat, vl: nat, p: nat, w: nat, v: nat)
    requires vl < p && w == u012 * p + wl && v == v12 * p + vl && 1 <= qhat <= v12 && qhat * v12 <= u012
    ensures (qhat - 1) * v <= w
  {
    calc {
      (qhat - 1) * v;
    <= { MulDist(v12, 1, p); MulMono(v, (v12 + 1) * p, qhat - 1); }
      (qhat - 1) * ((v12 + 1) * p);
    == { MulAssoc(qhat - 1, v12 + 1, p); }
      ((qhat - 1) * (v12 + 1)) * p;
    <= { MulDist(qhat, 1, v12 + 1); MulDist(v12, 1, qhat); MulMono((qhat - 1) * (v12 + 1), u012, p); }
      u012 * p;
    }
  }

  // ------------------------------------------------------- D3: the code, in base 2^16

  /** D3. The result is the quotient of the top three digits of the dividend by
      the top two of the divisor, or B - 1 if that is larger. */
  method TrialDigit(u0: nat, u1: nat, u2: nat, v1: nat, v2: nat) returns (qhat: nat)
    requires u1 < B && u2 < B && v1 < B && v2 < B && 0 < v1 && u0 <= v1
    ensures qhat < B
    ensures qhat * Combine(v1, v2) <= Combine(Combine(u0, u1), u2)
    ensures qhat < B - 1 ==> (qhat + 1) * Combine(v1, v2) > Combine(Combine(u0, u1), u2)
  {
    var rhat: nat, more := 0, true;
    ghost var u01 := Combine(u0, u1);
    if u0 == v1 {
      // the loop is entered at qhat_too_big with qhat == B and rhat == u1
      qhat, rhat := B - 1, u1 + v1;
      more := rhat < B;
      StartEqual(B, u1, u2, v1, v2);
    } else {
      qhat, rhat := FirstEstimate(u0, u1, v1);
      StartLess(B, qhat, rhat, u01, u2, v1, v2);
    }
    while more && v2 * qhat > Combine(rhat, u2)
      invariant NotTooSmall(B, qhat, rhat, u01, u2, v1, v2) && (more <==> rhat < B)
      decreases qhat
    {
      Decrement(B, qhat, rhat, u01, u2, v1, v2);
      qhat := qhat - 1;
      rhat := rhat + v1;
      if rhat >= B {
        more := false;
      }
    }
    TrialDone(B, qhat, rhat, u01, u2, v1, v2);
  }

  /** The first estimate of D3: two digits divided by one. */
  method FirstEstimate(u0: nat, u1: nat, v1: nat) returns (qhat: nat, rhat: nat)
    requires u1 < B && u0 < v1 < B
    ensures qhat < B && rhat < v1 && rhat + qhat * v1 == Combine(u0, u1)
  {
    var nn := Combine(u0, u1);
    qhat, rhat := nn / v1, nn % v1;
    QuotientDigit(B, nn, u0, u1, v1, qhat, rhat);
  }

  // ------------------------------------------------- D4, D5, D6: multiply, subtract

  /** One digit of D4: in unsigned arithmetic, a digit and the next borrow. */
  lemma BorrowDigit(x: int)
    requires -(B - 1) * B <= x < B
    ensures var t := x % UINT;
            var borrow := (B - t / B) % B;
            x == t % B - borrow * B
  {
  }

  /** The body of the D4 loop, on one digit. */
  method SubtractDigit(x: nat, y: nat, qhat: nat, t: nat) returns (digit: nat, borrow: nat)
    requires x < B && y < B && qhat < B && t < B
    ensures digit < B && borrow < B && x - y * qhat - t == digit - borrow * B
  {
    DigitProduct(y, qhat);
    BorrowDigit(x - y * qhat - t);
    var t' := (x - y * qhat - t) % UINT;
    digit := t' % B;
    borrow := (B - t' / B) % B;
  }

  lemma TopBorrow(x: nat, t: nat)
    requires x < B && t < B
    ensures var top := (x - t) % UINT;
            x - t == top % B - (if top / B != 0 then 1 else 0) * B
  {
  }

  /** After the digits past index i of the window are done: their value, less the
      borrow t, is what they were less qhat times the divisor's digits there. */
  ghost predicate Subtracted(now: seq<nat>, was: seq<nat>, a: nat, vs: seq<nat>, c: nat, n: nat, qhat: nat,
                             i: nat, t: nat)
    requires |now| == |was| && a + n < |was| && c + n < |vs| && i <= n
  {
    && AreDigits(now) && t < B
    && now[..a + i + 1] == was[..a + i + 1] && now[a + n + 1..] == was[a + n + 1..]
    && Val(now[a + i + 1..a + n + 1]) - t * Pow(n - i)
       == Val(was[a + i + 1..a + n + 1]) - qhat * Val(vs[c + i + 1..c + n + 1])
  }

  lemma SubtractedStart(was: seq<nat>, a: nat, vs: seq<nat>, c: nat, n: nat, qhat: nat)
    requires a + n < |was| && c + n < |vs| && AreDigits(was)
    ensures Subtracted(was, was, a, vs, c, n, qhat, n, 0)
  {
    assert was[a + n + 1..a + n + 1] == [] == vs[c + n + 1..c + n + 1];
  }

  lemma SubtractedNext(now: seq<nat>, was: seq<nat>, a: nat, vs: seq<nat>, c: nat, n: nat, qhat: nat, i: nat,
                       t: nat, d: nat, t': nat)
    requires |now| == |was| && a + n < |was| && c + n < |vs| && 0 < i <= n
    requires Subtracted(now, was, a, vs, c, n, qhat, i, t)
    requires d < B && t' < B && now[a + i] - vs[c + i] * qhat - t == d - t' * B
    ensures Subtracted(now[a + i := d], was, a, vs, c, n, qhat, i - 1, t')
  {
    var low, xs, ys := now[a + i + 1..a + n + 1], was[a + i + 1..a + n + 1], vs[c + i + 1..c + n + 1];
    var r := now[a + i := d];
    assert now[a + i] == now[..a + i + 1][a + i] == was[a + i];
    SubtractStep(d, t', low, was[a + i], xs, vs[c + i], ys, qhat, t);
    assert r[a + i..a + n + 1] == [d] + low;
    assert was[a + i..a + n + 1] == [was[a + i]] + xs;
    assert vs[c + i..c + n + 1] == [vs[c + i]] + ys;
    assert r[..a + i] == now[..a + i + 1][..a + i] == was[..a + i + 1][..a + i] == was[..a + i];
    assert r[a + n + 1..] == now[a + n + 1..];
  }

  /** The top digit ends the subtraction; t' says whether the result wrapped. */
  lemma SubtractedTop(now: seq<nat>, was: seq<nat>, a: nat, vs: seq<nat>, c: nat, n: nat, qhat: nat, t: nat,
                      d: nat, t': nat)
    requires |now| == |was| && a + n < |was| && c + n < |vs|
    requires Subtracted(now, was, a, vs, c, n, qhat, 0, t) && d < B && now[a] - t == d - t' * B
    ensures var r := now[a := d];
            && AreDigits(r) && r[..a] == was[..a] && r[a + n + 1..] == was[a + n + 1..]
            && Val(r[a..a + n + 1]) - t' * Pow(n + 1) == Val(was[a..a + n + 1]) - qhat * Val(vs[c + 1..c + n + 1])
  {
    var low, xs := now[a + 1..a + n + 1], was[a + 1..a + n + 1];
    var r := now[a := d];
    assert now[a] == now[..a + 1][a] == was[a];
    TopStep(d, t', low, was[a], xs, qhat * Val(vs[c + 1..c + n + 1]), t);
    assert r[a..a + n + 1] == [d] + low;
    assert was[a..a + n + 1] == [was[a]] + xs;
    assert r[..a] == now[..a + 1][..a] == was[..a];
    assert r[a + n + 1..] == now[a + n + 1..];
  }

  /** D4: subtract qhat times v[1..n] from the n + 1 digits of u at `a`; the result
      says whether it went negative, which D5 reads off the top half of t. */
  method MultiplySubtract(u: array<nat>, a: nat, v: array<nat>, c: nat, n: nat, qhat: nat) returns (negative: bool)
    requires u != v && a + n < u.Length && c + n < v.Length && qhat < B
    requires AreDigits(u[..]) && AreDigits(v[..])
    modifies u
    ensures AreDigits(u[..]) && u[..a] == old(u[..a]) && u[a + n + 1..] == old(u[a + n + 1..])
    ensures Val(u[a..a + n + 1]) - (if negative then 1 else 0) * Pow(n + 1)
            == Val(old(u[a..a + n + 1])) - qhat * Val(v[c + 1..c + n + 1])
  {
    ghost var was, vs := u[..], v[..];
    var t: nat, i: nat := 0, n;
    SubtractedStart(was, a, vs, c, n, qhat);
    while i > 0
      invariant i <= n && v[..] == vs && Subtracted(u[..], was, a, vs, c, n, qhat, i, t)
    {
      ghost var now, t0 := u[..], t;
      assert u[a + i] == now[a + i] && v[c + i] == vs[c + i];
      var d;
      d, t := SubtractDigit(u[a + i], v[c + i], qhat, t);
      SubtractedNext(now, was, a, vs, c, n, qhat, i, t0, d, t);
      u[a + i] := d;
      assert u[..] == now[a + i := d];
      i := i - 1;
    }
    ghost var now := u[..];
    assert u[a] == now[a];
    var top := (u[a] - t) % UINT;
    TopBorrow(u[a], t);
    negative := top / B != 0;
    SubtractedTop(now, was, a, vs, c, n, qhat, t, top % B, if negative then 1 else 0);
    u[a] := top % B;
    assert u[..] == now[a := top % B];
    WindowOf(u[..], a, n);
    WindowOf(was, a, n);
  }

  lemma WindowOf(s: seq<nat>, a: nat, n: nat)
    requires a + n < |s|
    ensures s[..a] + s[a..a + n + 1] + s[a + n + 1..] == s
  {
  }

  lemma DigitProduct(x: nat, q: nat)
    requires x < B && q < B
    ensures x * q <= (B - 1) * (B - 1)
  {
    MulMono(x, B - 1, q);
  }

  /** x - y * q - t == d - t' * b, times a power p of the base b. */
  lemma ScaleDigit(b: nat, d: int, t': int, x: int, yq: int, t: int, p: int)
    requires x - yq - t == d - t' * b
    ensures d * p - t' * (p * b) == x * p - yq * p - t * p
  {
    MulDist(d, t' * b, p);
    MulDist(x - yq, t, p);
    MulDist(x, yq, p);
    SwapScale(b, t', p);
  }

  lemma SwapScale(b: nat, t: int, p: int)
    ensures t * (p * b) == (t * b) * p
  {
    MulAssoc(t, p, b);
    MulAssoc(t, b, p);
  }

  lemma ScaleProduct(y: int, q: int, p: int, z: int)
    ensures q * (y * p + z) == (y * q) * p + q * z
  {
    MulAssoc(q, y, p);
  }

  lemma SubtractStep(d: nat, t': nat, low: seq<nat>, x: nat, xs: seq<nat>, y: nat, ys: seq<nat>, q: nat, t: nat)
    requires |low| == |xs| == |ys| && x - y * q - t == d - t' * B
    requires Val(low) - t * Pow(|low|) == Val(xs) - q * Val(ys)
    ensures Val([d] + low) - t' * Pow(|low| + 1) == Val([x] + xs) - q * Val([y] + ys)
  {
    ValPrepend(d, low);
    ValPrepend(x, xs);
    ValPrepend(y, ys);
    SubtractArith(B, d, t', x, y, q, t, Pow(|low|), Val(low), Val(xs), Val(ys),
                  Val([d] + low), Val([x] + xs), Val([y] + ys), Pow(|low| + 1));
  }

  lemma SubtractArith(b: nat, d: int, t': int, x: int, y: int, q: int, t: int, p: int, low: int, xs: int, ys: int,
                      vd: int, vx: int, vy: int, next: int)
    requires x - y * q - t == d - t' * b && low - t * p == xs - q * ys
    requires vd == d * p + low && vx == x * p + xs && vy == y * p + ys && next == p * b
    ensures vd - t' * next == vx - q * vy
  {
    ScaleDigit(b, d, t', x, y * q, t, p);
    ScaleProduct(y, q, p, ys);
    SumUp(d * p, t' * (p * b), x * p, (y * q) * p, t * p, q * (y * p + ys), q * ys, low, xs);
  }

  lemma SumUp(dp: int, carry: int, xp: int, yqp: int, tp: int, all: int, rest: int, low: int, xs: int)
    requires dp - carry == xp - yqp - tp && all == yqp + rest && low - tp == xs - rest
    ensures dp + low - carry == xp + xs - all
  {
  }

  lemma TopStep(d: nat, t': nat, low: seq<nat>, x: nat, xs: seq<nat>, sub: int, t: nat)
    requires |low| == |xs| && x - t == d - t' * B
    requires Val(low) - t * Pow(|low|) == Val(xs) - sub
    ensures Val([d] + low) - t' * Pow(|low| + 1) == Val([x] + xs) - sub
  {
    ValPrepend(d, low);
    ValPrepend(x, xs);
    ScaleDigit(B, d, t', x, 0, t, Pow(|low|));
  }

  /** The same account for D6, with a carry. */
  ghost predicate Added(now: seq<nat>, was: seq<nat>, a: nat, vs: seq<nat>, c: nat, n: nat, i: nat, t: nat)
    requires |now| == |was| && a + n < |was| && c + n < |vs| && i <= n
  {
    && AreDigits(now) && t <= 1
    && now[..a + i + 1] == was[..a + i + 1] && now[a + n + 1..] == was[a + n + 1..]
    && Val(now[a + i + 1..a + n + 1]) + t * Pow(n - i)
       == Val(was[a + i + 1..a + n + 1]) + Val(vs[c + i + 1..c + n + 1])
  }

  lemma AddedStart(was: seq<nat>, a: nat, vs: seq<nat>, c: nat, n: nat)
    requires a + n < |was| && c + n < |vs| && AreDigits(was)
    ensures Added(was, was, a, vs, c, n, n, 0)
  {
    assert was[a + n + 1..a + n + 1] == [] == vs[c + n + 1..c + n + 1];
  }

  lemma AddedNext(now: seq<nat>, was: seq<nat>, a: nat, vs: seq<nat>, c: nat, n: nat, i: nat, t: nat, d: nat, t': nat)
    requires |now| == |was| && a + n < |was| && c + n < |vs| && 0 < i <= n
    requires Added(now, was, a, vs, c, n, i, t)
    requires d < B && t' <= 1 && t + now[a + i] + vs[c + i] == d + t' * B
    ensures Added(now[a + i := d], was, a, vs, c, n, i - 1, t')
  {
    var low, xs, ys := now[a + i + 1..a + n + 1], was[a + i + 1..a + n + 1], vs[c + i + 1..c + n + 1];
    var r := now[a + i := d];
    assert now[a + i] == now[..a + i + 1][a + i] == was[a + i];
    AddStep(d, t', low, was[a + i], xs, vs[c + i], ys, t);
    assert r[a + i..a + n + 1] == [d] + low;
    assert was[a + i..a + n + 1] == [was[a + i]] + xs;
    assert vs[c + i..c + n + 1] == [vs[c + i]] + ys;
    assert r[..a + i] == now[..a + i + 1][..a + i] == was[..a + i + 1][..a + i] == was[..a + i];
    assert r[a + n + 1..] == now[a + n + 1..];
  }

  lemma AddedTop(now: seq<nat>, was: seq<nat>, a: nat, vs: seq<nat>, c: nat, n: nat, t: nat, d: nat, t': nat)
    requires |now| == |was| && a + n < |was| && c + n < |vs|
    requires Added(now, was, a, vs, c, n, 0, t) && d < B && now[a] + t == d + t' * B
    ensures var r := now[a := d];
            && AreDigits(r) && r[..a] == was[..a] && r[a + n + 1..] == was[a + n + 1..]
            && Val(r[a..a + n + 1]) + t' * Pow(n + 1) == Val(was[a..a + n + 1]) + Val(vs[c + 1..c + n + 1])
  {
    var low, xs := now[a + 1..a + n + 1], was[a + 1..a + n + 1];
    var r := now[a := d];
    assert now[a] == now[..a + 1][a] == was[a];
    AddTop(d, t', low, was[a], xs, Val(vs[c + 1..c + n + 1]), t);
    assert r[a..a + n + 1] == [d] + low;
    assert was[a..a + n + 1] == [was[a]] + xs;
    assert r[..a] == now[..a + 1][..a] == was[..a];
    assert r[a + n + 1..] == now[a + n + 1..];
  }

  /** D6: add v[1..n] back to the n + 1 digits of u at `a`, dropping the carry. */
  method AddBack(u: array<nat>, a: nat, v: array<nat>, c: nat, n: nat) returns (ghost carry: nat)
    requires u != v && a + n < u.Length && c + n < v.Length
    requires AreDigits(u[..]) && AreDigits(v[..])
    modifies u
    ensures AreDigits(u[..]) && u[..a] == old(u[..a]) && u[a + n + 1..] == old(u[a + n + 1..])
    ensures Val(u[a..a + n + 1]) + carry * Pow(n + 1) == Val(old(u[a..a + n + 1])) + Val(v[c + 1..c + n + 1])
  {
    ghost var was, vs := u[..], v[..];
    var t: nat, i: nat := 0, n;
    AddedStart(was, a, vs, c, n);
    while i > 0
      invariant i <= n && v[..] == vs && Added(u[..], was, a, vs, c, n, i, t)
    {
      ghost var now, t0 := u[..], t;
      assert u[a + i] == now[a + i] && v[c + i] == vs[c + i];
      t := t + u[a + i] + v[c + i];
      AddedNext(now, was, a, vs, c, n, i, t0, t % B, t / B);
      u[a + i] := t % B;
      t := t / B;
      assert u[..] == now[a + i := u[a + i]];
      i := i - 1;
    }
    carry := AddTopDigit(u, a, n, t, was, vs, c);
  }

  /** The last step of D6: the carry goes into the leading digit. */
  method AddTopDigit(u: array<nat>, a: nat, n: nat, t: nat, ghost was: seq<nat>, ghost vs: seq<nat>, ghost c: nat)
    returns (ghost carry: nat)
    requires |was| == u.Length && a + n < u.Length && c + n < |vs| && Added(u[..], was, a, vs, c, n, 0, t)
    modifies u
    ensures AreDigits(u[..]) && u[..a] == was[..a] && u[a + n + 1..] == was[a + n + 1..]
    ensures Val(u[a..a + n + 1]) + carry * Pow(n + 1) == Val(was[a..a + n + 1]) + Val(vs[c + 1..c + n + 1])
  {
    ghost var now := u[..];
    assert u[a] == now[a];
    carry := (u[a] + t) / B;
    AddedTop(now, was, a, vs, c, n, t, (u[a] + t) % B, carry);
    u[a] := (u[a] + t) % B;
    assert u[..] == now[a := u[a]];
    WindowOf(u[..], a, n);
    WindowOf(was, a, n);
  }

  lemma AddStep(d: nat, t': nat, low: seq<nat>, x: nat, xs: seq<nat>, y: nat, ys: seq<nat>, t: nat)
    requires |low| == |xs| == |ys| && t + x + y == d + t' * B
    requires Val(low) + t * Pow(|low|) == Val(xs) + Val(ys)
    ensures Val([d] + low) + t' * Pow(|low| + 1) == Val([x] + xs) + Val([y] + ys)
  {
    ValPrepend(d, low);
    ValPrepend(x, xs);
    ValPrepend(y, ys);
    AddArith(B, d, t', x, y, t, Pow(|low|));
  }

  lemma AddArith(b: nat, d: int, t': int, x: int, y: int, t: int, p: int)
    requires t + x + y == d + t' * b
    ensures d * p + t' * (p * b) == x * p + y * p + t * p
  {
    ScaleSum(b, d, t', x + y, t, p);
    MulDist(x, y, p);
  }

  lemma ScaleSum(b: nat, d: int, t': int, x: int, t: int, p: int)
    requires x + t == d + t' * b
    ensures d * p + t' * (p * b) == x * p + t * p
  {
    MulDist(d, t' * b, p);
    MulDist(x, t, p);
    SwapScale(b, t', p);
  }

  lemma AddTop(d: nat, t': nat, low: seq<nat>, x: nat, xs: seq<nat>, add: int, t: nat)
    requires |low| == |xs| && x + t == d + t' * B
    requires Val(low) + t * Pow(|low|) == Val(xs) + add
    ensures Val([d] + low) + t' * Pow(|low| + 1) == Val([x] + xs) + add
  {
    ValPrepend(d, low);
    ValPrepend(x, xs);
    ScaleSum(B, d, t', x, t, Pow(|low|));
  }

  // ---------------------------------------------------------- one quotient digit

  lemma Val2(s: seq<nat>, k: nat)
    requires k + 2 <= |s|
    ensures Val(s[k..k + 2]) == Combine(s[k], s[k + 1])
  {
    assert s[k..k + 2] == [s[k]] + [s[k + 1]];
    ValPrepend(s[k], [s[k + 1]]);
    ValOne(s[k + 1]);
  }

  lemma Val3(s: seq<nat>, k: nat)
    requires k + 3 <= |s|
    ensures Val(s[k..k + 3]) == Combine(Combine(s[k], s[k + 1]), s[k + 2])
  {
    Val2(s, k);
    assert s[k..k + 3][..2] == s[k..k + 2];
  }

  /** Of two numbers with equally many digits the smaller has the smaller or equal
      leading digit. */
  lemma LeadingLe(x: nat, xs: seq<nat>, y: nat, ys: seq<nat>)
    requires |xs| == |ys| && AreDigits(ys) && Val([x] + xs) < Val([y] + ys)
    ensures x <= y
  {
    ValPrepend(x, xs);
    ValPrepend(y, ys);
    ValBound(ys);
    if x > y {
      MulMono(y + 1, x, Pow(|ys|));
      MulDist(y, 1, Pow(|ys|));
    }
  }

  /** The quotient digit fits in one digit when the window without its last digit
      is below the divisor. */
  lemma WindowBelow(s: seq<nat>, a: nat, n: nat, v: nat)
    requires a + n < |s| && AreDigits(s) && Val(s[a..a + n]) < v
    ensures Val(s[a..a + n + 1]) < v * B
  {
    assert s[a..a + n + 1][..n] == s[a..a + n];
    MulMono(Val(s[a..a + n]), v - 1, B);
    MulDist(v, 1, B);
  }

  /** What D3 knows about the whole window and divisor. */
  lemma WindowNear(us: seq<nat>, a: nat, vs: seq<nat>, c: nat, n: nat, qhat: nat)
    requires a + n < |us| && c + n < |vs| && n >= 2 && AreDigits(us) && AreDigits(vs)
    requires vs[c + 1] > 0 && Val(us[a..a + n]) < Val(vs[c + 1..c + n + 1]) && qhat < B
    requires qhat * Combine(vs[c + 1], vs[c + 2]) <= Combine(Combine(us[a], us[a + 1]), us[a + 2])
    requires qhat < B - 1 ==>
               (qhat + 1) * Combine(vs[c + 1], vs[c + 2]) > Combine(Combine(us[a], us[a + 1]), us[a + 2])
    ensures var w, v := Val(us[a..a + n + 1]), Val(vs[c + 1..c + n + 1]);
            (qhat - 1) * v <= w < (qhat + 1) * v
  {
    var wl, vl := us[a + 3..a + n + 1], vs[c + 3..c + n + 1];
    Val3(us, a);
    Val2(vs, c + 1);
    assert us[a..a + n + 1] == us[a..a + 3] + wl;
    assert vs[c + 1..c + n + 1] == vs[c + 1..c + 3] + vl;
    ValConcat(us[a..a + 3], wl);
    ValConcat(vs[c + 1..c + 3], vl);
    ValBound(wl);
    ValBound(vl);
    WindowBelow(us, a, n, Val(vs[c + 1..c + n + 1]));
    TrialDigitNear(B, qhat, Val(us[a..a + 3]), Val(wl), Val(vs[c + 1..c + 3]), Val(vl), Pow(n - 2),
                   Val(us[a..a + n + 1]), Val(vs[c + 1..c + n + 1]));
  }

  /** When the subtraction wrapped, adding back once gives the remainder. */
  lemma AddBackExact(w: int, v: int, qhat: int, p: int, val1: nat, val2: nat, carry: nat)
    requires (qhat - 1) * v <= w && 0 < v < p && val1 < p && val2 < p
    requires val1 - p == w - qhat * v && val2 + carry * p == val1 + v
    ensures w == (qhat - 1) * v + val2 && val2 < v
  {
    MulDist(qhat, 1, v);
    if carry >= 2 {
      MulMono(2, carry, p);
    } else {
      assert carry * p == if carry == 1 then p else 0;
    }
  }

  lemma NoAddBack(w: int, v: int, qhat: int, val1: nat)
    requires w < (qhat + 1) * v && val1 == w - qhat * v
    ensures w == qhat * v + val1 && val1 < v
  {
    MulDist(qhat, 1, v);
  }

  /** D3 on the arrays: the trial digit is the true digit or one too large. */
  method EstimateDigit(u: array<nat>, a: nat, v: array<nat>, c: nat, n: nat) returns (qhat: nat)
    requires a + n < u.Length && c + n < v.Length && n >= 2
    requires AreDigits(u[..]) && AreDigits(v[..]) && v[c + 1] > 0
    requires Val(u[a..a + n]) < Val(v[c + 1..c + n + 1])
    ensures qhat < B
    ensures var w, vv := Val(u[a..a + n + 1]), Val(v[c + 1..c + n + 1]);
            (qhat - 1) * vv <= w < (qhat + 1) * vv
  {
    ghost var us, vs := u[..], v[..];
    assert u[a..a + n] == [u[a]] + us[a + 1..a + n] && v[c + 1..c + n + 1] == [v[c + 1]] + vs[c + 2..c + n + 1];
    LeadingLe(u[a], us[a + 1..a + n], v[c + 1], vs[c + 2..c + n + 1]);
    qhat := TrialDigit(u[a], u[a + 1], u[a + 2], v[c + 1], v[c + 2]);
    assert u[a..a + n] == us[a..a + n] && v[c + 1..c + n + 1] == vs[c + 1..c + n + 1];
    WindowNear(us, a, vs, c, n, qhat);
    assert u[a..a + n + 1] == us[a..a + n + 1];
  }

  /** D3 to D6: divide the n + 1 digits of u at `a` by v[1..n]. The quotient is one
      digit and the remainder takes the place of the dividend. */
  method DivideStep(u: array<nat>, a: nat, v: array<nat>, c: nat, n: nat) returns (qhat: nat)
    requires u != v && a + n < u.Length && c + n < v.Length && n >= 2
    requires AreDigits(u[..]) && AreDigits(v[..]) && v[c + 1] > 0
    requires Val(u[a..a + n]) < Val(v[c + 1..c + n + 1])
    modifies u
    ensures AreDigits(u[..]) && u[..a] == old(u[..a]) && u[a + n + 1..] == old(u[a + n + 1..])
    ensures qhat < B
    ensures Val(old(u[a..a + n + 1])) == qhat * Val(v[c + 1..c + n + 1]) + Val(u[a..a + n + 1])
    ensures Val(u[a..a + n + 1]) < Val(v[c + 1..c + n + 1])
  {
    ghost var w, vv := Val(u[a..a + n + 1]), Val(v[c + 1..c + n + 1]);
    DivisorBound(v[..], c, n);
    assert v[..][c + 1..c + n + 1] == v[c + 1..c + n + 1];
    qhat := EstimateDigit(u, a, v, c, n);
    var negative := MultiplySubtract(u, a, v, c, n, qhat);
    WindowBound(u[..], a, n);
    ghost var val1 := Val(u[a..a + n + 1]);
    if negative {
      ghost var carry := AddBack(u, a, v, c, n);
      WindowBound(u[..], a, n);
      AddBackExact(w, vv, qhat, Pow(n + 1), val1, Val(u[a..a + n + 1]), carry);
      QhatPositive(qhat, w, vv, val1, Pow(n + 1));
      qhat := qhat - 1;
    } else {
      NoAddBack(w, vv, qhat, val1);
    }
  }

  lemma WindowBound(us: seq<nat>, a: nat, n: nat)
    requires a + n < |us| && AreDigits(us)
    ensures Val(us[a..a + n + 1]) < Pow(n + 1)
  {
    ValBound(us[a..a + n + 1]);
  }

  lemma QhatPositive(qhat: nat, w: nat, v: nat, val1: nat, p: nat)
    requires val1 < p && val1 - p == w - qhat * v
    ensures qhat > 0
  {
  }

  lemma DivisorBound(vs: seq<nat>, c: nat, n: nat)
    requires c + n < |vs| && AreDigits(vs)
    ensures Val(vs[c + 1..c + n + 1]) < Pow(n + 1)
  {
    ValBound(vs[c + 1..c + n + 1]);
    MulMono(1, B, Pow(n));
  }

  // ------------------------------------------------------------ D2, D7: the loop

  /** After j quotient digits: the first n + j digits of the dividend are the
      quotient so far times the divisor plus the n digits of u at j, which are
      below the divisor; the digits of u before those are zero. */
  ghost predicate DividedTo(now: seq<nat>, was: seq<nat>, uo: nat, q: seq<nat>, v: nat, n: nat, m: nat, j: nat)
    requires |now| == |was| && uo + m + n < |was| && j <= m + 1
  {
    && AreDigits(now) && |q| == j && AreDigits(q)
    && (forall k :: 0 <= k < |was| && !(uo <= k < uo + n + j) ==> now[k] == was[k])
    && (forall k :: uo <= k < uo + j ==> now[k] == 0)
    && Val(was[uo..uo + n + j]) == Val(q) * v + Val(now[uo + j..uo + n + j])
    && Val(now[uo + j..uo + n + j]) < v
  }

  /** One more digit of schoolbook division. */
  lemma DividedNext(now: seq<nat>, next: seq<nat>, was: seq<nat>, uo: nat, q: seq<nat>, v: nat, n: nat, m: nat,
                    j: nat, d: nat)
    requires |now| == |next| == |was| && uo + m + n < |was| && j <= m && v < Pow(n)
    requires DividedTo(now, was, uo, q, v, n, m, j) && d < B && AreDigits(next)
    requires forall k :: 0 <= k < |was| && !(uo + j <= k <= uo + j + n) ==> next[k] == now[k]
    requires Val(now[uo + j..uo + j + n + 1]) == d * v + Val(next[uo + j..uo + j + n + 1])
    requires Val(next[uo + j..uo + j + n + 1]) < v
    ensures DividedTo(next, was, uo, q + [d], v, n, m, j + 1)
  {
    var a := uo + j;
    var rest := next[a + 1..a + n + 1];
    TopIsZero(next, a, n, v);
    DividedValue(now, was, uo, q, v, n, j, d, Val(rest));
    assert uo + n + (j + 1) == a + n + 1;
    assert next[uo + (j + 1)..uo + n + (j + 1)] == rest;
  }

  /** A remainder below the divisor leaves the leading digit of its window zero. */
  lemma TopIsZero(next: seq<nat>, a: nat, n: nat, v: nat)
    requires a + n < |next| && v < Pow(n) && Val(next[a..a + n + 1]) < v
    ensures next[a] == 0 && Val(next[a..a + n + 1]) == Val(next[a + 1..a + n + 1])
  {
    var rest := next[a + 1..a + n + 1];
    assert next[a..a + n + 1] == [next[a]] + rest;
    LeadingZero(next[a], rest);
    ValPrepend(next[a], rest);
  }

  lemma DividedValue(now: seq<nat>, was: seq<nat>, uo: nat, q: seq<nat>, v: nat, n: nat, j: nat, d: nat, r: nat)
    requires |now| == |was| && uo + j + n < |was| && now[uo + n + j] == was[uo + n + j]
    requires Val(was[uo..uo + n + j]) == Val(q) * v + Val(now[uo + j..uo + n + j])
    requires Val(now[uo + j..uo + j + n + 1]) == d * v + r
    ensures Val(was[uo..uo + n + j + 1]) == Val(q + [d]) * v + r
  {
    var e := uo + n + j;
    assert was[uo..e + 1][..n + j] == was[uo..e];
    assert now[uo + j..e + 1][..n] == now[uo + j..e];
    assert (q + [d])[..|q|] == q;
    ExtendQuotient(B, Val(was[uo..e]), Val(q), v, Val(now[uo + j..e]), was[e], d, r);
  }

  lemma ExtendQuotient(b: nat, w: int, q: int, v: int, x: int, u: int, d: int, r: int)
    requires w == q * v + x && x * b + u == d * v + r
    ensures w * b + u == (q * b + d) * v + r
  {
    MulDist(q * v, x, b);
    MulDist(q * b, d, v);
    MulAssoc(q, v, b);
    MulAssoc(q, b, v);
  }

  /** The quotient digits so far are in place from qo on, and nothing past the last is touched. */
  ghost predicate Stored(now: seq<nat>, was: seq<nat>, qo: nat, m: nat, qs: seq<nat>)
    requires qo + m < |was| && |qs| <= m + 1
  {
    && |now| == |was| && now[qo..qo + |qs|] == qs
    && forall k :: 0 <= k < |was| && !(qo <= k <= qo + m) ==> now[k] == was[k]
  }

  lemma StoredNext(now: seq<nat>, was: seq<nat>, qo: nat, m: nat, qs: seq<nat>, d: nat)
    requires qo + m < |was| && |qs| <= m && Stored(now, was, qo, m, qs)
    ensures Stored(now[qo + |qs| := d], was, qo, m, qs + [d])
  {
    var r := now[qo + |qs| := d];
    assert r[qo..qo + |qs| + 1] == now[qo..qo + |qs|] + [d];
  }

  /** D2 to D7, for any digit counts: divide the m + n + 1 digits of u at `uo` by
      the n digits of v after `c`; m + 1 quotient digits go to q at `qo`, and the
      remainder is left in the last n digits of u, with zeros before it. */
  method DivideDigits(u: array<nat>, uo: nat, v: array<nat>, c: nat, q: array<nat>, qo: nat, m: nat, n: nat)
    requires u != v && u != q && v != q && n >= 2
    requires uo + m + n < u.Length && c + n < v.Length && qo + m < q.Length
    requires AreDigits(u[..]) && AreDigits(v[..]) && v[c + 1] > 0
    requires Val(u[uo..uo + n]) < Val(v[c + 1..c + n + 1])
    modifies u, q
    ensures forall k :: 0 <= k < q.Length && !(qo <= k <= qo + m) ==> q[k] == old(q[k])
    ensures DividedTo(u[..], old(u[..]), uo, q[qo..qo + m + 1], Val(v[c + 1..c + n + 1]), n, m, m + 1)
  {
    ghost var was, vs, q0 := u[..], v[..], q[..];
    ghost var vv := Val(vs[c + 1..c + n + 1]);
    assert v[c + 1..c + n + 1] == vs[c + 1..c + n + 1] && u[uo..uo + n] == was[uo..uo + n];
    DividedStart(was, uo, vv, n, m);
    ghost var qs: seq<nat> := [];
    var j := 0;
    while j <= m
      invariant 0 <= j <= m + 1 && v[..] == vs && |qs| == j && Stored(q[..], q0, qo, m, qs)
      invariant DividedTo(u[..], was, uo, qs, vv, n, m, j)
    {
      assert v[c + 1..c + n + 1] == vs[c + 1..c + n + 1] && v[c + 1] == vs[c + 1];
      var qhat := QuotientStep(u, was, uo, v, c, n, m, j, qs);
      StoredNext(q[..], q0, qo, m, qs, qhat);
      ghost var now := q[..];
      q[qo + j] := qhat;
      assert q[..] == now[qo + j := qhat];
      qs := qs + [qhat];
      j := j + 1;
    }
    assert q[qo..qo + m + 1] == q[..][qo..qo + m + 1] == qs;
    assert v[c + 1..c + n + 1] == vs[c + 1..c + n + 1];
  }

  lemma DividedStart(was: seq<nat>, uo: nat, v: nat, n: nat, m: nat)
    requires uo + m + n < |was| && AreDigits(was) && Val(was[uo..uo + n]) < v
    ensures DividedTo(was, was, uo, [], v, n, m, 0)
  {
  }

  /** One round of the loop. */
  method QuotientStep(u: array<nat>, ghost was: seq<nat>, uo: nat, v: array<nat>, c: nat, n: nat, ghost m: nat,
                      j: nat, ghost qs: seq<nat>)
    returns (qhat: nat)
    requires u != v && n >= 2 && c + n < v.Length && u.Length == |was| && uo + m + n < u.Length && j <= m
    requires AreDigits(v[..]) && v[c + 1] > 0
    requires DividedTo(u[..], was, uo, qs, Val(v[c + 1..c + n + 1]), n, m, j)
    modifies u
    ensures DividedTo(u[..], was, uo, qs + [qhat], Val(v[c + 1..c + n + 1]), n, m, j + 1)
  {
    ghost var now := u[..];
    ghost var vv := Val(v[c + 1..c + n + 1]);
    assert u[uo + j..uo + j + n] == now[uo + j..uo + n + j];
    qhat := DivideStep(u, uo + j, v, c, n);
    ghost var next := u[..];
    ValBound(v[c + 1..c + n + 1]);
    forall k | 0 <= k < |was| && !(uo + j <= k <= uo + j + n) ensures next[k] == now[k] {
      if k < uo + j { assert next[k] == u[..uo + j][k]; }
        else { assert next[k] == u[uo + j + n + 1..][k - (uo + j + n + 1)]; }
    }
    assert u[uo + j..uo + j + n + 1] == next[uo + j..uo + j + n + 1];
    DividedNext(now, next, was, uo, qs, vv, n, m, j, qhat);
  }
}
