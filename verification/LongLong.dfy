/** Signed 64-bit division, remainder and multiplication.

    Source: common/gcc-millicode/divdi3.c, moddi3.c and muldi3.c. */
module LongLong {
  import opened Common
  import opened Digits
  import opened Qdivrem
  import opened Qdivrem64

  const LLONG_MIN := -0x8000_0000_0000_0000
  const LLONG_MAX := 0x7fff_ffff_ffff_ffff

  predicate Signed(a: int) { LLONG_MIN <= a <= LLONG_MAX }

  /** Conversion to unsigned long long, and back. */
  function AsUnsigned(a: int): nat { a % ULL }

  function AsSigned(u: nat): int { if u < ULL / 2 then u else u - ULL }

  /** The signed number congruent to x modulo 2^64. */
  function Wrap(x: int): (r: int)
    ensures Signed(r) && (r - x) % ULL == 0
  {
    AsSigned(x % ULL)
  }

  function Abs(x: int): nat { if x < 0 then -x else x }

  // ------------------------------------------------------------ division, section 6.5.5

  /** The quotient of section 6.5.5 of ISO C99: the fractional part is discarded. */
  function TruncDiv(a: int, b: int): int
    requires b != 0
  {
    if (a < 0) != (b < 0) then -(Abs(a) / Abs(b)) else Abs(a) / Abs(b)
  }

  function TruncMod(a: int, b: int): int
    requires b != 0
  {
    if a < 0 then -(Abs(a) % Abs(b)) else Abs(a) % Abs(b)
  }

  /** They satisfy the law of that section. */
  lemma TruncLaw(a: int, b: int)
    requires b != 0
    ensures a == TruncDiv(a, b) * b + TruncMod(a, b)
    ensures Abs(TruncMod(a, b)) < Abs(b) && (TruncMod(a, b) == 0 || (TruncMod(a, b) < 0 <==> a < 0))
  {
    var q, r := Abs(a) / Abs(b), Abs(a) % Abs(b);
    DivMod(Abs(a), Abs(b), q, r);
    NegateProduct(q, b);
    SignCases(a, b, q * Abs(b), q * b, r);
    assert TruncDiv(a, b) * b == if (a < 0) != (b < 0) then -(q * b) else q * b;
  }

  lemma SignCases(a: int, b: int, m: int, p: int, r: int)
    requires Abs(a) == m + r && m == (if b < 0 then -p else p)
    ensures a == (if (a < 0) != (b < 0) then -p else p) + (if a < 0 then -r else r)
  {
  }

  /** No other quotient and remainder do, if the remainder is to have the dividend's sign. */
  lemma TruncUnique(a: int, b: int, q: int, r: int)
    requires b != 0 && a == q * b + r && Abs(r) < Abs(b) && (r == 0 || (r < 0 <==> a < 0))
    ensures q == TruncDiv(a, b) && r == TruncMod(a, b)
  {
    TruncLaw(a, b);
    var s, t := TruncDiv(a, b), TruncMod(a, b);
    MulDist(q, s, b);
    assert (q - s) * b == t - r;
    assert Abs(t - r) < Abs(b);
    OnlyZero(q - s, b);
  }

  lemma OnlyZero(k: int, b: int)
    requires Abs(k * b) < Abs(b)
    ensures k == 0
  {
    NegateProduct(k, b);
    NegateProduct(-k, b);
    if k > 0 { MulMono(1, k, Abs(b)); }
    if k < 0 { MulMono(1, -k, Abs(b)); }
  }

  lemma NegateProduct(q: int, b: int)
    ensures (-q) * b == -(q * b) && q * (-b) == -(q * b)
  {
  }

  /** |a| and |b| as the code computes them, by unsigned negation. */
  lemma UnsignedAbs(a: int)
    requires Signed(a)
    ensures (if a < 0 then (0 - AsUnsigned(a)) % ULL else AsUnsigned(a)) == Abs(a) < ULL
  {
  }

  /** Quotient and remainder are unique. */
  lemma DivUnique(x: nat, y: nat, q: nat, r: nat)
    requires y > 0 && x == q * y + r && r < y
    ensures q == x / y && r == x % y
  {
    DivMod(x, y, x / y, x % y);
    SplitUnique(q, r, x / y, x % y, y);
  }

  lemma NegateWraps(q: nat)
    requires q < ULL
    ensures AsSigned((0 - q) % ULL) == Wrap(0 - q) && AsSigned(q) == Wrap(q)
  {
  }

  /** __divdi3: truncating division modulo 2^64; None is the trap of division by
      zero. */
  method Divdi3(a: int, b: int) returns (r: Option<int>)
    requires Signed(a) && Signed(b)
    ensures r.None? <==> b == 0
    ensures b != 0 ==> r == Some(Wrap(TruncDiv(a, b)))
  {
    var ua, ub, neg := AsUnsigned(a), AsUnsigned(b), false;
    UnsignedAbs(a);
    UnsignedAbs(b);
    if a < 0 {
      ua, neg := (0 - ua) % ULL, !neg;
    }
    if b < 0 {
      ub, neg := (0 - ub) % ULL, !neg;
    }
    var d := QdivremWithRemainder(ua, ub);
    if d.None? {
      return None;
    }
    var uq := d.value.0;
    DivUnique(ua, ub, uq, d.value.1);
    QuotientFits(ua, ub);
    NegateWraps(uq);
    if neg {
      uq := (0 - uq) % ULL;
    }
    r := Some(AsSigned(uq));
  }

  lemma QuotientFits(x: nat, y: nat)
    requires y > 0
    ensures x / y <= x
  {
    DivMod(x, y, x / y, x % y);
    MulMono(1, y, x / y);
  }

  lemma SmallNegate(u: int)
    requires 0 <= u < ULL / 2
    ensures AsSigned((0 - u) % ULL) == -u && AsSigned(u) == u
  {
  }

  /** __moddi3. */
  method Moddi3(a: int, b: int) returns (r: Option<int>)
    requires Signed(a) && Signed(b)
    ensures r.None? <==> b == 0
    ensures b != 0 ==> r == Some(TruncMod(a, b))
  {
    var ua, ub, neg := AsUnsigned(a), AsUnsigned(b), false;
    UnsignedAbs(a);
    UnsignedAbs(b);
    if a < 0 {
      ua, neg := (0 - ua) % ULL, true;
    }
    if b < 0 {
      ub := (0 - ub) % ULL;
    }
    var d := QdivremWithRemainder(ua, ub);
    if d.None? {
      return None;
    }
    var ur := d.value.1;
    DivUnique(ua, ub, d.value.0, ur);
    SmallNegate(ur);
    if neg {
      ur := (0 - ur) % ULL;
    }
    r := Some(AsSigned(ur));
  }

  // -------------------------------------------------------------------- multiplication

  /** LHUP: the low half moved to the upper half. */
  function LhUp(x: nat): nat { (x * B) % UINT }

  lemma LhUpValue(x: nat)
    requires x < UINT
    ensures x * B == (x / B) * UINT + LhUp(x) && LhUp(x) < UINT && x / B < B
  {
    assert x == (x / B) * B + x % B;
    assert LhUp(x) == (x % B) * B;
  }

  /** A double word with high part h and low part l. */
  function Double(h: nat, l: nat): nat { h * UINT + l }

  /** Adding x << 16 to a double word with the carry found by comparison. */
  method AddShifted(h: nat, l: nat, x: nat) returns (h': nat, l': nat, ghost k: int)
    requires h < UINT && l < UINT && x < UINT
    ensures h' < UINT && l' < UINT && Double(h', l') == Double(h, l) + x * B + k * ULL
  {
    LhUpValue(x);
    l' := (l + LhUp(x)) % UINT;
    var carry := if l' < l then 1 else 0;
    h' := (h + (x / B + carry)) % UINT;
    k := if h + (x / B + carry) >= UINT then -1 else 0;
  }

  /** Subtracting x << 16, with the borrow found by comparison. */
  method SubShifted(h: nat, l: nat, x: nat) returns (h': nat, l': nat, ghost k: int)
    requires h < UINT && l < UINT && x < UINT
    ensures h' < UINT && l' < UINT && Double(h', l') == Double(h, l) - x * B + k * ULL
  {
    LhUpValue(x);
    l' := (l - LhUp(x)) % UINT;
    var borrow := if l' > l then 1 else 0;
    h' := (h - (x / B + borrow)) % UINT;
    k := if h - (x / B + borrow) < 0 then 1 else 0;
  }

  /** Adding a single word. */
  method AddWord(h: nat, l: nat, x: nat) returns (h': nat, l': nat, ghost k: int)
    requires h < UINT && l < UINT && x < UINT
    ensures h' < UINT && l' < UINT && Double(h', l') == Double(h, l) + x + k * ULL
  {
    l' := (l + x) % UINT;
    h' := h;
    k := 0;
    if l' < x {
      h' := (h + 1) % UINT;
      k := if h + 1 >= UINT then -1 else 0;
    }
  }

  /** The three products make up the whole one. */
  lemma ThreeProducts(u1: int, u0: int, v1: int, v0: int, w: int)
    ensures (u1 * w + u0) * (v1 * w + v0)
            == (u1 * v1) * (w * w) + (u1 * v1) * w + ((u1 - u0) * (v0 - v1)) * w + (u0 * v0) * w + u0 * v0
  {
    Foil(u1 * w, u0, v1 * w, v0);
    Foil(u1, -u0, v0, -v1);
    assert (u1 * w) * (v1 * w) == (u1 * v1) * (w * w);
    assert (u1 * w) * v0 == (u1 * v0) * w;
    assert u0 * (v1 * w) == (u0 * v1) * w;
    assert (u1 - u0) * (v0 - v1) == u1 * v0 - u1 * v1 - u0 * v0 + u0 * v1;
    Distribute4(u1 * v0, u1 * v1, u0 * v0, u0 * v1, w);
  }

  lemma Foil(a: int, b: int, c: int, d: int)
    ensures (a + b) * (c + d) == a * c + a * d + b * c + b * d
  {
  }

  lemma Distribute4(a: int, b: int, c: int, d: int, w: int)
    ensures (a - b - c + d) * w == a * w - b * w - c * w + d * w
  {
  }

  function SignedBy(neg: bool, x: int): int { if neg then 0 - x else x }

  /** The differences and the sign, as both multiplications take them. */
  method Differences(u1: nat, u0: nat, v1: nat, v0: nat) returns (udiff: nat, vdiff: nat, neg: bool)
    ensures udiff == Abs(u1 - u0) && vdiff == Abs(v0 - v1)
    ensures SignedBy(neg, udiff * vdiff) == (u1 - u0) * (v0 - v1)
  {
    if u1 >= u0 {
      udiff, neg := u1 - u0, false;
    } else {
      udiff, neg := u0 - u1, true;
    }
    if v0 >= v1 {
      vdiff := v0 - v1;
    } else {
      vdiff, neg := v1 - v0, !neg;
    }
    SignedProduct(u1 - u0, v0 - v1);
  }

  lemma SignedProduct(x: int, y: int)
    ensures SignedBy((x < 0) != (y < 0), Abs(x) * Abs(y)) == x * y
  {
    NegateProduct(Abs(x), y);
    NegateProduct(x, Abs(y));
  }

  /** The middle product, added or subtracted. */
  method AddMiddle(h0: nat, l0: nat, mid: nat, neg: bool) returns (h: nat, l: nat, ghost k: int)
    requires h0 < UINT && l0 < UINT && mid < UINT
    ensures h < UINT && l < UINT && Double(h, l) == Double(h0, l0) + SignedBy(neg, mid) * B + k * ULL
  {
    if neg {
      h, l, k := SubShifted(h0, l0, mid);
    } else {
      h, l, k := AddShifted(h0, l0, mid);
    }
  }

  /** The sums at the end of __lmulq, each with its carry or borrow test. */
  method Assemble(high: nat, mid: nat, neg: bool, low: nat) returns (h: nat, l: nat, ghost k: int)
    requires high <= (B - 1) * (B - 1) && mid < UINT && low < UINT
    ensures h < UINT && l < UINT
    ensures Double(h, l) == high * UINT + high * B + SignedBy(neg, mid) * B + low * B + low + k * ULL
  {
    h := (high + high / B) % UINT;
    l := LhUp(high);
    LhUpValue(high);
    ghost var k1: int, k2: int, k3: int;
    h, l, k1 := AddMiddle(h, l, mid, neg);
    h, l, k2 := AddShifted(h, l, low);
    h, l, k3 := AddWord(h, l, low);
    k := k1 + k2 + k3;
  }

  /** __lmulq: the exact double-word product, high part first. */
  method Lmulq(u: nat, v: nat) returns (h: nat, l: nat)
    requires u < UINT && v < UINT
    ensures h < UINT && l < UINT && Double(h, l) == u * v
  {
    var u1, u0, v1, v0 := u / B, u % B, v / B, v % B;
    var low := SmallProduct(u0, v0);
    if u1 == 0 && v1 == 0 {
      return 0, low;
    }
    var udiff, vdiff, neg := Differences(u1, u0, v1, v0);
    var mid := SmallProduct(udiff, vdiff);
    var high := SmallProduct(u1, v1);
    ghost var k;
    h, l, k := Assemble(high, mid, neg, low);
    LmulqDone(u, v, u1, u0, v1, v0, SignedBy(neg, mid), h, l, k);
  }

  lemma NonNegative(x: nat, y: nat)
    ensures 0 <= x * y
  {
    MulMono(0, x, y);
  }

  method SmallProduct(x: nat, y: nat) returns (p: nat)
    requires x < B && y < B
    ensures p == x * y && p <= (B - 1) * (B - 1)
  {
    DigitProduct(x, y);
    NonNegative(x, y);
    p := x * y;
  }

  lemma LmulqDone(u: nat, v: nat, u1: nat, u0: nat, v1: nat, v0: nat, m: int, h: nat, l: nat, k: int)
    requires u < UINT && v < UINT && h < UINT && l < UINT
    requires u == u1 * B + u0 && v == v1 * B + v0 && m == (u1 - u0) * (v0 - v1)
    requires Double(h, l) == (u1 * v1) * UINT + (u1 * v1) * B + m * B + (u0 * v0) * B + u0 * v0 + k * ULL
    ensures Double(h, l) == u * v
  {
    WholeProduct(u, v, u1, u0, v1, v0, m);
    LmulqExact(u, v, h, l, u1 * v1, m, u0 * v0, k);
  }

  lemma WholeProduct(u: int, v: int, u1: int, u0: int, v1: int, v0: int, m: int)
    requires u == u1 * B + u0 && v == v1 * B + v0 && m == (u1 - u0) * (v0 - v1)
    ensures u * v == (u1 * v1) * UINT + (u1 * v1) * B + m * B + (u0 * v0) * B + u0 * v0
  {
    ThreeProducts(u1, u0, v1, v0, B);
  }

  lemma LmulqExact(u: nat, v: nat, h: nat, l: nat, high: int, m: int, low: int, k: int)
    requires u < UINT && v < UINT && h < UINT && l < UINT
    requires Double(h, l) == high * UINT + high * B + m * B + low * B + low + k * ULL
    requires u * v == high * UINT + high * B + m * B + low * B + low
    ensures Double(h, l) == u * v
  {
    assert 0 <= u * v < ULL by {
      MulMono(u, UINT - 1, v);
    }
  }

  /** The middle and high products, which only need to be right modulo 2^32. */
  method ProductHigh(u1: nat, u0: nat, v1: nat, v0: nat, lh: nat, ll: nat) returns (h: nat, ghost k: int)
    requires u1 < UINT && u0 < UINT && v1 < UINT && v0 < UINT && lh < UINT && ll < UINT
    ensures h < UINT && h == u1 * v1 + (u1 - u0) * (v0 - v1) + ll + lh + k * UINT
  {
    var udiff, vdiff, neg := Differences(u1, u0, v1, v0);
    ghost var um, uh := udiff * vdiff, u1 * v1;
    var mid := (udiff * vdiff) % UINT;
    var high := (u1 * v1) % UINT;
    h := (high + SignedBy(neg, mid) + ll + lh) % UINT;
    ghost var km, kh, ks := um / UINT, uh / UINT, (high + SignedBy(neg, mid) + ll + lh) / UINT;
    k := -kh - SignedBy(neg, km) - ks;
  }

  /** Splitting 64-bit numbers into words, the product modulo 2^64. */
  lemma ProductModulo(u: nat, v: nat, u1: nat, u0: nat, v1: nat, v0: nat, lh: nat, ll: nat, h: nat, k: int)
    requires u == Double(u1, u0) && v == Double(v1, v0) && Double(lh, ll) == u0 * v0
    requires h == u1 * v1 + (u1 - u0) * (v0 - v1) + ll + lh + k * UINT
    ensures Double(h, ll) == u * v + (k - u1 * v1 - lh) * ULL
  {
    ThreeProducts(u1, u0, v1, v0, UINT);
    ModuloArith(u * v, u1 * v1, (u1 - u0) * (v0 - v1), u0 * v0, lh, ll, h, k);
  }

  lemma ModuloArith(uv: int, high: int, m: int, low: int, lh: int, ll: int, h: int, k: int)
    requires uv == high * ULL + high * UINT + m * UINT + low * UINT + low
    requires low == lh * UINT + ll && h == high + m + ll + lh + k * UINT
    ensures h * UINT + ll == uv + (k - high - lh) * ULL
  {
  }

  lemma WrapCongruent(x: int, y: int, k: int)
    requires x == y + k * ULL
    ensures Wrap(x) == Wrap(y)
  {
    assert x % ULL == y % ULL;
  }

  lemma SignOfProduct(a: int, b: int)
    ensures a * b == SignedBy((a < 0) != (b < 0), Abs(a) * Abs(b))
  {
    SignedProduct(a, b);
  }

  /** __muldi3: the product modulo 2^64, for all signed arguments. */
  method Muldi3(a: int, b: int) returns (r: int)
    requires Signed(a) && Signed(b)
    ensures r == Wrap(a * b)
  {
    var u, v, negall := AsUnsigned(a), AsUnsigned(b), false;
    UnsignedAbs(a);
    UnsignedAbs(b);
    if a < 0 {
      u, negall := (0 - u) % ULL, true;
    }
    if b < 0 {
      v, negall := (0 - v) % ULL, !negall;
    }
    var h, l;
    ghost var k: int := 0;
    h, l, k := UnsignedProduct(u, v);
    var prod := Double(h, l);
    ProductSigned(a, b, prod, k);
    if negall {
      r := AsSigned((0 - prod) % ULL);
    } else {
      r := AsSigned(prod);
    }
  }

  lemma ProductSigned(a: int, b: int, prod: nat, k: int)
    requires prod < ULL && prod == Abs(a) * Abs(b) + k * ULL
    ensures Wrap(a * b) == if (a < 0) != (b < 0) then AsSigned((0 - prod) % ULL) else AsSigned(prod)
  {
    SignOfProduct(a, b);
    if (a < 0) != (b < 0) {
      WrapCongruent(0 - prod, a * b, 0 - k);
    } else {
      WrapCongruent(prod, a * b, k);
    }
  }

  /** The body of __muldi3 once both numbers are nonnegative. */
  method UnsignedProduct(u: nat, v: nat) returns (h: nat, l: nat, ghost k: int)
    requires u < ULL && v < ULL
    ensures h < UINT && l < UINT && Double(h, l) == u * v + k * ULL
  {
    var u1, u0, v1, v0 := u / UINT, u % UINT, v / UINT, v % UINT;
    var lh, ll := Lmulq(u0, v0);
    if u1 == 0 && v1 == 0 {
      return lh, ll, 0;
    }
    ghost var kh;
    h, kh := ProductHigh(u1, u0, v1, v0, lh, ll);
    l := ll;
    k := kh - u1 * v1 - lh;
    ProductModulo(u, v, u1, u0, v1, v0, lh, ll, h, kh);
  }
}
