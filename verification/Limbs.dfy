/** Powers, and little-endian sequences of 32-bit limbs read as natural numbers. */
module Limbs {

  /** One unsigned 32-bit word of a big integer. */
  type Limb = x: int | 0 <= x < 0x1_0000_0000 witness 0

  lemma Distribute(a: int, b: int, c: int)
    ensures a * (b + c) == a * b + a * c
    ensures (b + c) * a == b * a + c * a
  {}

  lemma Associate(a: int, b: int, c: int)
    ensures a * (b * c) == (a * b) * c
  {}

  lemma Scale(a: int, b: int, c: int)
    requires a <= b && 0 <= c
    ensures a * c <= b * c && c * a <= c * b
  {}

  lemma DivModUnique(v: int, d: int, q: int, r: int)
    requires v == d * q + r && 0 <= r < d
    ensures v / d == q && v % d == r
  {
    var q', r' := v / d, v % d;
    assert d * q' + r' == v;
    if q' < q {
      Scale(q' + 1, q, d);
      Distribute(d, q', 1);
    } else if q < q' {
      Scale(q + 1, q', d);
      Distribute(d, q, 1);
    }
  }

  /** Scaling both sides of a division by w and adding less than w changes only the remainder. */
  lemma DivModScaled(lo: int, w: int, h: int, p: int)
    requires 0 <= lo < w && 0 <= h && 0 < p
    ensures w * p > 0
    ensures (lo + w * h) / (w * p) == h / p
    ensures (lo + w * h) % (w * p) == lo + w * (h % p)
  {
    var q, r := h / p, h % p;
    Distribute(w, p * q, r);
    Associate(w, p, q);
    Scale(r + 1, p, w);
    Distribute(w, r, 1);
    DivModUnique(lo + w * h, w * p, q, lo + w * r);
  }

  lemma Cancel(a: int, b: int, d: int)
    requires d > 0 && a * d == b * d
    ensures a == b
  {
    if a < b { Scale(a + 1, b, d); Distribute(d, a, 1); }
    if b < a { Scale(b + 1, a, d); Distribute(d, b, 1); }
  }

  function Power(b: nat, e: nat): (p: nat)
    ensures b > 0 ==> p > 0
  {
    if e == 0 then 1 else b * Power(b, e - 1)
  }

  lemma PowerZero(b: nat)
    ensures Power(b, 0) == 1
  {}

  lemma {:induction false} PowerAdd(b: nat, d: nat, e: nat)
    ensures Power(b, d + e) == Power(b, d) * Power(b, e)
  {
    if d != 0 {
      PowerAdd(b, d - 1, e);
      Associate(b, Power(b, d - 1), Power(b, e));
    }
  }

  lemma {:induction false} PowerMul(b: nat, d: nat, e: nat)
    ensures Power(Power(b, d), e) == Power(b, d * e)
  {
    if e == 0 {
      assert d * e == 0;
    } else {
      PowerMul(b, d, e - 1);
      Distribute(d, e - 1, 1);
      PowerAdd(b, d, d * (e - 1));
    }
  }

  lemma {:induction false} PowerOfProduct(b: nat, c: nat, e: nat)
    ensures Power(b * c, e) == Power(b, e) * Power(c, e)
  {
    if e != 0 {
      PowerOfProduct(b, c, e - 1);
      Interchange(b, c, Power(b, e - 1), Power(c, e - 1));
    }
  }

  lemma Interchange(a: int, b: int, c: int, d: int)
    ensures (a * b) * (c * d) == (a * c) * (b * d)
  {
    Associate(a * b, c, d);
    Associate(a, b, c);
    Associate(a, c, b);
    Associate(a * c, b, d);
  }

  lemma {:induction false} PowerMonotone(b: nat, d: nat, e: nat)
    requires b > 0 && d <= e
    ensures Power(b, d) <= Power(b, e)
  {
    if d < e {
      PowerMonotone(b, d, e - 1);
      Scale(1, b, Power(b, e - 1));
    }
  }

  /** The weight of limb n, 2^(32n). */
  function W(n: nat): (w: nat)
    ensures w > 0
  {
    if n == 0 then 1 else 0x1_0000_0000 * W(n - 1)
  }

  lemma {:induction false} WAdd(m: nat, n: nat)
    ensures W(m + n) == W(m) * W(n)
  {
    if m != 0 {
      WAdd(m - 1, n);
      Associate(0x1_0000_0000, W(m - 1), W(n));
    }
  }

  lemma {:induction false} WMonotone(m: nat, n: nat)
    requires m <= n
    ensures W(m) <= W(n)
  {
    if m < n {
      WMonotone(m, n - 1);
    }
  }

  lemma {:induction false} WIsPower(n: nat)
    ensures W(n) == Power(2, 32 * n)
  {
    if n != 0 {
      WIsPower(n - 1);
      PowerAdd(2, 32, 32 * (n - 1));
      TwoTo32();
    }
  }

  lemma TwoTo32()
    ensures Power(2, 32) == 0x1_0000_0000
  {
    assert Power(2, 8) == 256;
    PowerAdd(2, 8, 8);
    PowerAdd(2, 16, 16);
  }

  /** The number a sequence of limbs stands for: the sum of s[i] * 2^(32i). */
  function Val(s: seq<Limb>): nat {
    if s == [] then 0 else s[0] + 0x1_0000_0000 * Val(s[1..])
  }

  lemma ValCons(d: Limb, s: seq<Limb>)
    ensures Val([d] + s) == d + 0x1_0000_0000 * Val(s)
  {
    assert ([d] + s)[1..] == s;
  }

  lemma ValSingle(d: Limb)
    ensures Val([d]) == d
  {}

  lemma ValDrop(s: seq<Limb>, i: nat)
    requires i < |s|
    ensures Val(s[i..]) == s[i] + 0x1_0000_0000 * Val(s[i + 1..])
  {
    assert s[i..][1..] == s[i + 1..];
  }

  lemma {:induction false} ValConcat(s: seq<Limb>, t: seq<Limb>)
    ensures Val(s + t) == Val(s) + W(|s|) * Val(t)
  {
    if s == [] {
      assert s + t == t;
    } else {
      ValConcat(s[1..], t);
      assert (s + t)[1..] == s[1..] + t;
      Associate(0x1_0000_0000, W(|s| - 1), Val(t));
    }
  }

  lemma ValAppend(s: seq<Limb>, d: Limb)
    ensures Val(s + [d]) == Val(s) + W(|s|) * d
  {
    ValConcat(s, [d]);
    assert Val([d]) == d;
  }

  lemma {:induction false} ValBound(s: seq<Limb>)
    ensures Val(s) < W(|s|)
  {
    if s != [] {
      ValBound(s[1..]);
    }
  }

  /** Only all-zero limbs stand for zero. */
  lemma {:induction false} ValZeros(s: seq<Limb>)
    ensures Val(s) == 0 <==> forall i :: 0 <= i < |s| ==> s[i] == 0
  {
    if s != [] {
      ValZeros(s[1..]);
      assert forall i :: 1 <= i < |s| ==> s[i] == s[1..][i - 1];
    }
  }

  /** Leading zero limbs change nothing. */
  lemma ValTrim(s: seq<Limb>, n: nat)
    requires n <= |s|
    requires forall i :: n <= i < |s| ==> s[i] == 0
    ensures Val(s) == Val(s[..n])
  {
    assert s == s[..n] + s[n..];
    ValConcat(s[..n], s[n..]);
    ValZeros(s[n..]);
  }

  /** The top limb brackets the number. */
  lemma ValTop(s: seq<Limb>)
    requires s != []
    ensures var n := |s| - 1;
      Val(s) == Val(s[..n]) + W(n) * s[n]
      && W(n) * s[n] <= Val(s) < W(n) * (s[n] as int + 1)
  {
    var n := |s| - 1;
    assert s == s[..n] + [s[n]];
    ValAppend(s[..n], s[n]);
    ValBound(s[..n]);
    Distribute(W(n), s[n], 1);
  }

  /** The number of limbs orders numbers whose top limb is not zero. */
  lemma ValShorter(s: seq<Limb>, t: seq<Limb>)
    requires |s| < |t| && t[|t| - 1] != 0
    ensures Val(s) < Val(t)
  {
    ValBound(s);
    ValTop(t);
    WMonotone(|s|, |t| - 1);
    Scale(1, t[|t| - 1], W(|t| - 1));
  }

  /** Equal limbs above position i, and a smaller limb at i, make a smaller number. */
  lemma {:induction false} ValLexLess(s: seq<Limb>, t: seq<Limb>, i: nat)
    requires |s| == |t| && i < |s|
    requires s[i + 1..] == t[i + 1..] && s[i] < t[i]
    ensures Val(s) < Val(t)
  {
    if i > 0 {
      ValLexLess(s[1..], t[1..], i - 1);
    }
  }
}
