/** The shift that normalises a divisor (dtoa.c: hi0bits, dshift). */
module Normalise {
  import opened Limbs
  import opened Bigints
  import opened BigintShift
  import opened BigintQuotient

  /** The number of leading zero bits of a word, found by halving: shifted up by that many bits,
      the top bit is set. */
  method Hi0Bits(x0: Limb) returns (k: nat)
    ensures x0 == 0 ==> k == 32
    ensures x0 > 0 ==> k <= 31 && 0x8000_0000 <= x0 * Power(2, k) < 0x1_0000_0000
  {
    hide Power;
    var x := x0;
    k := 0;
    PowerZero(2);
    if x < 0x1_0000 {
      Raise(x0, x, k, 16);
      k, x := 16, x * 0x1_0000;
    }
    if x < 0x100_0000 {
      Raise(x0, x, k, 8);
      k, x := k + 8, x * 0x100;
    }
    if x < 0x1000_0000 {
      Raise(x0, x, k, 4);
      k, x := k + 4, x * 0x10;
    }
    if x < 0x4000_0000 {
      Raise(x0, x, k, 2);
      k, x := k + 2, x * 4;
    }
    if x < 0x8000_0000 {
      Raise(x0, x, k, 1);
      k := k + 1;
      if x < 0x4000_0000 {
        return 32;
      }
    }
  }

  lemma Raise(x0: nat, x: nat, k: nat, j: nat)
    requires x == x0 * Power(2, k) && j in {1, 2, 4, 8, 16}
    ensures x * SmallPower(j) == x0 * Power(2, k + j)
  {
    PowerAdd(2, k, j);
    Associate(x0, Power(2, k), Power(2, j));
    assert Power(2, 4) == 16;
    PowerAdd(2, 4, 4);
    PowerAdd(2, 8, 8);
  }

  ghost function SmallPower(j: nat): nat {
    if j == 1 then 2 else if j == 2 then 4 else if j == 4 then 16 else if j == 8 then 0x100 else 0x1_0000
  }

  /** Shifted up by t bits, v fills a whole number of limbs but for four leading zero bits. */
  ghost predicate NormalShift(v: nat, t: nat) {
    exists n: nat :: NormalAt(v * Power(2, t), n)
  }

  ghost predicate NormalAt(v: nat, n: nat) {
    0x0800_0000 * W(n) <= v < 0x1000_0000 * W(n)
  }

  /** How far to shift dividend and divisor, on top of p2 bits, so that the divisor is left with
      exactly four leading zero bits. */
  method DShift(S: Bigint, p2: nat) returns (rv: nat)
    requires S.Shape() && S.wds > 0 && S.x[S.wds - 1] != 0
    ensures rv < 32 && NormalShift(S.Value(), rv + p2)
  {
    hide Power, W, NormalShift;
    var h := Hi0Bits(S.x[S.wds - 1]);
    var d := h as int - 4;
    if p2 > 0 {
      d := d - p2;
    }
    rv := d % 32;
    ShiftNormalises(S.x[..S.wds], h, rv + p2);
  }

  lemma ShiftNormalises(s: seq<Limb>, h: nat, t: nat)
    requires s != [] && h <= 31 && (t + 4 - h) % 32 == 0
    requires 0x8000_0000 <= s[|s| - 1] * Power(2, h) < 0x1_0000_0000
    ensures NormalShift(Val(s), t)
  {
    hide Power, W, Val;
    var n, j, d := |s| - 1, (t + 4 - h) / 32, s[|s| - 1];
    var v, x := Val(s), Val(s) * Power(2, t);
    ValTop(s);
    assert 16 * x == (v * Power(2, h)) * W(j) by {
      assert Power(2, 4) == 16 by { SixteenIsPower(); }
      PowerAdd(2, t, 4);
      WIsPower(j);
      PowerAdd(2, h, 32 * j);
      Associate(v, Power(2, t), 16);
      Associate(v, Power(2, h), W(j));
    }
    NextMultiple(d, h);
    WAdd(n, j);
    Brackets(v, Power(2, h), W(n), W(j), d);
    assert NormalAt(x, n + j);
  }

  lemma SixteenIsPower()
    ensures Power(2, 4) == 16
  {}

  lemma NextMultiple(d: nat, h: nat)
    requires h <= 31 && d * Power(2, h) < 0x1_0000_0000
    ensures (d + 1) * Power(2, h) <= 0x1_0000_0000
  {
    hide Power;
    var q := Power(2, 32 - h);
    SplitWord(h);
    if q <= d {
      Scale(q, d, Power(2, h));
    }
    Scale(d + 1, q, Power(2, h));
  }

  lemma Brackets(v: nat, p: nat, wn: nat, wj: nat, d: nat)
    requires wn * d <= v < wn * (d + 1) && wj > 0
    requires 0x8000_0000 <= d * p && (d + 1) * p <= 0x1_0000_0000 && p > 0
    ensures 0x8000_0000 * (wn * wj) <= (v * p) * wj < 0x1_0000_0000 * (wn * wj)
  {
    Scale(wn * d, v, p);
    Associate(wn, d, p);
    Scale(0x8000_0000, d * p, wn);
    assert v * p < (wn * (d + 1)) * p by { Scale(v + 1, wn * (d + 1), p); Distribute(p, v, 1); }
    Associate(wn, d + 1, p);
    Scale((d + 1) * p, 0x1_0000_0000, wn);
    Scale(0x8000_0000 * wn, v * p, wj);
    Scale(v * p + 1, 0x1_0000_0000 * wn, wj);
    Distribute(wj, v * p, 1);
    Associate(0x8000_0000, wn, wj);
    Associate(0x1_0000_0000, wn, wj);
  }

  /** A trimmed number in that range has the top limb Quorem wants. */
  lemma NormalTop(s: seq<Limb>, n: nat)
    requires |s| > 1 ==> s[|s| - 1] != 0
    requires NormalAt(Val(s), n)
    ensures |s| == n + 1 && 0x0800_0000 <= s[n] < 0x1000_0000
  {
    hide W, Val;
    ValBound(s);
    if |s| <= n {
      WMonotone(|s|, n);
    }
    if |s| > n + 1 {
      ValTop(s);
      WMonotone(n + 1, |s| - 1);
      Scale(1, s[|s| - 1], W(|s| - 1));
      NextWeight(n);
    }
    ValTop(s);
    TopBetween(Val(s), W(n), s[n]);
  }

  lemma TopBetween(v: nat, w: nat, d: nat)
    requires w * d <= v < w * (d + 1)
    requires 0x0800_0000 * w <= v < 0x1000_0000 * w
    ensures 0x0800_0000 <= d < 0x1000_0000
  {
    if d < 0x0800_0000 {
      Scale(d + 1, 0x0800_0000, w);
    }
    if 0x1000_0000 <= d {
      Scale(0x1000_0000, d, w);
    }
  }
}
