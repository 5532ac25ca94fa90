/** Strings of decimal digits as numbers, and rounding to the nearest integer. */
module Decimal {
  import opened Limbs

  type Digit = d: int | 0 <= d <= 9 witness 0

  /** The number a digit string spells, most significant digit first. */
  function DigitsValue(s: seq<Digit>): nat {
    if s == [] then 0 else 10 * DigitsValue(s[..|s| - 1]) + s[|s| - 1]
  }

  lemma DigitsAppend(s: seq<Digit>, d: Digit)
    ensures DigitsValue(s + [d]) == 10 * DigitsValue(s) + d
  {
    assert (s + [d])[..|s|] == s;
  }

  lemma {:induction false} DigitsConcat(s: seq<Digit>, t: seq<Digit>)
    ensures DigitsValue(s + t) == DigitsValue(s) * Power(10, |t|) + DigitsValue(t)
  {
    if t == [] {
      assert s + t == s;
    } else {
      var n := |t| - 1;
      DigitsConcat(s, t[..n]);
      assert s + t == (s + t[..n]) + [t[n]] && t == t[..n] + [t[n]];
      DigitsAppend(s + t[..n], t[n]);
      DigitsAppend(t[..n], t[n]);
      hide DigitsValue;
      TenTimes(DigitsValue(s), Power(10, n), DigitsValue(t[..n]));
    }
  }

  lemma TenTimes(v: nat, p: nat, w: nat)
    ensures 10 * (v * p + w) == v * (10 * p) + 10 * w
  {
    Associate(10, v, p);
    Associate(v, 10, p);
  }

  /** Digit strings of one length spell different numbers. */
  lemma {:induction false} DigitsInjective(s: seq<Digit>, t: seq<Digit>)
    requires |s| == |t| && DigitsValue(s) == DigitsValue(t)
    ensures s == t
  {
    if s != [] {
      var n := |s| - 1;
      DigitsInjective(s[..n], t[..n]);
      assert s == s[..n] + [s[n]] && t == t[..n] + [t[n]];
    }
  }

  lemma {:induction false} DigitsBelow(s: seq<Digit>)
    ensures DigitsValue(s) < Power(10, |s|)
  {
    if s != [] {
      DigitsBelow(s[..|s| - 1]);
    }
  }

  lemma {:induction false} DigitsZeros(s: seq<Digit>)
    requires forall i :: 0 <= i < |s| ==> s[i] == 0
    ensures DigitsValue(s) == 0
  {
    if s != [] {
      DigitsZeros(s[..|s| - 1]);
    }
  }

  /** n is num / den rounded to the nearest integer, ties to even. */
  ghost predicate RoundsHalfEven(num: int, den: int, n: int) {
    var off := 2 * num - 2 * (n * den);
    -den <= off <= den && (off == den || off == -den ==> n % 2 == 0)
  }

  /** Rounding is a function: no other integer fits. */
  lemma RoundingUnique(num: int, den: int, m: int, n: int)
    requires den > 0 && RoundsHalfEven(num, den, m) && RoundsHalfEven(num, den, n)
    ensures m == n
  {
    RoundingOrdered(num, den, m, n);
    RoundingOrdered(num, den, n, m);
  }

  lemma RoundingOrdered(num: int, den: int, m: int, n: int)
    requires den > 0 && RoundsHalfEven(num, den, m) && RoundsHalfEven(num, den, n)
    ensures n <= m
  {
    var d := n - m;
    Distribute(den, m, d);
    if d >= 2 {
      Scale(2, d, den);
    }
  }

  /** Only the ratio matters. */
  lemma RoundingOfRatio(num: int, den: int, num': int, den': int, n: int)
    requires den > 0 && den' > 0 && num * den' == num' * den && RoundsHalfEven(num, den, n)
    ensures RoundsHalfEven(num', den', n)
  {
    var off, off' := 2 * num - 2 * (n * den), 2 * num' - 2 * (n * den');
    assert off * den' == off' * den by {
      Distribute(den', 2 * num, -(2 * (n * den)));
      Distribute(den, 2 * num', -(2 * (n * den')));
      Associate(n, den, den');
      Associate(n, den', den);
    }
    SameSide(off, den, off', den');
  }

  lemma SameSide(off: int, den: int, off': int, den': int)
    requires den > 0 && den' > 0 && off * den' == off' * den
    requires -den <= off <= den
    ensures -den' <= off' <= den'
    ensures off' == den' ==> off == den
    ensures off' == -den' ==> off == -den
  {
    if off' > den' {
      Scale(den' + 1, off', den);
      Distribute(den, den', 1);
      Scale(off, den, den');
    }
    if off' < -den' {
      Scale(off', -den' - 1, den);
      Distribute(den, -den', -1);
      Scale(-den, off, den');
    }
    if off' == den' {
      if off < den { Scale(off + 1, den, den'); Distribute(den', off, 1); }
    }
    if off' == -den' {
      if -den < off { Scale(-den + 1, off, den'); Distribute(den', -den, 1); }
    }
  }

  /** The number rounds to its floor or the next, by the remainder and the parity. */
  lemma RoundByRemainder(num: int, den: int, q: int, r: int)
    requires den > 0 && num == q * den + r && 0 <= r < den
    ensures RoundsHalfEven(num, den, if 2 * r > den || (2 * r == den && q % 2 == 1) then q + 1 else q)
  {
    Distribute(den, q, 1);
  }
}
