/** Digit-sized quotients of big integers (dtoa.c: hi0bits, dshift, quorem). */
module BigintQuotient {
  import opened Limbs
  import opened Bigints
  import opened BigintCompare

  /** The limbs of s[i..] - t[i..] * q - carry - borrow, with both overflows out of the top. */
  datatype Subtracted = Subtracted(limbs: seq<Limb>, carry: nat, borrow: nat)

  ghost function SubMul(s: seq<Limb>, t: seq<Limb>, q: nat, i: nat, carry: nat, borrow: nat): (r: Subtracted)
    requires i <= |s| == |t|
    ensures |r.limbs| == |s| - i
    decreases |s| - i
  {
    if i == |s| then Subtracted([], carry, borrow) else
      var ys := Column(t[i], q, carry);
      var y := Wrap64(s[i] as int - Low(ys) - borrow);
      var r := SubMul(s, t, q, i + 1, High(ys), Borrow(y));
      r.(limbs := [Low(y)] + r.limbs)
  }

  lemma {:induction false} SubMulValue(s: seq<Limb>, t: seq<Limb>, q: nat, i: nat, carry: nat, borrow: nat)
    requires i <= |s| == |t| && q < 0x1_0000_0000 && carry < 0x1_0000_0000 && borrow <= 1
    ensures var r := SubMul(s, t, q, i, carry, borrow);
      r.borrow <= 1 && r.carry < 0x1_0000_0000
      && Val(r.limbs) + Val(t[i..]) * q + carry + borrow == Val(s[i..]) + W(|s| - i) * (r.carry + r.borrow)
    decreases |s| - i
  {
    hide Val, Wrap64, Borrow;
    if i == |s| {
      assert s[i..] == [] == t[i..];
      ValZeros([]);
      assert W(0) == 1;
    } else {
      var ys := Column(t[i], q, carry);
      var d := s[i] as int - Low(ys) - borrow;
      var y := Wrap64(d);
      var r := SubMul(s, t, q, i + 1, High(ys), Borrow(y));
      ColumnBound(t[i], q, carry, 0x1_0000_0000);
      BorrowColumn(d);
      SubMulValue(s, t, q, i + 1, High(ys), Borrow(y));
      ValDrop(s, i);
      ValDrop(t, i);
      ValCons(Low(y), r.limbs);
      SubMulStep(t[i], q, carry, borrow, ys, d, Low(y), Borrow(y), Val(t[i + 1..]), Val(s[i + 1..]),
                 Val(r.limbs), W(|s| - i - 1), r.carry + r.borrow);
    }
  }

  lemma SubMulStep(d: nat, q: nat, carry: nat, borrow: nat, ys: nat, diff: int, low: nat, borrow': nat,
                   tTail: nat, sTail: nat, rest: nat, w: nat, over: nat)
    requires ys == d * q + carry
    requires diff == low - 0x1_0000_0000 * borrow'
    requires rest + tTail * q + High(ys) + borrow' == sTail + w * over
    ensures (low + 0x1_0000_0000 * rest) + (d + 0x1_0000_0000 * tTail) * q + carry + borrow
         == (diff + Low(ys) + borrow + 0x1_0000_0000 * sTail) + (0x1_0000_0000 * w) * over
  {
    Distribute(q, d, 0x1_0000_0000 * tTail);
    Associate(0x1_0000_0000, tTail, q);
    Associate(0x1_0000_0000, w, over);
  }

  /** Nothing overflows when the subtrahend is not the larger one. */
  lemma SubMulExact(s: seq<Limb>, t: seq<Limb>, q: nat)
    requires |s| == |t| && q < 0x1_0000_0000 && Val(t) * q <= Val(s)
    ensures Val(SubMul(s, t, q, 0, 0, 0).limbs) == Val(s) - Val(t) * q
  {
    hide Val, W, SubMul;
    var r := SubMul(s, t, q, 0, 0, 0);
    SubMulValue(s, t, q, 0, 0, 0);
    assert s[0..] == s && t[0..] == t;
    ValBound(r.limbs);
    if r.carry + r.borrow > 0 {
      Scale(1, r.carry + r.borrow, W(|s|));
    }
  }

  /** x -= sx * q over n limbs. */
  method SubtractMultiple(x: array<Limb>, n: nat, sx: array<Limb>, q: Limb)
    requires x != sx && 0 < n <= x.Length && n <= sx.Length
    modifies x
    ensures x[..n] == SubMul(old(x[..n]), sx[..n], q, 0, 0, 0).limbs
    ensures x[n..] == old(x[n..])
  {
    hide Column, High, Low, Wrap64, Borrow;
    ghost var s, t, before := x[..n], sx[..n], x[..];
    ghost var goal := SubMul(s, t, q, 0, 0, 0).limbs;
    var borrow, carry, i := 0, 0, 0;
    while true
      invariant 0 <= i < n && borrow <= 1 && carry < 0x1_0000_0000
      invariant forall j :: i <= j < x.Length ==> x[j] == before[j]
      invariant forall j :: 0 <= j < i ==> x[j] == goal[j]
      invariant goal[i..] == SubMul(s, t, q, i, carry, borrow).limbs
      decreases n - i
    {
      ColumnBound(sx[i], q, carry, 0x1_0000_0000);
      var ys := Column(sx[i], q, carry);
      BorrowColumn(x[i] as int - Low(ys) - borrow);
      var y := Wrap64(x[i] as int - Low(ys) - borrow);
      assert goal[i + 1..] == goal[i..][1..];
      assert x[i] == s[i];
      carry, borrow, x[i] := High(ys), Borrow(y), Low(y);
      i := i + 1;
      if i >= n {
        break;
      }
    }
  }

  /** The quotient digit estimated from the top limbs alone. */
  function Estimate(bt: Limb, st: Limb): (q: Limb)
    ensures q == bt / (st as int + 1)
  {
    Scale(1, st + 1, bt / (st + 1));
    bt / (st + 1)
  }

  /** The estimate is never too large, and at most one too small. */
  lemma EstimateIsClose(b: seq<Limb>, s: seq<Limb>)
    requires |b| == |s| > 0
    requires Estimate(b[|b| - 1], s[|s| - 1]) as int + 1 <= s[|s| - 1]
    ensures var q := Estimate(b[|b| - 1], s[|s| - 1]) as int;
      q * Val(s) <= Val(b) < (q + 2) * Val(s)
  {
    hide Val, W;
    var n := |s| - 1;
    ValTop(b);
    ValTop(s);
    EstimateBounds(b[n], s[n], Estimate(b[n], s[n]));
    EstimateBrackets(Val(b), Val(s), W(n), b[n], s[n], Estimate(b[n], s[n]));
  }

  /** q * s < q * (st + 1) * w <= bt * w <= b < (bt + 1) * w <= (q + 2) * st * w <= (q + 2) * s */
  lemma EstimateBrackets(b: nat, s: nat, w: nat, bt: nat, st: nat, q: nat)
    requires w * bt <= b < w * (bt + 1) && w * st <= s < w * (st + 1)
    requires q * (st + 1) <= bt && bt + 1 <= (q + 2) * st
    ensures q * s <= b < (q + 2) * s
  {
    calc {
      q * s;
    <= { Scale(s, w * (st + 1), q); }
      q * (w * (st + 1));
    == { Rearrange(q, w, st + 1); }
      w * (q * (st + 1));
    <= { Scale(q * (st + 1), bt, w); }
      w * bt;
    }
    calc {
      w * (bt + 1);
    <= { Scale(bt + 1, (q + 2) * st, w); }
      w * ((q + 2) * st);
    == { Rearrange(w, q + 2, st); }
      (q + 2) * (w * st);
    <= { Scale(w * st, s, q + 2); }
      (q + 2) * s;
    }
  }

  lemma Rearrange(a: int, b: int, c: int)
    ensures a * (b * c) == b * (a * c)
  {
    Associate(a, b, c);
    Associate(b, a, c);
  }

  lemma EstimateBounds(bt: nat, st: nat, q: nat)
    requires q == bt / (st + 1) && q + 1 <= st
    ensures q * (st + 1) <= bt && bt + 1 <= (q + 2) * st
  {
    Distribute(st + 1, q, 1);
    assert bt < (q + 1) * (st + 1);
    assert (q + 1) * (st + 1) == (q + 1) * st + (q + 1) by { Distribute(q + 1, st, 1); }
    assert (q + 2) * st == (q + 1) * st + st by { Distribute(st, q + 1, 1); }
  }

  /** A divisor as dshift arranges it: its top limb has exactly four leading zero bits. */
  ghost predicate Normalised(S: Bigint)
    reads S, S.x
  {
    S.Shape() && S.wds > 0 && 0x0800_0000 <= S.x[S.wds - 1] < 0x1000_0000
  }

  /** Below 16 * S, a trimmed b is kept in no more limbs than S, and the estimate is below 16. */
  lemma SmallDividend(b: seq<Limb>, s: seq<Limb>)
    requires s != [] && 0x0800_0000 <= s[|s| - 1] < 0x1000_0000 && Val(b) < 16 * Val(s)
    requires |b| > 1 ==> b[|b| - 1] != 0
    ensures |b| <= |s|
    ensures |b| == |s| ==> Estimate(b[|b| - 1], s[|s| - 1]) <= 15
  {
    hide Val, W, Estimate;
    var n := |s| - 1;
    ValTop(s);
    SixteenTimes(W(n), s[n], Val(s));
    if |b| > |s| {
      NextWeight(n);
      ValTop(b);
      WMonotone(n + 1, |b| - 1);
      Scale(1, b[|b| - 1], W(|b| - 1));
      assert false;
    }
    if |b| == |s| {
      ValTop(b);
      SmallEstimate(W(n), b[n], s[n]);
    }
  }

  lemma SixteenTimes(w: nat, st: nat, s: nat)
    requires st < 0x1000_0000 && s < w * (st + 1)
    ensures 16 * s < w * (16 * (st + 1)) <= 0x1_0000_0000 * w
  {
    Rearrange(16, w, st + 1);
    Scale(16 * (st + 1), 0x1_0000_0000, w);
  }

  lemma SmallEstimate(w: nat, bt: Limb, st: Limb)
    requires w * bt < w * (16 * (st as int + 1))
    ensures Estimate(bt, st) <= 15
  {
    if 16 * (st as int + 1) <= bt as int {
      Scale(16 * (st as int + 1), bt, w);
    }
    QuotientBelow(bt, st as int + 1, 16);
  }

  lemma QuotientBelow(a: nat, d: nat, c: nat)
    requires 0 < d && a < c * d
    ensures a / d < c
  {
    if c <= a / d {
      Scale(c, a / d, d);
    }
  }

  lemma NextWeight(n: nat)
    ensures W(n + 1) == 0x1_0000_0000 * W(n)
  {}

  /** Drops leading zeros after a subtraction when limb n has become zero; returns n, lowered by
      the zero limbs found below it. */
  method DropTop(b: Bigint, n0: nat) returns (n: nat)
    requires b.Shape() && b.wds == n0 + 1
    modifies b`wds
    ensures b.Valid() && b.Trimmed() && b.Value() == old(b.Value())
    ensures n <= n0 && b.wds == if old(b.x[n0]) == 0 then n else n0 + 1
    ensures n < n0 ==> old(b.x[n0]) == 0
  {
    n := n0;
    if b.x[n] == 0 {
      ghost var s := b.x[..n0 + 1];
      var e := n - 1;
      while e > 0 && b.x[e] == 0
        invariant -1 <= e == n - 1 && forall j :: n <= j <= n0 ==> b.x[j] == 0
      {
        n := n - 1;
        e := e - 1;
      }
      ValTrim(s, n);
      assert s[..n] == b.x[..n];
      b.wds := n;
    }
  }

  /** b -= S * q, both kept in n + 1 limbs, and the leading zeros are dropped. */
  method Reduce(b: Bigint, S: Bigint, q: Limb, n0: nat) returns (n: nat)
    requires b != S && b.x != S.x && b.Shape() && S.Shape() && b.wds == S.wds == n0 + 1
    requires S.Value() * q <= b.Value()
    modifies b, b.x
    ensures b.Valid() && b.Trimmed() && b.Value() == old(b.Value()) - S.Value() * q
    ensures b.wds <= n0 + 1 && (b.wds == n0 + 1 ==> n == n0)
  {
    hide Val, W, SubMul, Power;
    SubMulExact(b.x[..b.wds], S.x[..S.wds], q);
    SubtractMultiple(b.x, n0 + 1, S.x, q);
    n := DropTop(b, n0);
  }

  lemma Remainder(v: nat, s: nat, q: nat, left: int)
    requires q * s <= v < (q + 2) * s && left == v - s * q
    ensures 0 <= left < 2 * s && v == q * s + left && v == (q + 1) * s + (left - s)
  {
    Distribute(s, q, 2);
    Distribute(s, q, 1);
  }

  /** Exact division by a normalised S of a b below 16 * S: one estimate, one correction. */
  method Quorem(b: Bigint, S: Bigint) returns (q: nat)
    requires b != S && b.x != S.x && b.Valid() && b.Trimmed() && Normalised(S)
    requires b.Value() < 16 * S.Value()
    modifies b, b.x
    ensures b.Valid() && b.Trimmed() && b.wds <= S.wds
    ensures old(b.Value()) == q * S.Value() + b.Value() && b.Value() < S.Value()
  {
    hide Val, W, Power, Estimate;
    ghost var v, s, t := b.Value(), S.Value(), S.x[..S.wds];
    SmallDividend(b.x[..b.wds], t);
    var n := S.wds;
    if b.wds < n {
      ValShorter(b.x[..b.wds], t);
      return 0;
    }
    n := n - 1;
    q := Estimate(b.x[n], S.x[n]);
    EstimateIsClose(b.x[..b.wds], t);
    if q != 0 {
      n := Reduce(b, S, q, n);
    }
    Remainder(v, s, q, b.Value());
    ShorterIsLess(b.x[..b.wds], t);
    var c := Cmp(b, S);
    if c >= 0 {
      n := Reduce(b, S, 1, n);
      q := q + 1;
    }
  }
}
