/** From a binary number v * 2^be to its correctly rounded decimal digits (dtoa.c: dtoa, the
    multiple-precision path of mode 2). */
module Dtoa {
  import opened Limbs
  import opened Bigints
  import opened BigintCompare
  import opened BigintShift
  import opened BigintProduct
  import opened BigintQuotient
  import opened Normalise
  import opened Decimal
  import opened DigitGen

  function Pos(x: int): nat { if x > 0 then x else 0 }

  /** v * 2^be * 10^e as a fraction. */
  function Num(v: nat, be: int, e: int): nat { v * (Power(2, Pos(be)) * Power(10, Pos(e))) }

  function Den(be: int, e: int): (d: nat)
    ensures d > 0
  {
    Scale(1, Power(2, Pos(-be)), Power(10, Pos(-e)));
    Power(2, Pos(-be)) * Power(10, Pos(-e))
  }

  /** 10^k <= v * 2^be < 10^(k+1) */
  ghost predicate LeadsAt(v: nat, be: int, k: int) {
    Den(be, -k) <= Num(v, be, -k) < 10 * Den(be, -k)
  }

  /** Whatever both are shifted by, dividend over divisor is v * 2^be / 10^k. */
  lemma ScaledRatio(v: nat, be: int, k: int, t2: nat, u2: nat)
    requires t2 - u2 == be - k
    ensures (v * Power(5, Pos(-k)) * Power(2, t2)) * Den(be, -k) == Num(v, be, -k) * (Power(5, Pos(k)) * Power(2, u2))
  {
    hide Power;
    var m, p := Pos(-k), Pos(k);
    var l, r := Pos(be), Pos(-be);
    PowerOfProduct(2, 5, p);
    PowerOfProduct(2, 5, m);
    assert t2 + r + p == u2 + l + m;
    PowerAdd(2, t2 + r, p);
    PowerAdd(2, t2, r);
    PowerAdd(2, u2 + l, m);
    PowerAdd(2, u2, l);
    CrossMultiply(v, Power(5, m), Power(2, t2), Power(2, r), Power(2, p), Power(5, p),
                  Power(2, l), Power(2, m), Power(2, u2));
  }

  lemma CrossMultiply(v: int, fm: int, t: int, r: int, p: int, fp: int, l: int, m: int, u: int)
    requires (t * r) * p == (u * l) * m
    ensures (v * fm * t) * (r * (p * fp)) == (v * (l * (m * fm))) * (fp * u)
  {
    calc {
      (v * fm * t) * (r * (p * fp));
    == { Associate(v * fm, t, r * (p * fp)); }
      (v * fm) * (t * (r * (p * fp)));
    == { Associate(r, p, fp); Associate(t, r * p, fp); Associate(t, r, p); }
      (v * fm) * (((t * r) * p) * fp);
    ==
      (v * fm) * (((u * l) * m) * fp);
    == { Shuffle(v, fm, u, l, m, fp); }
      (v * (l * (m * fm))) * (fp * u);
    }
  }

  lemma Shuffle(v: int, fm: int, u: int, l: int, m: int, fp: int)
    ensures (v * fm) * (((u * l) * m) * fp) == (v * (l * (m * fm))) * (fp * u)
  {
    Associate(u, l, m);
    assert ((u * l) * m) * fp == (l * m) * (fp * u) by {
      Associate(l * m, u, fp);
      assert (u * (l * m)) == (l * m) * u;
    }
    assert v * (l * (m * fm)) == (v * fm) * (l * m) by {
      Associate(l, m, fm);
      Associate(v, fm, l * m);
    }
    Associate(v * fm, l * m, fp * u);
  }

  /** The quotient of b and S is v * 2^be / 10^k. */
  ghost predicate Represents(x: nat, u: nat, v: nat, be: int, k: int) {
    x * Den(be, -k) == Num(v, be, -k) * u
  }

  method TimesFive(cache: FiveCache, b: Bigint, e: nat) returns (r: Bigint)
    requires cache.Valid() && cache.Apart(b) && b.Valid() && b.Trimmed() && b.Value() > 0
    modifies cache, b, b.x
    ensures cache.Valid() && old(cache.p5s) <= cache.p5s && cache.Apart(r)
    ensures forall i :: |old(cache.p5s)| <= i < |cache.p5s| ==> fresh(cache.p5s[i]) && fresh(cache.p5s[i].x)
    ensures r == b || (fresh(r) && fresh(r.x))
    ensures r.Valid() && r.Trimmed() && r.Value() == old(b.Value()) * Power(5, e) && r.Value() > 0
  {
    r := b;
    PowerZero(5);
    IsZero(b);
    Scale(1, Power(5, e), b.Value());
    if e > 0 {
      r := cache.Pow5Mult(b, e);
    }
  }

  method Shifted(b: Bigint, e: nat) returns (r: Bigint)
    requires b.Valid() && b.Trimmed() && b.Value() > 0
    ensures r == b || (fresh(r) && fresh(r.x))
    ensures r.Valid() && r.Trimmed() && r.Value() == b.Value() * Power(2, e) && r.Value() > 0
  {
    r := b;
    PowerZero(2);
    IsZero(b);
    Scale(1, Power(2, e), b.Value());
    if e > 0 {
      r := LShift(b, e);
    }
  }

  lemma ShiftedIsNormalised(S: Bigint, u: nat, t: nat)
    requires S.Shape() && S.Trimmed() && S.Value() == u * Power(2, t) && NormalShift(u, t)
    ensures Normalised(S)
  {
    var n: nat :| NormalAt(u * Power(2, t), n);
    NormalTop(S.x[..S.wds], n);
  }

  /** The factors of five are in place. */
  ghost predicate Fives(x: nat, u: nat, v: nat, k: int) {
    x == v * Power(5, Pos(-k)) && u == Power(5, Pos(k))
  }

  lemma Ratio(v: nat, be: int, k: int, x: nat, u: nat, t2: nat, u2: nat)
    requires t2 - u2 == be - k && Fives(x, u, v, k)
    ensures Represents(x * Power(2, t2), u * Power(2, u2), v, be, k)
  {
    ScaledRatio(v, be, k, t2, u2);
  }

  /** The exponents of two and of five of dividend and divisor, common twos cancelled. */
  method Exponents(be: int, k: int) returns (b2: nat, b5: nat, s2: nat, s5: nat)
    ensures b2 - s2 == be - k && (b2 == 0 || s2 == 0)
    ensures b5 == Pos(-k) && s5 == Pos(k)
  {
    var j := -be;
    if j >= 0 {
      b2, s2 := 0, j;
    } else {
      b2, s2 := -j, 0;
    }
    if k >= 0 {
      b5, s5 := 0, k;
      s2 := s2 + k;
    } else {
      b2 := b2 - k;
      b5, s5 := -k, 0;
    }
    if b2 > 0 && s2 > 0 {
      var i := if b2 < s2 then b2 else s2;
      b2, s2 := b2 - i, s2 - i;
    }
  }

  /** Scales both sides by powers of five and of two, common twos cancelled, so that the quotient
      of b and S is v * 2^be / 10^k and S is normalised. */
  method Prepare(cache: FiveCache, b0: Bigint, be: int, k: int) returns (b: Bigint, S: Bigint)
    requires cache.Valid() && cache.Apart(b0) && b0.Valid() && b0.Trimmed() && b0.Value() > 0
    modifies cache, b0, b0.x
    ensures cache.Valid() && old(cache.p5s) <= cache.p5s
    ensures b != S && b.x != S.x && b.Valid() && b.Trimmed() && Normalised(S) && S.Trimmed()
    ensures cache.Apart(b) && (b == b0 || (fresh(b) && fresh(b.x))) && fresh(S) && fresh(S.x)
    ensures b.Value() > 0 && Represents(b.Value(), S.Value(), old(b0.Value()), be, k)
  {
    hide Power, Val, W, Represents, Fives, NormalShift, FourthPower;
    var b2, b5, s2, s5 := Exponents(be, k);
    b, S := TimesFives(cache, b0, b5, s5, k);
    b, S := Align(b, S, b2, s2, old(b0.Value()), be, k);
  }

  /** The dividend and a divisor of one, each times its power of five. */
  method TimesFives(cache: FiveCache, b0: Bigint, b5: nat, s5: nat, ghost k: int) returns (b: Bigint, S: Bigint)
    requires cache.Valid() && cache.Apart(b0) && b0.Valid() && b0.Trimmed() && b0.Value() > 0
    requires b5 == Pos(-k) && s5 == Pos(k)
    modifies cache, b0, b0.x
    ensures cache.Valid() && old(cache.p5s) <= cache.p5s
    ensures b != S && b.x != S.x && b.Valid() && b.Trimmed() && S.Valid() && S.Trimmed()
    ensures cache.Apart(b) && (b == b0 || (fresh(b) && fresh(b.x))) && fresh(S) && fresh(S.x)
    ensures b.Value() > 0 && S.Value() > 0 && Fives(b.Value(), S.Value(), old(b0.Value()), k)
  {
    hide Power, Val, W, FourthPower;
    b := TimesFive(cache, b0, b5);
    S := FromInt(1);
    S := TimesFive(cache, S, s5);
    assert S.Value() == Power(5, s5);
  }

  /** Shifts both sides so that the divisor is normalised; the quotient is what it was to be. */
  method Align(b0: Bigint, S0: Bigint, t2: nat, u2: nat, ghost v: nat, ghost be: int, ghost k: int)
    returns (b: Bigint, S: Bigint)
    requires b0 != S0 && b0.x != S0.x && b0.Valid() && b0.Trimmed() && b0.Value() > 0
    requires S0.Valid() && S0.Trimmed() && S0.Value() > 0
    requires t2 - u2 == be - k && Fives(b0.Value(), S0.Value(), v, k)
    ensures b != S && b.x != S.x && b.Valid() && b.Trimmed() && Normalised(S) && S.Trimmed()
    ensures (b == b0 || (fresh(b) && fresh(b.x))) && (S == S0 || (fresh(S) && fresh(S.x)))
    ensures b.Value() > 0 && Represents(b.Value(), S.Value(), v, be, k)
  {
    hide Power, Val, W, Represents, NormalShift, Fives;
    IsZero(S0);
    var i := DShift(S0, u2);
    Ratio(v, be, k, b0.Value(), S0.Value(), t2 + i, u2 + i);
    b := Shifted(b0, t2 + i);
    S := Shifted(S0, u2 + i);
    ShiftedIsNormalised(S, S0.Value(), u2 + i);
  }

  /** One step of the exponent. */
  lemma NextExponent(v: nat, be: int, e: int)
    ensures Num(v, be, e + 1) * Den(be, e) == 10 * Num(v, be, e) * Den(be, e + 1)
  {
    var a, b := Power(2, Pos(be)), Power(2, Pos(-be));
    if e >= 0 {
      var p := Power(10, e);
      assert Power(10, e + 1) == 10 * p && Pos(-e) == Pos(-(e + 1)) == 0;
      Rearrange(a, 10, p);
      Rearrange(v, 10, a * p);
      assert Num(v, be, e + 1) == 10 * Num(v, be, e) && Den(be, e) == Den(be, e + 1);
    } else {
      var p := Power(10, -(e + 1));
      assert Power(10, -e) == 10 * p;
      Rearrange(b, 10, p);
      assert Den(be, e) == 10 * Den(be, e + 1) && Num(v, be, e + 1) == Num(v, be, e);
      Rearrange(Num(v, be, e), 10, Den(be, e + 1));
      Associate(10, Num(v, be, e), Den(be, e + 1));
    }
  }

  /** Where b stands against S is where v * 2^be stands against 10^k. */
  lemma LeadingPlace(x: nat, u: nat, v: nat, be: int, k: int)
    requires Represents(x, u, v, be, k) && u > 0
    ensures u <= x <==> Den(be, -k) <= Num(v, be, -k)
    ensures x < 10 * u <==> Num(v, be, -k) < 10 * Den(be, -k)
  {
    CrossCompare(x, u, Num(v, be, -k), Den(be, -k));
    Associate(10, u, Den(be, -k));
    Associate(10, Den(be, -k), u);
  }

  lemma CrossCompare(x: nat, u: nat, n: nat, d: nat)
    requires x * d == n * u && u > 0 && d > 0
    ensures u <= x <==> d <= n
    ensures x < 10 * u <==> n < 10 * d
  {
    if u <= x { Scale(u, x, d); } else { Scale(x + 1, u, d); Distribute(d, x, 1); }
    if d <= n { Scale(d, n, u); } else { Scale(n + 1, d, u); Distribute(u, n, 1); }
    if x < 10 * u { Scale(x + 1, 10 * u, d); Distribute(d, x, 1); } else { Scale(10 * u, x, d); }
    if n < 10 * d { Scale(n + 1, 10 * d, u); Distribute(u, n, 1); } else { Scale(10 * d, n, u); }
    Associate(10, u, d);
    Associate(10, d, u);
  }

  /** Ten times b stands for the number with the exponent lowered by one. */
  lemma LowerExponent(x: nat, u: nat, v: nat, be: int, k: int)
    requires Represents(x, u, v, be, k) && u > 0
    ensures Represents(10 * x, u, v, be, k - 1)
  {
    hide Num, Den;
    NextExponent(v, be, -k);
    LowerStep(x, u, Num(v, be, -k), Den(be, -k), Num(v, be, 1 - k), Den(be, 1 - k));
  }

  lemma LowerStep(x: nat, u: nat, n: nat, d: nat, n1: nat, d1: nat)
    requires x * d == n * u && n1 * d == 10 * n * d1 && d > 0
    ensures 10 * x * d1 == n1 * u
  {
    calc {
      (10 * x * d1) * d;
    == { Associate(10, x, d1); Associate(10, x * d1, d); Associate(x, d1, d); Associate(x, d, d1); }
      10 * ((x * d) * d1);
    == { Associate(n, u, d1); Associate(n, d1, u); Associate(10, n * d1, u); Associate(10, n, d1); }
      (10 * n * d1) * u;
    ==
      (n1 * d) * u;
    == { Associate(n1, d, u); Associate(n1, u, d); }
      (n1 * u) * d;
    }
    Cancel(10 * x * d1, n1 * u, d);
  }

  /** s and k spell v * 2^be rounded half to even to ilim significant digits, its leading digit
      being at 10^lead before rounding: s[0] stands at 10^k. */
  ghost predicate Shows(v: nat, be: int, ilim: nat, lead: int, s: seq<Digit>, k: int) {
    && Printed(s) && |s| <= ilim
    && (k == lead || (k == lead + 1 && s == [1]))
    && LeadsAt(v, be, lead)
    && RoundsHalfEven(Num(v, be, -lead) * Power(10, ilim - 1), Den(be, -lead),
                      DigitsValue(s) * Power(10, ilim - |s| + (k - lead)))
  }

  lemma RoundedRatio(x: nat, u: nat, v: nat, be: int, ilim: nat, lead: int, s: seq<Digit>, bump: nat)
    requires ilim > 0 && u > 0 && Represents(x, u, v, be, lead) && u <= x < 10 * u
    requires CorrectlyRounded(x, u, ilim, s, bump)
    ensures Shows(v, be, ilim, lead, s, lead + bump)
  {
    hide Num, Den, Power, RoundsHalfEven;
    var n, d, p := Num(v, be, -lead), Den(be, -lead), Power(10, ilim - 1);
    LeadingPlace(x, u, v, be, lead);
    Associate(x, p, d);
    Associate(x, d, p);
    Associate(n, u, p);
    Associate(n, p, u);
    RoundingOfRatio(x * p, u, n * p, d, DigitsValue(s) * Power(10, ilim - |s| + bump));
  }

  /** Corrects an estimate that was one too high. */
  method CheckEstimate(b0: Bigint, S: Bigint, ghost v: nat, ghost be: int, k0: int, kCheck: bool)
    returns (b: Bigint, k: int)
    requires b0 != S && b0.x != S.x && b0.Valid() && b0.Trimmed() && b0.Value() > 0
    requires S.Valid() && S.Trimmed() && S.Value() > 0
    requires Represents(b0.Value(), S.Value(), v, be, k0)
    requires LeadsAt(v, be, k0) || (kCheck && LeadsAt(v, be, k0 - 1))
    modifies b0, b0.x
    ensures b != S && b.x != S.x && (b == b0 || (fresh(b) && fresh(b.x)))
    ensures b.Valid() && b.Trimmed() && S.Value() <= b.Value() < 10 * S.Value()
    ensures Represents(b.Value(), S.Value(), v, be, k)
  {
    hide Power, Val, W, Represents, LeadsAt;
    b, k := b0, k0;
    IsZero(b);
    EstimateChecked(b.Value(), S.Value(), v, be, k0);
    if kCheck {
      var j := Cmp(b, S);
      if j < 0 {
        k := k - 1;
        LowerExponent(b.Value(), S.Value(), v, be, k0);
        b := MultAdd(b, 10, 0);
      }
    }
  }

  /** The decimal digits of v * 2^be, v being b0's value: k0 is the estimated place of the leading
      digit, which may be one too high when kCheck is set. */
  method Dtoa(cache: FiveCache, b0: Bigint, be: int, k0: int, kCheck: bool, ndigits: int)
    returns (s: seq<Digit>, k: int, ghost lead: int)
    requires cache.Valid() && cache.Apart(b0) && b0.Valid() && b0.Trimmed() && b0.Value() > 0
    requires LeadsAt(b0.Value(), be, k0) || (kCheck && LeadsAt(b0.Value(), be, k0 - 1))
    modifies cache, b0, b0.x
    ensures cache.Valid() && old(cache.p5s) <= cache.p5s
    ensures Shows(old(b0.Value()), be, if ndigits <= 0 then 1 else ndigits, lead, s, k)
  {
    hide Power, Val, W, Represents, LeadsAt, CorrectlyRounded, FourthPower, Shows;
    ghost var v := b0.Value();
    var ilim := if ndigits <= 0 then 1 else ndigits;
    var b, S := Prepare(cache, b0, be, k0);
    IsZero(S);
    b, k := CheckEstimate(b, S, v, be, k0, kCheck);
    lead := k;
    ghost var x := b.Value();
    var bump;
    s, bump := Generate(b, S, ilim);
    RoundedRatio(x, S.Value(), v, be, ilim, lead, s, bump);
    k := k + bump;
  }

  lemma EstimateChecked(x: nat, u: nat, v: nat, be: int, k: int)
    requires Represents(x, u, v, be, k) && u > 0
    ensures LeadsAt(v, be, k) ==> u <= x < 10 * u
    ensures LeadsAt(v, be, k - 1) ==> x < u <= 10 * x < 10 * u
  {
    hide Num, Den, Represents;
    LeadingPlace(x, u, v, be, k);
    LowerExponent(x, u, v, be, k);
    LeadingPlace(10 * x, u, v, be, k - 1);
  }

  /** The place of the leading digit is determined by the number. */
  lemma LeadUnique(v: nat, be: int, k: int, k': int)
    requires LeadsAt(v, be, k) && LeadsAt(v, be, k')
    ensures k == k'
  {
    if k < k' { LeadNotBelow(v, be, k, k'); }
    if k' < k { LeadNotBelow(v, be, k', k); }
  }

  lemma LeadNotBelow(v: nat, be: int, k: int, k': int)
    requires k < k' && Den(be, -k') <= Num(v, be, -k')
    ensures 10 * Den(be, -k) <= Num(v, be, -k)
    decreases k' - k
  {
    hide Num, Den;
    if k + 1 < k' {
      LeadNotBelow(v, be, k + 1, k');
    }
    var n, d, n1, d1 := Num(v, be, -k - 1), Den(be, -k - 1), Num(v, be, -k), Den(be, -k);
    NextExponent(v, be, -k - 1);
    assert n1 * d == 10 * n * d1;
    if n1 < 10 * d1 {
      Scale(n1 + 1, 10 * d1, d);
      Distribute(d, n1, 1);
      Scale(d, n, 10 * d1);
      Associate(10, n, d1);
      Associate(10, d1, n);
    }
  }

  /** The number fixes the digits and the exponent: there is one correct answer. */
  lemma ShownUnique(v: nat, be: int, ilim: nat, lead: int, s: seq<Digit>, k: int,
                    lead': int, s': seq<Digit>, k': int)
    requires ilim > 0 && Shows(v, be, ilim, lead, s, k) && Shows(v, be, ilim, lead', s', k')
    ensures s == s' && k == k'
  {
    hide Num, Den, Power, LeadsAt, RoundsHalfEven, DigitsValue;
    LeadUnique(v, be, lead, lead');
    RoundingUnique(Num(v, be, -lead) * Power(10, ilim - 1), Den(be, -lead),
                   DigitsValue(s) * Power(10, ilim - |s| + (k - lead)),
                   DigitsValue(s') * Power(10, ilim - |s'| + (k' - lead)));
    if k == k' == lead {
      SamePadded(s, s', ilim);
    } else if k == lead {
      NotBumped(s, ilim);
    } else if k' == lead {
      NotBumped(s', ilim);
    }
  }

  lemma NotBumped(s: seq<Digit>, ilim: nat)
    requires |s| <= ilim && 0 < ilim
    ensures DigitsValue(s) * Power(10, ilim - |s|) < DigitsValue([1]) * Power(10, ilim - |[1]| + 1)
  {
    DigitsBelow(s);
    PowerAdd(10, |s|, ilim - |s|);
    Scale(DigitsValue(s) + 1, Power(10, |s|), Power(10, ilim - |s|));
    Distribute(Power(10, ilim - |s|), DigitsValue(s), 1);
    DigitsAppend([], 1);
    assert [] + [1] == [1];
  }

  lemma SamePadded(s: seq<Digit>, t: seq<Digit>, ilim: nat)
    requires Printed(s) && Printed(t) && |s| <= ilim && |t| <= ilim
    requires DigitsValue(s) * Power(10, ilim - |s|) == DigitsValue(t) * Power(10, ilim - |t|)
    ensures s == t
  {
    var p, q := s + seq(ilim - |s|, _ => 0), t + seq(ilim - |t|, _ => 0);
    DigitsConcat(s, seq(ilim - |s|, _ => 0));
    DigitsConcat(t, seq(ilim - |t|, _ => 0));
    DigitsZeros(seq(ilim - |s|, _ => 0));
    DigitsZeros(seq(ilim - |t|, _ => 0));
    DigitsInjective(p, q);
    assert p[|t| - 1] == t[|t| - 1] && q[|s| - 1] == s[|s| - 1];
    assert |s| == |t|;
    assert s == p[..|s|] && t == q[..|s|];
  }
}
