/** Exact decimal digit generation (dtoa.c: the multiple-precision path of mode 2). */
module DigitGen {
  import opened Limbs
  import opened Bigints
  import opened BigintCompare
  import opened BigintShift
  import opened BigintQuotient
  import opened Decimal

  /** Digits as printed: no leading and no trailing zero. */
  ghost predicate Printed(s: seq<Digit>) {
    s != [] && s[0] != 0 && s[|s| - 1] != 0
  }

  /** One step of the long division: v * 10^(|s|-1) == s * u + rem. */
  ghost predicate Divided(v: nat, u: nat, s: seq<Digit>, rem: nat) {
    s != [] && v * Power(10, |s| - 1) == DigitsValue(s) * u + rem && rem < u
  }

  lemma NextDigit(v: nat, u: nat, s: seq<Digit>, rem: nat, d: Digit, rem': nat)
    requires Divided(v, u, s, rem) && 10 * rem == d * u + rem' && rem' < u
    ensures Divided(v, u, s + [d], rem')
  {
    DigitsAppend(s, d);
    Associate(10, v, Power(10, |s| - 1));
    Associate(v, 10, Power(10, |s| - 1));
    Associate(10, DigitsValue(s), u);
    Distribute(u, 10 * DigitsValue(s), d);
  }

  lemma FirstDigit(v: nat, u: nat, d: Digit, rem: nat)
    requires v == d * u + rem && rem < u
    ensures Divided(v, u, [d], rem)
  {
    assert DigitsValue([d]) == d by { DigitsAppend([], d); assert [] + [d] == [d]; }
    PowerZero(10);
  }

  /** The quotient of a number below ten times the divisor is a digit. */
  lemma QuotientIsDigit(x: nat, u: nat, q: nat, rem: nat)
    requires x < 10 * u && x == q * u + rem
    ensures q <= 9
  {
    if q >= 10 { Scale(10, q, u); }
  }

  /** The remainder is ready for the next digit: v itself at first, then ten times what was left. */
  ghost predicate Ready(v: nat, u: nat, s: seq<Digit>, x: nat) {
    0 < x < 10 * u && if s == [] then x == v && u <= v else x % 10 == 0 && Divided(v, u, s, x / 10)
  }

  lemma StepDivides(v: nat, u: nat, s: seq<Digit>, x: nat, q: nat, rem: nat)
    requires Ready(v, u, s, x) && x == q * u + rem && rem < u
    ensures q <= 9 && Divided(v, u, s + [q], rem)
    ensures rem == 0 || s == [] ==> q != 0
  {
    hide Divided;
    QuotientIsDigit(x, u, q, rem);
    if s == [] {
      FirstDigit(v, u, q, rem);
      assert s + [q] == [q];
    } else {
      NextDigit(v, u, s, x / 10, q, rem);
    }
  }

  /** One digit: divides, and tells whether nothing is left. */
  method NextQuotient(b: Bigint, S: Bigint, ghost v: nat, ghost s: seq<Digit>) returns (dig: Digit, zero: bool)
    requires b != S && b.x != S.x && b.Valid() && b.Trimmed() && Normalised(S)
    requires Ready(v, S.Value(), s, b.Value())
    modifies b, b.x
    ensures b.Valid() && b.Trimmed() && Divided(v, S.Value(), s + [dig], b.Value())
    ensures zero <==> b.Value() == 0
    ensures zero || s == [] ==> dig != 0
    ensures !zero ==> b.wds > 0
  {
    hide Divided, Val;
    ghost var x := b.Value();
    var q := Quorem(b, S);
    StepDivides(v, S.Value(), s, x, q, b.Value());
    IsZero(b);
    dig, zero := q, b.x[0] == 0 && b.wds <= 1;
  }

  lemma ReadyAgain(v: nat, u: nat, s: seq<Digit>, rem: nat)
    requires Divided(v, u, s, rem) && 0 < rem
    ensures Ready(v, u, s, rem * 10 + 0)
  {}

  /** Digits until the division comes out even or ilim of them are there; b keeps what is left. */
  method Digits(b0: Bigint, S: Bigint, ilim: nat) returns (s: seq<Digit>, b: Bigint, exact: bool)
    requires b0 != S && b0.x != S.x && b0.Valid() && b0.Trimmed() && Normalised(S)
    requires S.Value() <= b0.Value() < 10 * S.Value() && ilim >= 1
    modifies b0, b0.x
    ensures b != S && b.x != S.x && b.Valid() && b.Trimmed() && (b == b0 || (fresh(b) && fresh(b.x)))
    ensures 1 <= |s| <= ilim && s[0] != 0 && Divided(old(b0.Value()), S.Value(), s, b.Value())
    ensures exact <==> b.Value() == 0
    ensures exact ==> s[|s| - 1] != 0
    ensures !exact ==> |s| == ilim && b.wds > 0
  {
    hide Divided, Ready, Power, Val, W;
    ghost var v := b0.Value();
    b := b0;
    s := [];
    ReadyFirst(v, S.Value());
    while true
      invariant b != S && b.x != S.x && b.Valid() && b.Trimmed() && (b == b0 || (fresh(b) && fresh(b.x)))
      invariant Ready(v, S.Value(), s, b.Value()) && |s| < ilim && (s == [] || s[0] != 0)
      decreases ilim - |s|
    {
      var dig, zero := NextQuotient(b, S, v, s);
      s := s + [dig];
      if zero {
        return s, b, true;
      }
      if |s| >= ilim {
        return s, b, false;
      }
      ReadyAgain(v, S.Value(), s, b.Value());
      b := MultAdd(b, 10, 0);
    }
  }

  lemma ReadyFirst(v: nat, u: nat)
    requires u <= v < 10 * u
    ensures Ready(v, u, [], v)
  {}

  lemma IsZero(b: Bigint)
    requires b.Valid() && b.Trimmed()
    ensures b.Value() == 0 <==> b.x[0] == 0 && b.wds <= 1
    ensures b.Value() > 0 ==> b.wds > 0
  {
    ValZeros(b.x[..b.wds]);
  }

  /** A value v is a row of digits shifted up by m places. */
  ghost predicate ShiftedUp(v: nat, s: seq<Digit>, plus: nat, m: nat) { v == (DigitsValue(s) + plus) * Power(10, m) }

  /** A last digit 0, or a last digit 9 that one is added to, is one place more. */
  lemma OnePlaceMore(v: nat, s: seq<Digit>, plus: nat, m: nat)
    requires s != [] && plus <= 1 && s[|s| - 1] == 9 * plus && ShiftedUp(v, s, plus, m)
    ensures ShiftedUp(v, s[..|s| - 1], plus, m + 1)
  {
    Associate(DigitsValue(s[..|s| - 1]) + plus, 10, Power(10, m));
  }

  lemma NoPlaceYet(s: seq<Digit>, plus: nat)
    ensures ShiftedUp(DigitsValue(s) + plus, s, plus, 0)
  {
    PowerZero(10);
  }

  /** Drops trailing zeros; a nonzero first digit stops it. */
  method StripZeros(s: seq<Digit>) returns (t: seq<Digit>)
    requires s != [] && s[0] != 0
    ensures Printed(t) && |t| <= |s|
    ensures DigitsValue(s) == DigitsValue(t) * Power(10, |s| - |t|)
  {
    hide DigitsValue, Power;
    t := s;
    NoPlaceYet(s, 0);
    while t[|t| - 1] == 0
      invariant 1 <= |t| <= |s| && t[0] != 0
      invariant ShiftedUp(DigitsValue(s), t, 0, |s| - |t|)
      decreases |t|
    {
      OnePlaceMore(DigitsValue(s), t, 0, |s| - |t|);
      t := t[..|t| - 1];
    }
  }

  /** Adds one in the last place: nines turn into dropped zeros, and a run of nothing but nines
      into a single 1 one place higher. */
  method RoundUp(s: seq<Digit>) returns (t: seq<Digit>, bumped: bool)
    requires s != [] && s[0] != 0
    ensures Printed(t) && |t| <= |s| && (bumped ==> t == [1])
    ensures DigitsValue(s) + 1 == DigitsValue(t) * Power(10, |s| - |t| + if bumped then 1 else 0)
  {
    hide DigitsValue, Power;
    t := s;
    NoPlaceYet(s, 1);
    while t[|t| - 1] == 9
      invariant 1 <= |t| <= |s| && t[0] != 0
      invariant ShiftedUp(DigitsValue(s) + 1, t, 1, |s| - |t|)
      decreases |t|
    {
      OnePlaceMore(DigitsValue(s) + 1, t, 1, |s| - |t|);
      if |t| == 1 {
        OneIsOne(t[..0]);
        return [1], true;
      }
      t := t[..|t| - 1];
    }
    var n := |t| - 1;
    OneMore(t);
    t, bumped := t[..n] + [t[n] + 1], false;
  }

  lemma OneIsOne(none: seq<Digit>)
    requires none == []
    ensures DigitsValue([1]) == DigitsValue(none) + 1
  {
    DigitsAppend(none, 1);
    assert none + [1] == [1];
  }

  lemma OneMore(t: seq<Digit>)
    requires t != [] && t[|t| - 1] < 9
    ensures DigitsValue(t[..|t| - 1] + [t[|t| - 1] + 1]) == DigitsValue(t) + 1
  {
    DigitsAppend(t[..|t| - 1], t[|t| - 1] + 1);
  }

  /** The digits and the exponent that stand for v / u rounded to ilim significant places. */
  ghost predicate CorrectlyRounded(v: nat, u: nat, ilim: nat, s: seq<Digit>, bump: nat) {
    && Printed(s) && |s| <= ilim && bump <= 1 && (bump == 1 ==> s == [1])
    && RoundsHalfEven(v * Power(10, ilim - 1), u, DigitsValue(s) * Power(10, ilim - |s| + bump))
  }

  /** Generates the digits of b / S, between 1 and 10, rounded half to even to ilim places. */
  method Generate(b0: Bigint, S: Bigint, ilim: nat) returns (s: seq<Digit>, bump: nat)
    requires b0 != S && b0.x != S.x && b0.Valid() && b0.Trimmed() && Normalised(S)
    requires S.Value() <= b0.Value() < 10 * S.Value() && ilim >= 1
    modifies b0, b0.x
    ensures CorrectlyRounded(old(b0.Value()), S.Value(), ilim, s, bump)
  {
    hide Divided, Power, Val, W, RoundsHalfEven;
    ghost var v, u := b0.Value(), S.Value();
    var b, exact;
    s, b, exact := Digits(b0, S, ilim);
    if exact {
      ExactRounds(v, u, ilim, s);
      return s, 0;
    }
    ghost var rem := b.Value();
    b := LShift(b, 1);
    TwiceIsShift(rem);
    var j := Cmp(b, S);
    LastDigitParity(s);
    RemainderRounds(v, u, s, rem);
    if j > 0 || (j == 0 && s[|s| - 1] % 2 == 1) {
      var bumped;
      s, bumped := RoundUp(s);
      bump := if bumped then 1 else 0;
    } else {
      s := StripZeros(s);
      bump := 0;
    }
  }

  lemma TwiceIsShift(v: nat)
    ensures v * Power(2, 1) == 2 * v
  {
    PowerZero(2);
  }

  lemma LastDigitParity(s: seq<Digit>)
    requires s != []
    ensures DigitsValue(s) % 2 == s[|s| - 1] % 2
  {}

  lemma ExactRounds(v: nat, u: nat, ilim: nat, s: seq<Digit>)
    requires 1 <= |s| <= ilim && Divided(v, u, s, 0)
    ensures RoundsHalfEven(v * Power(10, ilim - 1), u, DigitsValue(s) * Power(10, ilim - |s| + 0))
  {
    var p := Power(10, ilim - |s|);
    PowerAdd(10, |s| - 1, ilim - |s|);
    Associate(v, Power(10, |s| - 1), p);
    Associate(DigitsValue(s), u, p);
    Associate(DigitsValue(s), p, u);
  }

  lemma RemainderRounds(v: nat, u: nat, s: seq<Digit>, rem: nat)
    requires Divided(v, u, s, rem)
    ensures RoundsHalfEven(v * Power(10, |s| - 1), u,
              if 2 * rem > u || (2 * rem == u && DigitsValue(s) % 2 == 1) then DigitsValue(s) + 1 else DigitsValue(s))
  {
    RoundByRemainder(v * Power(10, |s| - 1), u, DigitsValue(s), rem);
  }
}
