/** The smallest power of two that is large enough, found by smearing the highest bit downwards
    (buffer.hpp: next_pow2). */
module PowerOfTwo {
  import opened Limbs

  /** Bitwise operations on numbers. */
  function Or(a: nat, b: nat): nat {
    if a == 0 && b == 0 then 0 else 2 * Or(a / 2, b / 2) + if a % 2 == 1 || b % 2 == 1 then 1 else 0
  }

  function And(a: nat, b: nat): nat {
    if a == 0 then 0 else 2 * And(a / 2, b / 2) + if a % 2 == 1 && b % 2 == 1 then 1 else 0
  }

  function Shift(x: nat, k: nat): nat
    decreases k
  {
    if k == 0 then x else Shift(x / 2, k - 1)
  }

  ghost predicate IsPower(x: nat) { exists k: nat :: x == Power(2, k) }

  lemma {:induction false} AndSelf(x: nat)
    ensures And(x, x) == x
  {
    if x > 0 {
      AndSelf(x / 2);
    }
  }

  /** A number and the one before it share no bit exactly when the number is a power of two. */
  lemma {:induction false} OneBit(x: nat)
    requires x >= 1
    ensures And(x, x - 1) == 0 <==> IsPower(x)
  {
    if x % 2 == 1 {
      assert (x - 1) / 2 == x / 2;
      AndSelf(x / 2);
      if x == 1 { assert Power(2, 0) == 1; }
    } else {
      var h := x / 2;
      assert (x - 1) / 2 == h - 1 && (x - 1) % 2 == 1;
      OneBit(h);
      if IsPower(h) {
        var k: nat :| h == Power(2, k);
        assert x == Power(2, k + 1);
      }
      if IsPower(x) {
        var k: nat :| x == Power(2, k);
        assert k > 0 && h == Power(2, k - 1);
      }
    }
  }

  lemma {:induction false} OrBounds(a: nat, b: nat, t: nat)
    ensures a <= Or(a, b) && b <= Or(a, b)
    ensures a < Power(2, t) && b < Power(2, t) ==> Or(a, b) < Power(2, t)
    decreases a + b
  {
    if a != 0 || b != 0 {
      OrBounds(a / 2, b / 2, if t == 0 then 0 else t - 1);
    }
  }

  /** The low t bits are zero. */
  predicate Multiple(h: nat, t: nat)
    decreases t
  {
    t == 0 || (h % 2 == 0 && Multiple(h / 2, t - 1))
  }

  /** Bits below a boundary are joined below it. */
  lemma {:induction false} OrBelow(h: nat, low: nat, b: nat, t: nat)
    requires Multiple(h, t) && low < Power(2, t) && b < Power(2, t)
    ensures Or(h + low, b) >= h + b
    decreases t
  {
    if t > 0 && (h + low != 0 || b != 0) {
      OrBelow(h / 2, low / 2, b / 2, t - 1);
      assert (h + low) / 2 == h / 2 + low / 2;
    } else if t == 0 {
      OrBounds(h, 0, 0);
    }
  }

  function Less(a: nat, b: nat): nat { if a <= b then 0 else a - b }

  lemma {:induction false} PowGrows(a: nat, b: nat)
    requires a <= b
    ensures Power(2, a) <= Power(2, b) && (a < b ==> 2 * Power(2, a) <= Power(2, b))
    decreases b
  {
    if a < b {
      PowGrows(a, b - 1);
    }
  }

  lemma {:induction false} PowMultiple(a: nat, t: nat)
    requires t <= a
    ensures Power(2, t) <= Power(2, a) && Multiple(Power(2, a) - Power(2, t), t)
    decreases t
  {
    PowGrows(t, a);
    if t > 0 {
      PowMultiple(a - 1, t - 1);
      Doubles(a - 1);
      Doubles(t - 1);
      hide Power;
      var h := Power(2, a - 1) - Power(2, t - 1);
      assert Power(2, a) - Power(2, t) == 2 * h;
      assert (2 * h) / 2 == h && (2 * h) % 2 == 0;
    }
  }

  lemma Doubles(k: nat)
    ensures Power(2, k + 1) == 2 * Power(2, k)
  {}

  /** The top w of m bits are set. */
  ghost predicate TopSet(y: nat, m: nat, w: nat) { Power(2, m) - Power(2, Less(m, w)) <= y < Power(2, m) }

  lemma {:induction false} ShiftTop(y: nat, m: nat, t: nat, w: nat)
    requires w <= m && t <= m && Power(2, m) - Power(2, t) <= y < Power(2, m)
    ensures Power(2, m - w) - Power(2, Less(t, w)) <= Shift(y, w) < Power(2, m - w)
    decreases w
  {
    if w > 0 {
      ShiftTop(y / 2, m - 1, Less(t, 1), w - 1);
    }
  }

  lemma {:induction false} ShiftSmaller(y: nat, w: nat)
    ensures Shift(y, w) <= y
    decreases w
  {
    if w > 0 {
      ShiftSmaller(y / 2, w - 1);
    }
  }

  /** Each smearing step doubles the number of set bits at the top. */
  lemma SmearStep(y: nat, m: nat, w: nat)
    requires TopSet(y, m, w)
    ensures TopSet(Or(y, Shift(y, w)), m, 2 * w)
  {
    var b := Shift(y, w);
    ShiftSmaller(y, w);
    OrBounds(y, b, m);
    if w < m {
      var t := m - w;
      PowMultiple(m, t);
      ShiftTop(y, m, t, w);
      var h := Power(2, m) - Power(2, t);
      OrBelow(h, y - h, b, t);
    }
  }

  function Smear(x: nat): nat {
    var x1 := Or(x, Shift(x, 1));
    var x2 := Or(x1, Shift(x1, 2));
    var x4 := Or(x2, Shift(x2, 4));
    var x8 := Or(x4, Shift(x4, 8));
    Or(x8, Shift(x8, 16))
  }

  function NextPow2(x: nat): nat {
    if x == 0 || And(x, x - 1) == 0 then x else Smear(x) + 1
  }

  lemma SmearGrows(x: nat)
    ensures x <= Smear(x)
  {
    var x1 := Or(x, Shift(x, 1));
    var x2 := Or(x1, Shift(x1, 2));
    var x4 := Or(x2, Shift(x2, 4));
    var x8 := Or(x4, Shift(x4, 8));
    OrBounds(x, Shift(x, 1), 0);
    OrBounds(x1, Shift(x1, 2), 0);
    OrBounds(x2, Shift(x2, 4), 0);
    OrBounds(x4, Shift(x4, 8), 0);
    OrBounds(x8, Shift(x8, 16), 0);
  }

  lemma SmearFills(x: nat, m: nat)
    requires 1 <= m <= 32 && Power(2, m - 1) <= x < Power(2, m)
    ensures Smear(x) == Power(2, m) - 1
  {
    var x1 := Or(x, Shift(x, 1));
    var x2 := Or(x1, Shift(x1, 2));
    var x4 := Or(x2, Shift(x2, 4));
    var x8 := Or(x4, Shift(x4, 8));
    SmearStep(x, m, 1);
    SmearStep(x1, m, 2);
    SmearStep(x2, m, 4);
    SmearStep(x4, m, 8);
    SmearStep(x8, m, 16);
  }

  lemma {:induction false} TopBit(x: nat) returns (m: nat)
    requires x >= 1
    ensures m >= 1 && Power(2, m - 1) <= x < Power(2, m)
  {
    if x == 1 {
      m := 1;
    } else {
      var n := TopBit(x / 2);
      m := n + 1;
    }
  }

  /** Up to 2^32 the result is the least power of two that is at least x; beyond, it is still at
      least x. */
  lemma NextPow2Is(x: nat)
    ensures x <= NextPow2(x)
    ensures 1 <= x <= Power(2, 32) ==> IsPower(NextPow2(x)) && forall p :: IsPower(p) && x <= p ==> NextPow2(x) <= p
  {
    hide Smear, And;
    SmearGrows(x);
    if 1 <= x <= Power(2, 32) {
      OneBit(x);
      if !IsPower(x) {
        var m := TopBit(x);
        assert IsPower(Power(2, 32)) && IsPower(Power(2, m - 1));
        if m > 32 { PowGrows(32, m - 1); }
        SmearFills(x, m);
        forall p | IsPower(p) && x <= p ensures Power(2, m) <= p {
          var k: nat :| p == Power(2, k);
          if k < m { PowGrows(k, m - 1); }
          PowGrows(m, if k < m then m else k);
        }
      }
    }
  }
}
