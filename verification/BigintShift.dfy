/** Shifts of big integers by any number of bits (dtoa.c: lshift, rshift, any_on). */
module BigintShift {
  import opened Limbs
  import opened Bigints

  /** Shifts of one 32-bit word, by the number of bits whose power of two is given. */
  function Shl32(d: Limb, p: nat): Limb { (d * p) % 0x1_0000_0000 }

  function Shr32(d: Limb, p: nat): Limb
    requires p > 0
  {
    DivShrinks(d, p);
    d / p
  }

  lemma DivShrinks(d: nat, p: nat)
    requires p > 0
    ensures 0 <= d / p <= d
  {
    Scale(1, p, d / p);
  }

  /** Bitwise or of words that have no bit in common: hi only has bits from p up, lo none. */
  function Or(hi: Limb, lo: Limb, p: nat): Limb
    requires p > 0 && hi % p == 0 && lo < p && hi + lo < 0x1_0000_0000
  {
    hi + lo
  }

  /** The two factors of 2^32 at bit k. */
  lemma SplitWord(k: nat)
    requires k <= 32
    ensures Power(2, k) * Power(2, 32 - k) == 0x1_0000_0000
    ensures Power(2, 32 - k) * Power(2, k) == 0x1_0000_0000
  {
    PowerAdd(2, k, 32 - k);
    TwoTo32();
  }

  /** A word shifted left is split between this limb and the next. */
  lemma ShlSplits(d: Limb, p: nat, q: nat)
    requires 0 < p && 0 < q && p * q == 0x1_0000_0000
    ensures d * p == Shl32(d, p) + 0x1_0000_0000 * Shr32(d, q)
    ensures Shl32(d, p) == p * (d % q) && Shl32(d, p) % p == 0
    ensures Shl32(d, p) + p <= 0x1_0000_0000
    ensures Shr32(d, q) < p
  {
    var h, r := d / q, d % q;
    Distribute(p, q * h, r);
    Associate(p, q, h);
    Scale(r + 1, q, p);
    Distribute(p, r, 1);
    DivModUnique(d * p, 0x1_0000_0000, h, p * r);
    DivModUnique(p * r, p, r, 0);
    if p <= h {
      Scale(p, h, q);
    }
  }

  /** The limbs of s[i..] shifted left, z coming in from below. */
  ghost function Shl(s: seq<Limb>, i: nat, z: Limb, p: nat, q: nat): (r: seq<Limb>)
    requires i <= |s| && 0 < p && 0 < q && p * q == 0x1_0000_0000 && z < p
    ensures |r| == |s| - i + 1
    decreases |s| - i
  {
    if i == |s| then [z] else
      ShlSplits(s[i], p, q);
      [Or(Shl32(s[i], p), z, p)] + Shl(s, i + 1, Shr32(s[i], q), p, q)
  }

  lemma {:induction false} ShlValue(s: seq<Limb>, i: nat, z: Limb, p: nat, q: nat)
    requires i <= |s| && 0 < p && 0 < q && p * q == 0x1_0000_0000 && z < p
    ensures Val(Shl(s, i, z, p, q)) == Val(s[i..]) * p + z
    decreases |s| - i
  {
    hide Shl32, Shr32, Val;
    if i == |s| {
      ValSingle(z);
      ValZeros(s[i..]);
    } else {
      ShlSplits(s[i], p, q);
      var rest := Shl(s, i + 1, Shr32(s[i], q), p, q);
      ShlValue(s, i + 1, Shr32(s[i], q), p, q);
      ValDrop(s, i);
      ValCons(Or(Shl32(s[i], p), z, p), rest);
      ShlStep(s[i], p, Shl32(s[i], p), Shr32(s[i], q), Val(s[i + 1..]));
    }
  }

  /** A nonzero top limb leaves a nonzero one, in the same place or one above. */
  lemma {:induction false} ShlTop(s: seq<Limb>, i: nat, z: Limb, p: nat, q: nat)
    requires i < |s| && 0 < p && 0 < q && p * q == 0x1_0000_0000 && z < p && s[|s| - 1] != 0
    ensures var t := Shl(s, i, z, p, q); t[|s| - i] != 0 || t[|s| - i - 1] != 0
    decreases |s| - i
  {
    ShlSplits(s[i], p, q);
    if i + 1 < |s| {
      ShlTop(s, i + 1, Shr32(s[i], q), p, q);
    } else {
      Scale(1, s[i], p);
    }
  }

  lemma ShlStep(d: int, p: int, lo: int, hi: int, tail: int)
    requires d * p == lo + 0x1_0000_0000 * hi
    ensures (d + 0x1_0000_0000 * tail) * p == lo + 0x1_0000_0000 * (tail * p + hi)
  {
    Distribute(p, d, 0x1_0000_0000 * tail);
    Associate(0x1_0000_0000, tail, p);
  }

  /** x1[n..] := x shifted left by the bits of p; the loop tests at its end. */
  method ShiftLimbsLeft(x1: array<Limb>, n: nat, x: array<Limb>, wds: nat, p: nat, q: nat)
    requires x1 != x && 0 < wds <= x.Length && n + wds < x1.Length
    requires 0 < p && 0 < q && p * q == 0x1_0000_0000
    modifies x1
    ensures x1[n..n + wds + 1] == Shl(x[..wds], 0, 0, p, q)
    ensures x1[..n] == old(x1[..n])
  {
    hide Shl32, Shr32;
    ghost var s := x[..wds];
    ghost var goal := Shl(s, 0, 0, p, q);
    var z: Limb, i := 0, 0;
    while true
      invariant 0 <= i < wds && z < p && x1[..n] == old(x1[..n])
      invariant forall j :: 0 <= j < i ==> x1[n + j] == goal[j]
      invariant goal[i..] == Shl(s, i, z, p, q)
      decreases wds - i
    {
      ShlSplits(x[i], p, q);
      x1[n + i] := Or(Shl32(x[i], p), z, p);
      z := Shr32(x[i], q);
      assert goal[i + 1..] == goal[i..][1..];
      i := i + 1;
      if i >= wds {
        break;
      }
    }
    x1[n + wds] := z;
    assert goal[wds..] == [z];
  }

  /** An empty big integer of the first size class, from b's own up, with room for n1 limbs. */
  method Room(b: Bigint, n1: nat) returns (b1: Bigint)
    requires b.Shape()
    ensures fresh(b1) && fresh(b1.x) && b1.Shape() && b1.sign == 0
    ensures n1 <= b1.x.Length && (b1.k == b.k || b1.x.Length < 2 * n1)
  {
    var k1, room := b.k, b.x.Length;
    while n1 > room
      invariant room == Power(2, k1) > 0 && (k1 == b.k || room < 2 * n1)
      decreases n1 - room
    {
      room, k1 := 2 * room, k1 + 1;
    }
    b1 := new Bigint.Balloc(k1);
  }

  /** The low r bits of a shift, 0 < r < 32, written from limb n on; returns how many limbs of x1
      are then in use. */
  method LShiftBits(x1: array<Limb>, n: nat, b: Bigint, r: nat) returns (wds: nat)
    requires b.Shape() && b.wds > 0 && b.x != x1 && n + b.wds < x1.Length && 0 < r < 32
    modifies x1
    ensures x1[..n] == old(x1[..n])
    ensures n + b.wds <= wds <= n + b.wds + 1 && Val(x1[n..wds]) == b.Value() * Power(2, r)
    ensures b.x[b.wds - 1] != 0 ==> x1[wds - 1] != 0
    ensures b.Value() == 0 ==> wds == n + b.wds
  {
    hide Power, W, Val;
    var p, q := Power(2, r), Power(2, 32 - r);
    SplitWord(r);
    ShiftLimbsLeft(x1, n, b.x, b.wds, p, q);
    ghost var t := Shl(b.x[..b.wds], 0, 0, p, q);
    Shifted(b.x[..b.wds], p, q);
    hide Shl;
    wds := n + b.wds;
    assert t[b.wds] == x1[wds] && t[b.wds - 1] == x1[wds - 1];
    if x1[wds] != 0 {
      wds := wds + 1;
    } else {
      assert t[..b.wds] == x1[n..wds];
    }
  }

  /** The shifted limbs with and without the one on top. */
  lemma Shifted(s: seq<Limb>, p: nat, q: nat)
    requires s != [] && 0 < p && 0 < q && p * q == 0x1_0000_0000
    ensures var t := Shl(s, 0, 0, p, q);
      && Val(t) == Val(s) * p
      && (t[|s|] == 0 ==> Val(t[..|s|]) == Val(s) * p)
      && (t[|s|] != 0 ==> Val(s) > 0)
      && (s[|s| - 1] != 0 ==> t[|s|] != 0 || t[|s| - 1] != 0)
  {
    hide Shl, Val;
    var t := Shl(s, 0, 0, p, q);
    ShlValue(s, 0, 0, p, q);
    assert s[0..] == s;
    if s[|s| - 1] != 0 { ShlTop(s, 0, 0, p, q); }
    if t[|s|] == 0 {
      ValTrim(t, |s|);
    } else {
      ValZeros(t);
    }
  }

  /** b shifted left by less than a limb, written from limb n on. */
  method ShiftInto(x1: array<Limb>, n: nat, b: Bigint, r: nat) returns (wds: nat)
    requires b.Shape() && b.wds > 0 && b.x != x1 && n + b.wds < x1.Length && r < 32
    modifies x1
    ensures x1[..n] == old(x1[..n])
    ensures n + b.wds <= wds <= n + b.wds + 1 && Val(x1[n..wds]) == b.Value() * Power(2, r)
    ensures b.x[b.wds - 1] != 0 ==> x1[wds - 1] != 0
    ensures b.Value() == 0 ==> wds == n + b.wds
    ensures r == 0 ==> wds == n + b.wds && x1[n..wds] == b.x[..b.wds]
  {
    hide Power, W, Val;
    if r != 0 {
      wds := LShiftBits(x1, n, b, r);
    } else {
      CopyLimbs(x1, n, b.x, b.wds);
      wds := n + b.wds;
      PowerZero(2);
      assert x1[n..wds][b.wds - 1] == b.x[b.wds - 1];
    }
  }

  /** b shifted left by k bits, in a new object of a class that has room. b must be kept in at
      least one limb, for the loops test at their end. */
  method LShift(b: Bigint, k: nat) returns (b1: Bigint)
    requires b.Shape() && b.wds > 0
    ensures fresh(b1) && fresh(b1.x)
    ensures b1.Shape() && b1.wds > 0 && b1.sign == 0
    ensures b1.Value() == b.Value() * Power(2, k)
    ensures b.Trimmed() && (b.Value() > 0 || k < 32) ==> b1.Trimmed()
  {
    hide Power, W, Val;
    var n, r := k / 32, k % 32;
    b1 := Room(b, n + b.wds + 1);
    ZeroLimbs(b1.x, n);
    ghost var low := b1.x[..n];
    var wds := ShiftInto(b1.x, n, b, r);
    b1.wds := wds;
    assert b1.x[..wds][..n] == low && b1.x[..wds][n..] == b1.x[n..wds];
    ShiftedValue(b1.x[..wds], n, b.Value(), r, k);
    if b.wds == 1 && b.x[0] == 0 { SingleZero(b.x[..1]); }
  }

  lemma SingleZero(s: seq<Limb>)
    requires |s| == 1 && s[0] == 0
    ensures Val(s) == 0
  {
    assert s == [0];
    ValSingle(0);
  }

  /** Whole limbs of zero below the bits of a shift make up the full shift. */
  lemma ShiftedValue(x: seq<Limb>, n: nat, v: nat, r: nat, k: nat)
    requires n <= |x| && k == 32 * n + r && (forall i :: 0 <= i < n ==> x[..n][i] == 0)
    requires Val(x[n..]) == v * Power(2, r)
    ensures Val(x) == v * Power(2, k)
  {
    hide Power, W, Val;
    assert x == x[..n] + x[n..];
    ValConcat(x[..n], x[n..]);
    ValZeros(x[..n]);
    WIsPower(n);
    PowerAdd(2, r, 32 * n);
    Associate(v, Power(2, r), W(n));
  }

  method ZeroLimbs(x: array<Limb>, n: nat)
    requires n <= x.Length
    modifies x
    ensures forall j :: 0 <= j < n ==> x[j] == 0
  {
    for i := 0 to n
      invariant forall j :: 0 <= j < i ==> x[j] == 0
    {
      x[i] := 0;
    }
  }

  method CopyLimbs(x1: array<Limb>, n: nat, x: array<Limb>, wds: nat)
    requires x1 != x && wds <= x.Length && n + wds <= x1.Length
    modifies x1
    ensures x1[..n] == old(x1[..n]) && x1[n..n + wds] == x[..wds]
  {
    for i := 0 to wds
      invariant x1[..n] == old(x1[..n]) && x1[n..n + i] == x[..i]
    {
      x1[n + i] := x[i];
    }
  }

  /** The limbs of s[i..] shifted right: each takes its low bits from the limb above. */
  ghost function Shr(s: seq<Limb>, i: nat, p: nat, q: nat): (r: seq<Limb>)
    requires i <= |s| && 0 < p && 0 < q && p * q == 0x1_0000_0000
    ensures |r| == |s| - i
    decreases |s| - i
  {
    if i == |s| then [] else
      [ShrLimb(s[i], if i + 1 < |s| then s[i + 1] else 0, p, q)] + Shr(s, i + 1, p, q)
  }

  function ShrLimb(d: Limb, above: Limb, p: nat, q: nat): Limb
    requires 0 < p && 0 < q && p * q == 0x1_0000_0000
  {
    ShlSplits(d, q, p);
    ShlSplits(above, q, p);
    Or(Shl32(above, q), Shr32(d, p), q)
  }

  lemma {:induction false} ShrValue(s: seq<Limb>, i: nat, p: nat, q: nat)
    requires i < |s| && 0 < p && 0 < q && p * q == 0x1_0000_0000
    ensures p * Val(Shr(s, i, p, q)) + s[i] % p == Val(s[i..])
    decreases |s| - i
  {
    hide Shl32, Val;
    var rest := Shr(s, i + 1, p, q);
    var above := if i + 1 < |s| then s[i + 1] else 0;
    ShlSplits(s[i], q, p);
    ShlSplits(above, q, p);
    ValDrop(s, i);
    ValCons(ShrLimb(s[i], above, p, q), rest);
    if i + 1 < |s| {
      ShrValue(s, i + 1, p, q);
    } else {
      ValZeros(rest);
      ValZeros(s[i + 1..]);
    }
    ShrStep(p, q, s[i], above, Shl32(above, q), Val(rest), Val(s[i + 1..]));
  }

  lemma ShrQuotient(s: seq<Limb>, i: nat, p: nat, q: nat)
    requires i < |s| && 0 < p && 0 < q && p * q == 0x1_0000_0000
    ensures Val(Shr(s, i, p, q)) == Val(s[i..]) / p
  {
    ShrValue(s, i, p, q);
    DivModUnique(Val(s[i..]), p, Val(Shr(s, i, p, q)), s[i] % p);
  }

  /** A nonzero top limb leaves a nonzero one, in the same place or one below. */
  lemma {:induction false} ShrTop(s: seq<Limb>, i: nat, p: nat, q: nat)
    requires i + 1 < |s| && 0 < p && 0 < q && p * q == 0x1_0000_0000 && s[|s| - 1] != 0
    ensures var t := Shr(s, i, p, q);
      t[|t| - 1] == Shr32(s[|s| - 1], p) && (t[|t| - 1] != 0 || t[|t| - 2] != 0)
    decreases |s| - i
  {
    if i + 2 < |s| {
      ShrTop(s, i + 1, p, q);
    } else {
      var d := s[i + 1];
      ShlSplits(d, q, p);
      ShlZero(q);
      if d / p == 0 {
        Scale(1, d % p, q);
      }
    }
  }

  lemma ShlZero(p: nat)
    ensures Shl32(0, p) == 0
  {}

  lemma ShrStep(p: nat, q: nat, d: nat, above: nat, hi: nat, rest: nat, tail: nat)
    requires 0 < p && p * q == 0x1_0000_0000
    requires hi == q * (above % p) && p * rest + above % p == tail
    ensures p * (hi + d / p + 0x1_0000_0000 * rest) + d % p == d + 0x1_0000_0000 * tail
  {
    Associate(p, q, above % p);
    Associate(p, 0x1_0000_0000, rest);
    Associate(0x1_0000_0000, p, rest);
    Distribute(p, hi + d / p, 0x1_0000_0000 * rest);
    Distribute(p, hi, d / p);
  }

  /** The limbs x[n..wds] shifted right and moved down. Each limb is read before the loop writes
      over it. */
  method ShiftLimbsRight(x: array<Limb>, n: nat, wds: nat, p: nat, q: nat)
    requires n < wds <= x.Length && 0 < p && 0 < q && p * q == 0x1_0000_0000
    modifies x
    ensures x[..wds - n] == Shr(old(x[..wds]), n, p, q)
  {
    hide Shl32, Shr32;
    ghost var s := x[..wds];
    ghost var goal := Shr(s, n, p, q);
    ShlSplits(x[n], q, p);
    var i, y := n, Shr32(x[n], p);
    while i + 1 < wds
      invariant n <= i < wds && y == Shr32(s[i], p) < q
      invariant forall j :: i < j < wds ==> x[j] == s[j]
      invariant forall j :: 0 <= j < i - n ==> x[j] == goal[j]
      invariant goal[i - n..] == Shr(s, i, p, q)
    {
      ShlSplits(x[i + 1], q, p);
      assert goal[i + 1 - n..] == goal[i - n..][1..];
      x[i - n] := Or(Shl32(x[i + 1], q), y, q);
      y := Shr32(x[i + 1], p);
      i := i + 1;
    }
    x[i - n] := y;
    ShlZero(q);
    assert goal[i - n..] == [y];
  }

  /** x[..] := x[n..wds] shifted right in place by the bits of p; returns the limbs still in use. */
  method RShiftBits(x: array<Limb>, n: nat, wds: nat, p: nat, q: nat) returns (w: nat)
    requires n < wds <= x.Length && 0 < p && 0 < q && p * q == 0x1_0000_0000
    modifies x
    ensures w <= wds - n && Val(x[..w]) == Val(Shr(old(x[..wds]), n, p, q))
    ensures w == 0 ==> x[0] == 0
    ensures wds - n - 1 <= w && (w > 0 && old(x[wds - 1]) != 0 ==> x[w - 1] != 0)
  {
    hide Shr, Val;
    ghost var s := x[..wds];
    ghost var goal := Shr(s, n, p, q);
    ShiftLimbsRight(x, n, wds, p, q);
    w := wds - n - 1;
    if w > 0 && s[wds - 1] != 0 { ShrTop(s, n, p, q); }
    assert x[w] == goal[w];
    if x[w] != 0 {
      w := w + 1;
    } else {
      ValTrim(goal, w);
    }
    assert x[..w] == goal[..w];
  }

  /** b shifted right by k bits, in place. */
  method RShift(b: Bigint, k: nat)
    requires b.Shape()
    modifies b, b.x
    ensures b.Valid() && b.sign == old(b.sign)
    ensures b.Value() == old(b.Value()) / Power(2, k)
    ensures old(b.Trimmed()) ==> b.Trimmed()
  {
    hide Power, W, Val;
    var n, r := k / 32, k % 32;
    ghost var s := b.x[..b.wds];
    if n < b.wds {
      DropQuotient(s, n, r, k);
      var wds := DropInto(b.x, n, b.wds, r);
      b.wds := wds;
    } else {
      DropAllBits(s, k);
      b.wds := 0;
      b.x[0] := 0;
      ValZeros(b.x[..0]);
    }
  }

  /** x[..] := x[n..wds] shifted right by less than a limb; returns the limbs still in use. */
  method DropInto(x: array<Limb>, n: nat, wds: nat, r: nat) returns (w: nat)
    requires n < wds <= x.Length && r < 32
    modifies x
    ensures w <= wds - n && Val(x[..w]) == Val(old(x[n..wds])) / Power(2, r)
    ensures w == 0 ==> x[0] == 0
    ensures w > 0 && old(x[wds - 1]) != 0 ==> x[w - 1] != 0
  {
    hide Power, W, Val;
    if r != 0 {
      var p, q := Power(2, r), Power(2, 32 - r);
      SplitWord(r);
      ShrQuotient(x[..wds], n, p, q);
      assert x[..wds][n..] == x[n..wds];
      w := RShiftBits(x, n, wds, p, q);
    } else {
      PowerZero(2);
      w := MoveDown(x, n, wds);
      assert x[..w][w - 1] == old(x[n..wds])[w - 1];
    }
  }

  lemma DropQuotient(s: seq<Limb>, n: nat, r: nat, k: nat)
    requires n < |s| && r < 32 && k == 32 * n + r
    ensures Val(s) / Power(2, k) == Val(s[n..]) / Power(2, r)
    ensures Val(s) % Power(2, k) == Val(s[..n]) + W(n) * (Val(s[n..]) % Power(2, r))
  {
    hide Power, W, Val;
    assert s == s[..n] + s[n..];
    ValConcat(s[..n], s[n..]);
    ValBound(s[..n]);
    WIsPower(n);
    PowerAdd(2, 32 * n, r);
    DivModScaled(Val(s[..n]), W(n), Val(s[n..]), Power(2, r));
  }

  /** The low bits of a number are its low limbs and the low bits of one more. */
  lemma DropLowBits(s: seq<Limb>, n: nat, r: nat, k: nat)
    requires n < |s| && r < 32 && k == 32 * n + r
    ensures Val(s) % Power(2, k) == Val(s[..n]) + W(n) * (s[n] % Power(2, r))
  {
    hide Power, W, Val;
    DropQuotient(s, n, r, k);
    SplitWord(r);
    ValDrop(s, n);
    LowWord(s[n], Val(s[n + 1..]), Power(2, r), Power(2, 32 - r));
  }

  lemma LowWord(d: nat, tail: nat, p: nat, q: nat)
    requires 0 < p && p * q == 0x1_0000_0000
    ensures (d + 0x1_0000_0000 * tail) % p == d % p
  {
    Associate(p, q, tail);
    Distribute(p, d / p, q * tail);
    DivModUnique(d + 0x1_0000_0000 * tail, p, d / p + q * tail, d % p);
  }

  lemma DropAllBits(s: seq<Limb>, k: nat)
    requires |s| <= k / 32
    ensures Val(s) < Power(2, k)
    ensures Val(s) / Power(2, k) == 0 && Val(s) % Power(2, k) == Val(s)
  {
    hide Power, W, Val;
    ValBound(s);
    WIsPower(|s|);
    PowerMonotone(2, 32 * |s|, k);
    DivModUnique(Val(s), Power(2, k), 0, Val(s));
  }

  /** x[..] := x[n..wds]. */
  method MoveDown(x: array<Limb>, n: nat, wds: nat) returns (w: nat)
    requires n < wds <= x.Length
    modifies x
    ensures w == wds - n && x[..w] == old(x[n..wds])
  {
    ghost var s := x[..wds];
    w := 0;
    while n + w < wds
      invariant 0 <= w <= wds - n
      invariant forall j :: w + n <= j < wds ==> x[j] == s[j]
      invariant forall j :: 0 <= j < w ==> x[j] == s[n + j]
    {
      x[w] := x[n + w];
      w := w + 1;
    }
  }

  /** Which limbs hold the k low bits. */
  lemma LowBits(s: seq<Limb>, k: nat)
    ensures var n := k / 32;
      Val(s) % Power(2, k) != 0 <==>
        (n < |s| && s[n] % Power(2, k % 32) != 0) || exists i :: 0 <= i < n && i < |s| && s[i] != 0
  {
    hide Power, W, Val;
    var n, p := k / 32, Power(2, k % 32);
    if n < |s| {
      DropLowBits(s, n, k % 32, k);
      ValZeros(s[..n]);
      assert forall i :: 0 <= i < n ==> s[i] == s[..n][i];
      if s[n] % p != 0 {
        Scale(1, s[n] % p, W(n));
      }
    } else {
      DropAllBits(s, k);
      ValZeros(s);
    }
  }

  /** Whether any of the k low bits of b is set. */
  method AnyOn(b: Bigint, k: nat) returns (on: bool)
    requires b.Shape()
    ensures on <==> b.Value() % Power(2, k) != 0
  {
    hide Power, W, Val;
    var n, r := k / 32, k % 32;
    ghost var s := b.x[..b.wds];
    LowBits(s, k);
    if n > b.wds {
      n := b.wds;
    } else if n < b.wds {
      if r != 0 {
        var p, d := Power(2, r), b.x[n];
        SplitWord(r);
        KeepHighBits(d, p, Power(2, 32 - r));
        if Shl32(Shr32(d, p), p) != d {
          return true;
        }
      } else {
        PowerZero(2);
      }
    }
    while n > 0
      invariant 0 <= n <= b.wds
      invariant b.Value() % Power(2, k) != 0 <==> exists i :: 0 <= i < n && s[i] != 0
    {
      n := n - 1;
      if b.x[n] != 0 {
        return true;
      }
    }
    return false;
  }

  /** Shifting down and up again clears the low bits, and only changes d if one was set. */
  lemma KeepHighBits(d: Limb, p: nat, q: nat)
    requires 0 < p && 0 < q && p * q == 0x1_0000_0000
    ensures Shl32(Shr32(d, p), p) == d - d % p
  {
    DivModUnique((d / p) * p, 0x1_0000_0000, 0, d - d % p);
  }
}
