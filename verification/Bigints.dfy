/** The big integers of dtoa.c: limb arrays worked on in place, with explicit capacity. */
module Bigints {
  import opened Limbs

  /** A big integer; x has room for 2^k limbs, of which the low wds are in use. */
  class Bigint {
    const k: nat
    const x: array<Limb>
    var sign: int
    var wds: nat

    ghost predicate Shape()
      reads this
    {
      x.Length == Power(2, k) && wds <= x.Length
    }

    /** Zero may be kept in no limbs at all, but then x[0] is still zero: loops that test at
        their end read it. */
    ghost predicate Valid()
      reads this, x
    {
      Shape() && (wds == 0 ==> x[0] == 0)
    }

    /** No leading zero limb; zero has at most one limb. */
    ghost predicate Trimmed()
      reads this, x
      requires Shape()
    {
      wds > 1 ==> x[wds - 1] != 0
    }

    ghost function Value(): nat
      reads this, x
      requires Shape()
    {
      Val(x[..wds])
    }

    /** A new big integer of size class k; the limbs hold anything. */
    constructor Balloc(k: nat)
      ensures this.k == k && fresh(x)
      ensures Shape() && wds == 0 && sign == 0
    {
      this.k := k;
      x := new Limb[Power(2, k)];
      wds := 0;
      sign := 0;
    }
  }

  /** The low and the high half of a 64-bit column. */
  function Low(y: nat): Limb { y % 0x1_0000_0000 }

  function High(y: nat): nat { y / 0x1_0000_0000 }

  /** One column of a product: digit times multiplier plus what comes in. */
  function Column(d: Limb, m: nat, c: nat): nat { d * m + c }

  lemma HighBelow(y: nat, c: nat)
    requires y < c * 0x1_0000_0000
    ensures High(y) < c
  {}

  /** Puts one more limb on top of b, in an object of the next size class when b is full. */
  method Append(b: Bigint, top: Limb) returns (r: Bigint)
    requires b.Shape()
    modifies b, b.x
    ensures r == b || (fresh(r) && fresh(r.x))
    ensures r.Shape() && r.wds == old(b.wds) + 1 && r.sign == old(b.sign)
    ensures r.x[..r.wds] == old(b.x[..b.wds]) + [top]
    ensures r.Value() == old(b.Value()) + W(old(b.wds)) * top
  {
    r := b;
    if b.wds >= b.x.Length {
      r := new Bigint.Balloc(b.k + 1);
      r.sign, r.wds := b.sign, b.wds;
      forall i | 0 <= i < b.wds { r.x[i] := b.x[i]; }
    }
    r.x[r.wds] := top;
    r.wds := r.wds + 1;
    assert r.x[..r.wds] == old(b.x[..b.wds]) + [top];
    ValAppend(old(b.x[..b.wds]), top);
  }

  /** b becomes b * m + a, in a larger object when the last carry needs one. The one exception
      is a zero kept in no limbs, which stays zero whatever a is. */
  method MultAdd(b: Bigint, m: nat, a: nat) returns (r: Bigint)
    requires b.Valid() && m < 0x8000_0000 && a < 0x8000_0000
    modifies b, b.x
    ensures r == b || (fresh(r) && fresh(r.x))
    ensures r.Shape() && r.wds >= old(b.wds) && r.sign == old(b.sign)
    ensures r.Value() == if old(b.wds) == 0 then 0 else old(b.Value()) * m + a
    ensures old(b.wds) > 0 || a == 0 ==> r.Valid()
    ensures m > 0 && old(b.Trimmed()) ==> r.Trimmed()
  {
    ghost var n := if b.wds == 0 then 1 else b.wds;
    ghost var s := b.x[..n];
    MacValue(s, 0, m, a);
    assert s[0..] == s;
    if b.wds == 0 { ValZeros(s); }
    var carry := MultAddLimbs(b.x, b.wds, m, a);
    r := b;
    if carry != 0 {
      r := Append(b, carry);
    } else {
      assert W(n) * carry == 0;
    }
  }

  /** The loop of MultAdd. It tests at its end, so it always works on one limb. */
  method MultAddLimbs(x: array<Limb>, wds: nat, m: nat, a: nat) returns (carry: nat)
    requires wds <= x.Length && 0 < x.Length && m < 0x8000_0000 && a < 0x8000_0000
    modifies x
    ensures var n := if wds == 0 then 1 else wds;
      x[..n] == Mac(old(x[..n]), 0, m, a).limbs && carry == Mac(old(x[..n]), 0, m, a).carry
  {
    hide Column, High, Low;
    ghost var s := x[..if wds == 0 then 1 else wds];
    ghost var goal := Mac(s, 0, m, a);
    carry := a;
    var i := 0;
    while i == 0 || i < wds
      invariant 0 <= i <= |s| && carry < 0x8000_0000
      invariant forall j :: i <= j < |s| ==> x[j] == s[j]
      invariant forall j :: 0 <= j < i ==> x[j] == goal.limbs[j]
      invariant goal.limbs[i..] == Mac(s, i, m, carry).limbs
      invariant goal.carry == Mac(s, i, m, carry).carry
      decreases |s| - i
    {
      ColumnBound(x[i], m, carry, 0x8000_0000);
      var y := Column(x[i], m, carry);
      carry, x[i] := High(y), Low(y);
      assert goal.limbs[i + 1..] == goal.limbs[i..][1..];
      i := i + 1;
    }
  }

  datatype Carried = Carried(limbs: seq<Limb>, carry: nat)

  /** The limbs of s[i..] * m + a, and the carry out of the top limb. */
  ghost function Mac(s: seq<Limb>, i: nat, m: nat, a: nat): (r: Carried)
    requires i <= |s|
    ensures |r.limbs| == |s| - i
    decreases |s| - i
  {
    if i == |s| then Carried([], a) else
      var y := Column(s[i], m, a);
      var r := Mac(s, i + 1, m, High(y));
      r.(limbs := [Low(y)] + r.limbs)
  }

  lemma {:induction false} MacValue(s: seq<Limb>, i: nat, m: nat, a: nat)
    requires i <= |s| && m < 0x8000_0000 && a < 0x8000_0000
    ensures var r := Mac(s, i, m, a);
      r.carry < 0x8000_0000
      && Val(r.limbs) + W(|s| - i) * r.carry == Val(s[i..]) * m + a
      && (i < |s| && s[|s| - 1] != 0 && m > 0 && r.carry == 0 ==> r.limbs[|s| - i - 1] != 0)
    decreases |s| - i
  {
    if i < |s| {
      var y := Column(s[i], m, a);
      var r := Mac(s, i + 1, m, High(y));
      ColumnBound(s[i], m, a, 0x8000_0000);
      MacValue(s, i + 1, m, High(y));
      ValDrop(s, i);
      MacStep(s[i], Val(s[i + 1..]), m, a, y, Val(r.limbs), W(|s| - i - 1), r.carry);
      if m > 0 { Scale(1, m, s[i]); }
    }
  }

  lemma MacStep(d: int, tail: int, m: int, a: int, y: nat, rest: int, w: int, carry: int)
    requires y == d * m + a
    requires rest + w * carry == tail * m + High(y)
    ensures Low(y) + 0x1_0000_0000 * rest + (0x1_0000_0000 * w) * carry == (d + 0x1_0000_0000 * tail) * m + a
  {
    Associate(0x1_0000_0000, w, carry);
    Distribute(m, d, 0x1_0000_0000 * tail);
    Associate(0x1_0000_0000, tail, m);
  }

  lemma ColumnBound(d: Limb, m: nat, carry: nat, c: nat)
    requires carry < c && m < c
    ensures 0 <= d * m + carry < c * 0x1_0000_0000
    ensures High(Column(d, m, carry)) < c
  {
    Scale(d, 0xffff_ffff, m);
    HighBelow(d * m + carry, c);
  }

  /** b becomes b + 1. The one exception is again a zero kept in no limbs: its first limb is set, and
      it still counts none. */
  method Increment(b: Bigint) returns (r: Bigint)
    requires b.Valid()
    modifies b, b.x
    ensures r == b || (fresh(r) && fresh(r.x))
    ensures r.Shape() && r.sign == old(b.sign)
    ensures r.Value() == if old(b.wds) == 0 then 0 else old(b.Value()) + 1
    ensures if old(b.wds) == 0 then r == b && r.wds == 0 && r.x[0] == 1 else r.Valid()
    ensures old(b.Trimmed()) ==> r.Trimmed()
  {
    hide Val, W;
    ghost var s := b.x[..b.wds];
    if b.wds == 0 { ValZeros(s); }
    var i := 0;
    while i == 0 || i < b.wds
      invariant 0 <= i <= b.wds == old(b.wds) && b.sign == old(b.sign) && b.Shape()
      invariant b.wds == 0 ==> b.x[0] == 0
      invariant forall j :: 0 <= j < i ==> b.x[j] == 0 && s[j] == 0xffff_ffff
      invariant forall j :: i <= j < |s| ==> b.x[j] == s[j]
      decreases if i == 0 then b.wds + 1 else b.wds - i
    {
      if b.x[i] < 0xffff_ffff {
        b.x[i] := b.x[i] + 1;
        if b.wds == 0 {
          ValZeros(b.x[..0]);
          return b;
        }
        CarryRipple(s, b.x[..b.wds], i);
        return b;
      }
      b.x[i] := 0;
      i := i + 1;
    }
    ValZeros(b.x[..b.wds]);
    ValAllOnes(s);
    assert b.Value() == 0;
    r := Append(b, 1);
  }

  lemma {:induction false} ValAllOnes(s: seq<Limb>)
    requires forall i :: 0 <= i < |s| ==> s[i] == 0xffff_ffff
    ensures Val(s) + 1 == W(|s|)
  {
    if s != [] {
      ValAllOnes(s[1..]);
    }
  }

  lemma {:induction false} CarryRipple(s: seq<Limb>, t: seq<Limb>, i: nat)
    requires |s| == |t| && i < |s|
    requires forall j :: 0 <= j < i ==> t[j] == 0 && s[j] == 0xffff_ffff
    requires s[i] < t[i] == s[i] as int + 1 && s[i + 1..] == t[i + 1..]
    ensures Val(t) == Val(s) + 1
  {
    if i > 0 {
      CarryRipple(s[1..], t[1..], i - 1);
    }
  }
}
