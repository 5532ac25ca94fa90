/** Order and signed difference of big integers (dtoa.c: cmp, diff). */
module BigintCompare {
  import opened Limbs
  import opened Bigints

  /** Sign of a - b for trimmed operands. The limb counts are compared first, so two zeros kept
      in a different number of limbs are told apart; two zeros kept in no limbs are never compared. */
  method Cmp(a: Bigint, b: Bigint) returns (r: int)
    requires a.Shape() && b.Shape() && a.Trimmed() && b.Trimmed()
    requires a.wds > 0 || b.wds > 0
    ensures a.Value() > 0 || b.Value() > 0 ==>
      (r < 0 <==> a.Value() < b.Value()) && (r > 0 <==> a.Value() > b.Value())
    ensures a.Value() == 0 == b.Value() ==> r == a.wds - b.wds
  {
    hide Val, W;
    ghost var s, t := a.x[..a.wds], b.x[..b.wds];
    r := a.wds - b.wds;
    if r != 0 {
      ShorterIsLess(s, t);
      ShorterIsLess(t, s);
      return;
    }
    var i := a.wds;
    while true
      invariant 0 < i <= a.wds && s[i..] == t[i..]
      decreases i
    {
      i := i - 1;
      if a.x[i] != b.x[i] {
        if a.x[i] < b.x[i] {
          ValLexLess(s, t, i);
          return -1;
        }
        ValLexLess(t, s, i);
        return 1;
      }
      SameFrom(s, t, i);
      if i == 0 {
        break;
      }
    }
    assert s[0..] == s && t[0..] == t;
    return 0;
  }

  lemma SameFrom(s: seq<Limb>, t: seq<Limb>, i: nat)
    requires i < |s| == |t| && s[i] == t[i] && s[i + 1..] == t[i + 1..]
    ensures s[i..] == t[i..]
  {
    assert s[i..] == [s[i]] + s[i + 1..] && t[i..] == [t[i]] + t[i + 1..];
  }

  lemma ShorterIsLess(s: seq<Limb>, t: seq<Limb>)
    requires |t| > 1 ==> t[|t| - 1] != 0
    ensures |s| < |t| && (Val(s) > 0 || Val(t) > 0) ==> Val(s) < Val(t)
  {
    if |s| < |t| {
      if t[|t| - 1] != 0 {
        ValShorter(s, t);
      } else {
        ValZeros(s);
        ValZeros(t);
      }
    }
  }

  /** A difference of 32-bit words, taken in unsigned 64-bit arithmetic. */
  function Wrap64(d: int): (y: nat)
    ensures y < 0x1_0000_0000_0000_0000
  {
    d % 0x1_0000_0000_0000_0000
  }

  /** The borrow is bit 32 of the wrapped difference. */
  function Borrow(y: nat): nat { High(y) % 2 }

  lemma BorrowColumn(d: int)
    requires -0x1_0000_0000 <= d < 0x1_0000_0000
    ensures var y := Wrap64(d);
      d == Low(y) - 0x1_0000_0000 * Borrow(y) && Borrow(y) == (if d < 0 then 1 else 0)
  {
    var y := Wrap64(d);
    if d < 0 {
      assert y == 0x1_0000_0000_0000_0000 + d;
      assert High(y) == 0xffff_ffff;
    }
  }

  /** The limbs of s[i..] - t[i..] - borrow, and the borrow out of the top limb. */
  ghost function Sub(s: seq<Limb>, t: seq<Limb>, i: nat, borrow: nat): (r: Carried)
    requires i <= |s|
    ensures |r.limbs| == |s| - i
    decreases |s| - i
  {
    if i == |s| then Carried([], borrow) else
      var y := Wrap64(s[i] as int - (if i < |t| then t[i] else 0) - borrow);
      var r := Sub(s, t, i + 1, Borrow(y));
      r.(limbs := [Low(y)] + r.limbs)
  }

  lemma {:induction false} SubValue(s: seq<Limb>, t: seq<Limb>, i: nat, borrow: nat)
    requires |t| <= |s| && i <= |s| && borrow <= 1
    ensures var r := Sub(s, t, i, borrow);
      r.carry <= 1
      && Val(r.limbs) == Val(s[i..]) - (if i < |t| then Val(t[i..]) else 0) - borrow
                         + if r.carry == 1 then W(|s| - i) else 0
    decreases |s| - i
  {
    hide Wrap64, Borrow, Low, High, Val;
    if i == |s| {
      assert s[i..] == [];
      ValZeros([]);
      assert W(0) == 1;
    } else {
      var d := s[i] as int - (if i < |t| then t[i] else 0) - borrow;
      var y := Wrap64(d);
      BorrowColumn(d);
      SubValue(s, t, i + 1, Borrow(y));
      ValCons(Low(y), Sub(s, t, i + 1, Borrow(y)).limbs);
      ValDrop(s, i);
      if i < |t| {
        ValDrop(t, i);
        if i + 1 == |t| {
          assert t[i + 1..] == [];
          ValZeros([]);
        }
      }
    }
  }

  lemma SubNoBorrow(s: seq<Limb>, t: seq<Limb>)
    requires |t| <= |s| && Val(t) <= Val(s)
    ensures Val(Sub(s, t, 0, 0).limbs) == Val(s) - Val(t)
  {
    SubValue(s, t, 0, 0);
    assert s[0..] == s && t[0..] == t;
    ValBound(Sub(s, t, 0, 0).limbs);
  }

  /** c := a - b over the limbs of b; the loop tests at its end. */
  method SubtractLow(c: array<Limb>, a: array<Limb>, b: array<Limb>, wb: nat, ghost s: seq<Limb>, ghost t: seq<Limb>)
    returns (borrow: nat)
    requires c != a && c != b && |s| <= a.Length && |s| <= c.Length && wb <= b.Length && 0 < b.Length
    requires s == a[..|s|] && t == b[..if wb == 0 then 1 else wb] && |t| <= |s|
    modifies c
    ensures borrow <= 1 && c[..|t|] == Sub(s, t, 0, 0).limbs[..|t|]
    ensures Sub(s, t, 0, 0).limbs[|t|..] == Sub(s, t, |t|, borrow).limbs
  {
    hide Wrap64, Borrow, Low, High;
    ghost var goal := Sub(s, t, 0, 0).limbs;
    borrow := 0;
    var i := 0;
    while i == 0 || i < wb
      invariant 0 <= i <= |t| && borrow <= 1
      invariant forall j :: 0 <= j < i ==> c[j] == goal[j]
      invariant goal[i..] == Sub(s, t, i, borrow).limbs
      decreases |t| - i
    {
      BorrowColumn(a[i] as int - b[i] - borrow);
      var y := Wrap64(a[i] as int - b[i] - borrow);
      borrow, c[i] := Borrow(y), Low(y);
      assert goal[i + 1..] == goal[i..][1..];
      i := i + 1;
    }
  }

  /** c := a - borrow over the limbs of a from i on. */
  method SubtractHigh(c: array<Limb>, a: array<Limb>, wa: nat, i0: nat, borrow0: nat,
                      ghost s: seq<Limb>, ghost t: seq<Limb>)
    requires c != a && i0 <= wa <= a.Length && wa <= c.Length && borrow0 <= 1
    requires s == a[..wa] && |t| <= i0
    modifies c
    ensures c[..i0] == old(c[..i0]) && c[i0..wa] == Sub(s, t, i0, borrow0).limbs
  {
    hide Wrap64, Borrow, Low, High;
    ghost var goal := Sub(s, t, i0, borrow0).limbs;
    var borrow, i := borrow0, i0;
    while i < wa
      invariant i0 <= i <= wa && borrow <= 1 && c[..i0] == old(c[..i0])
      invariant forall j :: i0 <= j < i ==> c[j] == goal[j - i0]
      invariant goal[i - i0..] == Sub(s, t, i, borrow).limbs
    {
      BorrowColumn(a[i] as int - borrow);
      var y := Wrap64(a[i] as int - borrow);
      borrow, c[i] := Borrow(y), Low(y);
      assert goal[i + 1 - i0..] == goal[i - i0..][1..];
      i := i + 1;
    }
  }

  /** The number of limbs left when leading zeros are dropped from a nonzero number. */
  method TopLimb(x: array<Limb>, n: nat) returns (m: nat)
    requires n <= x.Length && Val(x[..n]) > 0
    ensures 0 < m <= n && x[m - 1] != 0 && Val(x[..m]) == Val(x[..n])
  {
    ValZeros(x[..n]);
    m := n;
    while x[m - 1] == 0
      invariant 0 < m <= n && exists j :: 0 <= j < m && x[j] != 0
      invariant forall j :: m <= j < n ==> x[j] == 0
      decreases m
    {
      m := m - 1;
    }
    ValTrim(x[..n], m);
    assert x[..n][..m] == x[..m];
  }

  /** a - b for the larger a. */
  method Subtract(a: Bigint, b: Bigint) returns (c: Bigint)
    requires a.Shape() && a.Trimmed() && b.Valid() && b.wds <= a.wds && a.Value() > b.Value()
    ensures fresh(c) && fresh(c.x)
    ensures c.Shape() && c.Trimmed() && c.wds > 0 && c.sign == 0
    ensures c.Value() == a.Value() - b.Value()
  {
    hide Sub, Val, W, Power;
    c := new Bigint.Balloc(a.k);
    ghost var s, t := a.x[..a.wds], b.x[..if b.wds == 0 then 1 else b.wds];
    if b.wds == 0 {
      ValZeros(t);
      ValZeros(b.x[..0]);
    }
    SubNoBorrow(s, t);
    var borrow := SubtractLow(c.x, a.x, b.x, b.wds, s, t);
    SubtractHigh(c.x, a.x, a.wds, if b.wds == 0 then 1 else b.wds, borrow, s, t);
    assert c.x[..a.wds] == c.x[..|t|] + c.x[|t|..a.wds] == Sub(s, t, 0, 0).limbs;
    c.wds := TopLimb(c.x, a.wds);
  }

  /** The difference of a and b, with its sign. Two zeros must be kept alike, in one limb. */
  method Diff(a: Bigint, b: Bigint) returns (c: Bigint)
    requires a.Valid() && b.Valid() && a.Trimmed() && b.Trimmed()
    requires a.Value() == 0 == b.Value() ==> a.wds == b.wds == 1
    ensures fresh(c) && fresh(c.x)
    ensures c.Valid() && c.Trimmed() && c.wds > 0
    ensures c.sign == if a.Value() < b.Value() then 1 else 0
    ensures c.Value() == if a.Value() < b.Value() then b.Value() - a.Value() else a.Value() - b.Value()
  {
    hide Power;
    ghost var s, t := a.x[..a.wds], b.x[..b.wds];
    var i := Cmp(a, b);
    if i == 0 {
      c := new Bigint.Balloc(0);
      c.wds := 1;
      c.x[0] := 0;
      ValZeros(c.x[..1]);
    } else if i < 0 {
      ShorterIsLess(t, s);
      c := Subtract(b, a);
      c.sign := 1;
    } else {
      ShorterIsLess(s, t);
      c := Subtract(a, b);
    }
  }
}
