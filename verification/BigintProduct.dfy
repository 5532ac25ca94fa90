/** Products of big integers, and multiplication by powers of five (dtoa.c: mult, pow5mult). */
module BigintProduct {
  import opened Limbs
  import opened Bigints

  /** One column of a product row: digit times multiplier, plus what is there, plus the carry. */
  function RowColumn(d: Limb, y: Limb, w: Limb, carry: Limb): nat { d * y + w + carry }

  lemma RowColumnFits(d: Limb, y: Limb, w: Limb, carry: Limb)
    ensures RowColumn(d, y, w, carry) < 0x1_0000_0000_0000_0000
    ensures High(RowColumn(d, y, w, carry)) < 0x1_0000_0000
  {
    Scale(d, 0xffff_ffff, y);
    HighBelow(RowColumn(d, y, w, carry), 0x1_0000_0000);
  }

  /** The limbs of w[i..] + s[i..] * y + carry, one more than s[i..] has. */
  ghost function Row(w: seq<Limb>, s: seq<Limb>, y: Limb, i: nat, carry: Limb): (r: seq<Limb>)
    requires i <= |s| == |w|
    ensures |r| == |s| - i + 1
    decreases |s| - i
  {
    if i == |s| then [carry] else
      RowColumnFits(s[i], y, w[i], carry);
      var z := RowColumn(s[i], y, w[i], carry);
      [Low(z)] + Row(w, s, y, i + 1, High(z))
  }

  lemma {:induction false} RowValue(w: seq<Limb>, s: seq<Limb>, y: Limb, i: nat, carry: Limb)
    requires i <= |s| == |w|
    ensures Val(Row(w, s, y, i, carry)) == Val(w[i..]) + Val(s[i..]) * y + carry
    decreases |s| - i
  {
    hide Val;
    if i == |s| {
      ValSingle(carry);
      ValZeros(s[i..]);
      ValZeros(w[i..]);
    } else {
      RowColumnFits(s[i], y, w[i], carry);
      var z := RowColumn(s[i], y, w[i], carry);
      var rest := Row(w, s, y, i + 1, High(z));
      RowValue(w, s, y, i + 1, High(z));
      ValCons(Low(z), rest);
      ValDrop(w, i);
      ValDrop(s, i);
      RowStep(s[i], y, w[i], carry, z, Val(w[i + 1..]), Val(s[i + 1..]), Val(rest));
    }
  }

  lemma RowStep(d: nat, y: nat, w: nat, carry: nat, z: nat, wTail: nat, sTail: nat, rest: nat)
    requires z == d * y + w + carry
    requires rest == wTail + sTail * y + High(z)
    ensures Low(z) + 0x1_0000_0000 * rest
         == (w + 0x1_0000_0000 * wTail) + (d + 0x1_0000_0000 * sTail) * y + carry
  {
    Distribute(y, d, 0x1_0000_0000 * sTail);
    Associate(0x1_0000_0000, sTail, y);
  }

  /** c[j..] gains x[..wa] * y; the loop tests at its end. The limb above the row was zero. */
  method AddRow(c: array<Limb>, j: nat, x: array<Limb>, wa: nat, y: Limb)
    requires c != x && 0 < wa <= x.Length && j + wa < c.Length
    modifies c
    ensures c[..j] == old(c[..j]) && forall t :: j + wa < t < c.Length ==> c[t] == old(c[t])
    ensures c[j..j + wa + 1] == Row(old(c[j..j + wa]), x[..wa], y, 0, 0)
  {
    hide RowColumn, Low, High;
    ghost var s, w, before := x[..wa], c[j..j + wa], c[..];
    ghost var goal := Row(w, s, y, 0, 0);
    var carry: Limb, i := 0, 0;
    while true
      invariant 0 <= i < wa
      invariant forall t :: 0 <= t < c.Length && !(j <= t < j + i) ==> c[t] == before[t]
      invariant forall t :: 0 <= t < i ==> c[j + t] == goal[t]
      invariant goal[i..] == Row(w, s, y, i, carry)
      decreases wa - i
    {
      RowColumnFits(x[i], y, c[j + i], carry);
      var z := RowColumn(x[i], y, c[j + i], carry);
      assert c[j + i] == w[i];
      carry, c[j + i] := High(z), Low(z);
      assert goal[i + 1..] == goal[i..][1..];
      i := i + 1;
      if i >= wa {
        break;
      }
    }
    c[j + wa] := carry;
    assert goal[wa..] == [carry];
  }

  /** The product of a and b, trimmed; zero is left in no limbs. The size class of the result is
      that of the longer operand or the next. */
  method Mult(a0: Bigint, b0: Bigint) returns (c: Bigint)
    requires a0.Shape() && b0.Shape()
    ensures fresh(c) && fresh(c.x) && c.Shape() && c.sign == 0
    ensures c.Value() == a0.Value() * b0.Value()
    ensures c.wds > 0 ==> c.x[c.wds - 1] != 0
    ensures a0.wds > 0 || b0.wds > 0 ==> c.Valid()
  {
    hide Val, W;
    var a, b := a0, b0;
    if a.wds < b.wds {
      a, b := b, a;
    }
    assert a.Value() * b.Value() == a0.Value() * b0.Value();
    var k, wc := a.k, a.wds + b.wds;
    if wc > a.x.Length {
      k := k + 1;
    }
    c := new Bigint.Balloc(k);
    MultLimbs(c.x, a.x, a.wds, b.x, b.wds);
    wc := DropLeadingZeros(c.x, wc);
    c.wds := wc;
  }

  /** c := a * b by rows, c having room for both. */
  method MultLimbs(c: array<Limb>, a: array<Limb>, wa: nat, b: array<Limb>, wb: nat)
    requires c != a && c != b && wb <= wa <= a.Length && wb <= b.Length && wa + wb <= c.Length
    modifies c
    ensures Val(c[..wa + wb]) == Val(a[..wa]) * Val(b[..wb])
  {
    hide Val, W;
    var j := 0;
    while j < wa + wb
      invariant 0 <= j <= wa + wb && forall t :: 0 <= t < j ==> c[t] == 0
    {
      c[j] := 0;
      j := j + 1;
    }
    ValZeros(c[..wa]);
    ValZeros(b[..0]);
    j := 0;
    while j < wb
      invariant 0 <= j <= wb
      invariant forall t :: wa + j <= t < wa + wb ==> c[t] == 0
      invariant Val(c[..wa + j]) == Val(a[..wa]) * Val(b[..j])
    {
      var y := b[j];
      ghost var before, low, w := c[..wa + j], c[..j], c[j..j + wa];
      assert before[..j] == low && before[j..] == w;
      if y != 0 {
        AddRow(c, j, a, wa, y);
        assert c[..wa + j + 1] == c[..j] + c[j..j + wa + 1];
      } else {
        assert c[..wa + j + 1] == before + [0];
      }
      assert b[..wb][..j] == b[..j] && b[..wb][..j + 1] == b[..j + 1];
      RowsValue(before, a[..wa], b[..wb], j, c[..wa + j + 1]);
      j := j + 1;
    }
  }

  /** One more row takes the product over one more limb of b. */
  lemma RowsValue(before: seq<Limb>, s: seq<Limb>, b: seq<Limb>, j: nat, after: seq<Limb>)
    requires j < |b| && |before| == |s| + j
    requires Val(before) == Val(s) * Val(b[..j])
    requires after == if b[j] == 0 then before + [0] else before[..j] + Row(before[j..], s, b[j], 0, 0)
    ensures Val(after) == Val(s) * Val(b[..j + 1])
  {
    hide Val, W, Row;
    assert b[..j + 1] == b[..j] + [b[j]];
    ValAppend(b[..j], b[j]);
    if b[j] == 0 {
      ValAppend(before, 0);
      assert Val(after) == Val(before) && Val(b[..j + 1]) == Val(b[..j]);
    } else {
      assert before == before[..j] + before[j..];
      RowCase(before[..j], before[j..], s, b[j], Val(b[..j]), Val(b[..j + 1]));
    }
  }

  lemma RowCase(low: seq<Limb>, w: seq<Limb>, s: seq<Limb>, y: Limb, b: int, b': int)
    requires |w| == |s| && Val(low + w) == Val(s) * b && b' == b + W(|low|) * y
    ensures Val(low + Row(w, s, y, 0, 0)) == Val(s) * b'
  {
    hide Val, W, Row;
    assert w[0..] == w && s[0..] == s;
    ValConcat(low, w);
    ValConcat(low, Row(w, s, y, 0, 0));
    RowValue(w, s, y, 0, 0);
    RowsStep(Val(low), Val(w), W(|low|), Val(s), b, y, Val(Row(w, s, y, 0, 0)));
  }

  lemma RowsStep(low: int, w: int, wj: int, s: int, b: int, y: int, row: int)
    requires low + wj * w == s * b && row == w + s * y + 0
    ensures low + wj * row == s * (b + wj * y)
  {
    Distribute(wj, w, s * y);
    Distribute(s, b, wj * y);
    Associate(wj, s, y);
    Associate(s, wj, y);
  }

  method DropLeadingZeros(x: array<Limb>, n: nat) returns (m: nat)
    requires n <= x.Length
    ensures m <= n && Val(x[..m]) == Val(x[..n])
    ensures m > 0 ==> x[m - 1] != 0
    ensures forall i :: m <= i < n ==> x[i] == 0
  {
    m := n;
    while m > 0 && x[m - 1] == 0
      invariant 0 <= m <= n && forall i :: m <= i < n ==> x[i] == 0
    {
      m := m - 1;
    }
    ValTrim(x[..n], m);
    assert x[..n][..m] == x[..m];
  }

  /** Entry i of the list of cached powers: five to the 4 * 2^i. */
  function FourthPower(i: nat): (p: nat)
    ensures p > 0
  {
    Power(5, 4 * Power(2, i))
  }

  lemma FourthPowerSquares(i: nat)
    ensures FourthPower(0) == 625
    ensures FourthPower(i + 1) == FourthPower(i) * FourthPower(i)
  {
    assert Power(2, 0) == 1 && Power(5, 2) == 25 by { PowerZero(2); }
    PowerAdd(5, 2, 2);
    PowerAdd(5, 4 * Power(2, i), 4 * Power(2, i));
  }

  /** What the binary expansion of k contributes from bit position i on. */
  function FivesFrom(i: nat, k: nat): nat { Power(5, 4 * (Power(2, i) * k)) }

  lemma FivesSplit(i: nat, k: nat)
    ensures FivesFrom(i, k) == (if k % 2 == 1 then FourthPower(i) else 1) * FivesFrom(i + 1, k / 2)
    ensures FivesFrom(i, 0) == 1
  {
    var t, h := Power(2, i), k / 2;
    PowerZero(5);
    assert t * k == t * (k % 2) + (2 * t) * h by {
      Distribute(t, k % 2, 2 * h);
      Associate(t, 2, h);
    }
    PowerAdd(5, 4 * (t * (k % 2)), 4 * ((2 * t) * h));
    assert k % 2 == 1 ==> t * (k % 2) == t;
    assert k % 2 == 0 ==> t * (k % 2) == 0;
  }

  /** The shared list p5s of powers of five, extended on demand and never rewritten. */
  lemma PowersOfFive()
    ensures Power(5, 0) == 1 && Power(5, 1) == 5 && Power(5, 2) == 25 && Power(5, 3) == 125
  {
    assert Power(5, 1) == 5 * Power(5, 0);
    assert Power(5, 2) == 5 * Power(5, 1);
    assert Power(5, 3) == 5 * Power(5, 2);
  }

  class FiveCache {
    var p5s: seq<Bigint>

    ghost predicate Valid()
      reads this, p5s, set i | 0 <= i < |p5s| :: p5s[i].x
    {
      forall i :: 0 <= i < |p5s| ==> p5s[i].Valid() && p5s[i].Value() == FourthPower(i)
    }

    constructor ()
      ensures Valid() && p5s == []
    {
      p5s := [];
    }

    /** Makes entry n there: when it is not yet known it is 625, or the square of the one before. */
    method Extend(n: nat)
      requires Valid() && n <= |p5s|
      modifies this
      ensures Valid() && n < |p5s| && old(p5s) <= p5s
      ensures forall i :: |old(p5s)| <= i < |p5s| ==> fresh(p5s[i]) && fresh(p5s[i].x)
    {
      if n < |p5s| {
        return;
      }
      FourthPowerSquares(if n == 0 then 0 else n - 1);
      var p: Bigint;
      if n == 0 {
        p := FromInt(625);
      } else {
        p := Mult(p5s[n - 1], p5s[n - 1]);
        assert p.Value() > 0;
      }
      p5s := p5s + [p];
    }

    /** No entry shares storage with b. */
    ghost predicate Apart(b: Bigint)
      reads this
    {
      forall i :: 0 <= i < |p5s| ==> p5s[i] != b && p5s[i].x != b.x
    }

    /** b times five to the k, by the binary digits of k. */
    method Pow5Mult(b: Bigint, k: nat) returns (r: Bigint)
      requires Valid() && b.Valid() && Apart(b)
      modifies this, b, b.x
      ensures Valid() && old(p5s) <= p5s
      ensures forall i :: |old(p5s)| <= i < |p5s| ==> fresh(p5s[i]) && fresh(p5s[i].x)
      ensures Apart(r) && (r == b || (fresh(r) && fresh(r.x)))
      ensures r.Valid() && r.Value() == old(b.Value()) * Power(5, k)
      ensures old(b.Trimmed()) ==> r.Trimmed()
    {
      hide Power, FivesFrom;
      r := SmallFives(b, k % 4);
      FivesSplit(0, k / 4);
      FivesStart(old(b.Value()), k);
      if k / 4 == 0 {
        return;
      }
      Extend(0);
      r := MultFives(r, k / 4);
    }

    /** b times one, 5, 25 or 125. */
    method SmallFives(b: Bigint, j: nat) returns (r: Bigint)
      requires b.Valid() && j < 4
      modifies b, b.x
      ensures r == b || (fresh(r) && fresh(r.x))
      ensures r.Valid() && r.Value() == old(b.Value()) * Power(5, j)
      ensures old(b.Trimmed()) ==> r.Trimmed()
    {
      r := b;
      PowersOfFive();
      if j == 0 {
        assert old(b.Value()) * 1 == old(b.Value());
      } else {
        hide Power;
        if b.wds == 0 { ValZeros(b.x[..0]); }
        r := MultAdd(b, [5, 25, 125][j - 1], 0);
      }
    }

    /** The loop over the binary digits of k, the list having its first entry. */
    method MultFives(b: Bigint, k0: nat) returns (r: Bigint)
      requires Valid() && b.Valid() && Apart(b) && 0 < |p5s| && 0 < k0
      modifies this
      ensures Valid() && old(p5s) <= p5s
      ensures forall i :: |old(p5s)| <= i < |p5s| ==> fresh(p5s[i]) && fresh(p5s[i].x)
      ensures Apart(r) && (r == b || (fresh(r) && fresh(r.x)))
      ensures r.Valid() && r.Value() == old(b.Value()) * FivesFrom(0, k0)
      ensures old(b.Trimmed()) ==> r.Trimmed()
    {
      hide FivesFrom, FourthPower, Power;
      ghost var v := b.Value();
      r := b;
      var i, k := 0, k0;
      while true
        invariant 0 <= i < |p5s| && 0 < k
        invariant Valid() && old(p5s) <= p5s
        invariant forall i :: |old(p5s)| <= i < |p5s| ==> fresh(p5s[i]) && fresh(p5s[i].x)
        invariant Apart(r) && (r == b || (fresh(r) && fresh(r.x)))
        invariant r.Valid() && (old(b.Trimmed()) ==> r.Trimmed())
        invariant r.Value() * FivesFrom(i, k) == v * FivesFrom(0, k0)
        decreases k
      {
        r := MultIfOdd(r, p5s[i], i, k);
        k := k / 2;
        if k == 0 {
          break;
        }
        Extend(i + 1);
        i := i + 1;
      }
    }
  }

  /** Multiplies entry i of the list in when the low bit of k is set. */
  method MultIfOdd(r: Bigint, p: Bigint, ghost i: nat, k: nat) returns (c: Bigint)
    requires r.Valid() && p.Valid() && p.Value() == FourthPower(i)
    ensures c == r || (fresh(c) && fresh(c.x))
    ensures c.Valid() && (r.Trimmed() ==> c.Trimmed())
    ensures c.Value() * FivesFrom(i + 1, k / 2) == r.Value() * FivesFrom(i, k)
    ensures FivesFrom(i + 1, 0) == 1
  {
    hide FivesFrom, FourthPower;
    FivesSplit(i, k);
    FivesSplit(i + 1, 0);
    c := r;
    if k % 2 == 1 {
      if p.wds == 0 { ValZeros(p.x[..0]); }
      c := Mult(r, p);
      Associate(r.Value(), p.Value(), FivesFrom(i + 1, k / 2));
    }
  }

  lemma FivesStart(v: nat, k: nat)
    ensures (v * Power(5, k % 4)) * FivesFrom(0, k / 4) == v * Power(5, k)
  {
    var d, e := k % 4, 4 * (k / 4);
    PowerZero(2);
    PowerAdd(5, d, e);
    Associate(v, Power(5, d), Power(5, e));
  }

  /** A small number in an object of size class 1 (i2b). */
  method FromInt(i: Limb) returns (b: Bigint)
    ensures fresh(b) && fresh(b.x) && b.Valid() && b.Trimmed() && b.wds == 1 && b.k == 1 && b.sign == 0
    ensures b.Value() == i
  {
    b := new Bigint.Balloc(1);
    b.x[0] := i;
    b.wds := 1;
    assert b.x[..1] == [i];
    ValSingle(i);
  }
}
