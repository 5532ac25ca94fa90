/** Scanning decimal text (dtoa.c: the decimal scan of fpconv_strtod, and s2b). */
module DecimalScan {
  import opened Limbs
  import opened Bigints
  import opened Decimal

  /** The character at i; past the end stands the terminator. */
  function At(t: string, i: nat): char { if i < |t| then t[i] else '\0' }

  predicate IsDigit(c: char) { '0' <= c <= '9' }

  function Dig(c: char): Digit
    requires IsDigit(c)
  {
    c as int - '0' as int
  }

  /** Which characters are digits, and which digit each of them is. */
  lemma DigitIs(c: char)
    ensures IsDigit(c) <==> c in "0123456789"
    ensures IsDigit(c) ==> "0123456789"[Dig(c)] == c
    ensures forall d: Digit :: IsDigit("0123456789"[d]) && Dig("0123456789"[d]) == d
  {}

  // ----- The grammar of numbers, as a reference -----

  /** Where the run of digits from i on ends. */
  function Run(t: string, i: nat): (j: nat)
    ensures i <= j && !IsDigit(At(t, j))
    ensures forall n :: i <= n < j ==> IsDigit(At(t, n))
    decreases |t| - i
  {
    if i < |t| && IsDigit(t[i]) then Run(t, i + 1) else i
  }

  lemma {:induction false} RunUnique(t: string, i: nat, j: nat)
    requires i <= j && !IsDigit(At(t, j)) && forall n :: i <= n < j ==> IsDigit(At(t, n))
    ensures j == Run(t, i)
    decreases j - i
  {
    if i < j {
      assert IsDigit(At(t, i));
      RunUnique(t, i + 1, j);
    }
  }

  function DigitsIn(t: string, i: nat, j: nat): (s: seq<Digit>)
    requires i <= j && forall n :: i <= n < j ==> IsDigit(At(t, n))
    ensures |s| == j - i && forall n :: 0 <= n < j - i ==> s[n] == Dig(At(t, i + n))
    decreases j - i
  {
    if i == j then [] else DigitsIn(t, i, j - 1) + [Dig(At(t, j - 1))]
  }

  /** Digits, optionally a point and digits, optionally an exponent. */
  datatype Literal = NotANumber | Literal(ip: seq<Digit>, fp: seq<Digit>, ex: int, end: nat)

  function Parse(t: string, p: nat): Literal {
    var q := Run(t, p);
    var f := if At(t, q) == '.' then q + 1 else q;
    var r := if At(t, q) == '.' then Run(t, f) else q;
    if q == p && r == f then NotANumber
    else
      var x := ParseExponent(t, r);
      Literal(DigitsIn(t, p, q), DigitsIn(t, f, r), x.0, x.1)
  }

  /** The exponent at r and where it ends; a letter without digits after it is no exponent. */
  function ParseExponent(t: string, r: nat): (int, nat) {
    if At(t, r) in "eE" then
      var a := if At(t, r + 1) in "+-" then r + 2 else r + 1;
      var b := Run(t, a);
      if a == b then (0, r)
      else
        var n: int := DigitsValue(DigitsIn(t, a, b));
        (if At(t, r + 1) == '-' then -n else n, b)
    else (0, r)
  }

  // ----- What the scanner keeps -----

  /** Digits counted so far, the first nine of them in y and the next seven in z. */
  datatype Acc = Acc(nd: nat, y: nat, z: nat)

  function Push(a: Acc, d: Digit): Acc {
    Acc(a.nd + 1, if a.nd < 9 then 10 * a.y + d else a.y, if 9 <= a.nd < 16 then 10 * a.z + d else a.z)
  }

  function Min(a: nat, b: nat): nat { if a < b then a else b }

  ghost predicate Holds(a: Acc, s: seq<Digit>) {
    && a.nd == |s|
    && a.y == DigitsValue(s[..Min(9, |s|)])
    && a.z == DigitsValue(s[Min(9, |s|)..Min(16, |s|)])
  }

  lemma PushHolds(a: Acc, s: seq<Digit>, d: Digit)
    requires Holds(a, s)
    ensures Holds(Push(a, d), s + [d])
  {
    hide DigitsValue;
    var t := s + [d];
    if |s| < 9 {
      assert t[..Min(9, |t|)] == s[..Min(9, |s|)] + [d];
      DigitsAppend(s[..Min(9, |s|)], d);
      assert t[Min(9, |t|)..Min(16, |t|)] == s[Min(9, |s|)..Min(16, |s|)];
    } else {
      assert t[..9] == s[..9];
      if |s| < 16 {
        assert t[9..Min(16, |t|)] == s[9..Min(16, |s|)] + [d];
        DigitsAppend(s[9..Min(16, |s|)], d);
      } else {
        assert t[9..16] == s[9..16];
      }
    }
  }

  /** What the scan of a nonzero number leaves: its significant digits start at s0, nd0 of them
      stand before the point, dplen characters are to be skipped there. */
  datatype Scanned =
    | NoNumber
    | Hex
    | Zero(end: nat)
    | Number(s0: nat, nd0: nat, acc: Acc, dplen: nat, e: int, end: nat)

  /** Where significant digit i stands. */
  function Place(s0: nat, nd0: nat, dplen: nat, i: nat): nat {
    s0 + i + if i < nd0 then 0 else dplen
  }

  ghost predicate Spells(c: char, d: Digit) { IsDigit(c) && Dig(c) == d }

  ghost predicate Stands(t: string, s0: nat, nd0: nat, dplen: nat, s: seq<Digit>) {
    forall i :: 0 <= i < |s| ==>
      Spells(At(t, Place(s0, nd0, dplen, i)), s[i])
  }

  /** Exponents beyond 19999 are held at 19999. */
  function Clamp(x: int): int { if x > 19999 then 19999 else if x < -19999 then -19999 else x }

  // ----- The scanner -----

  /** Leading zeros, then digits: their value and how many digits follow the zeros. */
  method ScanDigits(t: string, a: nat) returns (L: nat, n: nat, s: nat)
    ensures s == Run(t, a) && L == DigitsValue(DigitsIn(t, a, s))
    ensures n > 0 ==> Power(10, n - 1) <= L
  {
    hide DigitsIn, DigitsValue, Power;
    s := a;
    while At(t, s) == '0'
      invariant a <= s && (forall n :: a <= n < s ==> At(t, n) == '0')
      decreases |t| - s
    {
      s := s + 1;
    }
    ZerosValue(t, a, s);
    var s1 := s;
    L, n := 0, 0;
    while IsDigit(At(t, s))
      invariant n == s - s1 >= 0 && (forall n :: a <= n < s ==> IsDigit(At(t, n)))
      invariant L == DigitsValue(DigitsIn(t, a, s)) && (n > 0 ==> Power(10, n - 1) <= L)
      decreases |t| - s
    {
      NextValue(t, a, s);
      NextLeads(L, n, Dig(At(t, s)));
      L := 10 * L + Dig(At(t, s));
      s, n := s + 1, n + 1;
    }
    RunUnique(t, a, s);
  }

  lemma NextValue(t: string, a: nat, s: nat)
    requires a <= s && forall n :: a <= n <= s ==> IsDigit(At(t, n))
    ensures DigitsIn(t, a, s + 1) == DigitsIn(t, a, s) + [Dig(At(t, s))]
    ensures DigitsValue(DigitsIn(t, a, s + 1)) == 10 * DigitsValue(DigitsIn(t, a, s)) + Dig(At(t, s))
  {
    DigitsAppend(DigitsIn(t, a, s), Dig(At(t, s)));
  }

  lemma NextLeads(L: nat, n: nat, d: Digit)
    requires if n > 0 then Power(10, n - 1) <= L else d > 0
    ensures Power(10, n) <= 10 * L + d
  {
    PowerZero(10);
  }

  /** The exponent part: a letter, a sign, leading zeros, then digits. */
  method ScanExponent(t: string, r: nat) returns (e: int, end: nat)
    ensures (e, end) == (Clamp(ParseExponent(t, r).0), ParseExponent(t, r).1)
    ensures -19999 <= e <= 19999 && (-19999 <= ParseExponent(t, r).0 <= 19999 ==> e == ParseExponent(t, r).0)
  {
    hide DigitsIn, DigitsValue;
    if At(t, r) !in "eE" {
      return 0, r;
    }
    var s := r + 1;
    var esign := false;
    if At(t, s) in "+-" {
      esign := At(t, s) == '-';
      s := s + 1;
    }
    if !IsDigit(At(t, s)) {
      RunUnique(t, s, s);
      return 0, r;
    }
    var L, n;
    L, n, end := ScanDigits(t, s);
    NineDigits(n, L);
    e := if n > 8 || L > 19999 then 19999 else L;
    e := if esign then -e else e;
  }

  lemma NineDigits(n: nat, L: nat)
    requires n > 0 ==> Power(10, n - 1) <= L
    ensures n > 8 ==> L > 19999
  {
    if n > 8 {
      PowerMonotone(10, 8, n - 1);
      assert Power(10, 4) == 10000;
      PowerAdd(10, 4, 4);
    }
  }

  lemma {:induction false} ZerosValue(t: string, i: nat, j: nat)
    requires i <= j && forall n :: i <= n < j ==> At(t, n) == '0'
    ensures DigitsValue(DigitsIn(t, i, j)) == 0
  {
    DigitsZeros(DigitsIn(t, i, j));
  }

  lemma {:induction false} DigitsInSplit(t: string, i: nat, j: nat, k: nat)
    requires i <= j <= k && forall n :: i <= n < k ==> IsDigit(At(t, n))
    ensures DigitsIn(t, i, k) == DigitsIn(t, i, j) + DigitsIn(t, j, k)
    decreases k - j
  {
    if j < k {
      DigitsInSplit(t, i, j, k - 1);
    }
  }

  /** The digits before the point, leading zeros already skipped. */
  method ScanInteger(t: string, s0: nat) returns (s: nat, acc: Acc)
    ensures s == Run(t, s0) && Holds(acc, DigitsIn(t, s0, s))
  {
    hide Holds;
    s, acc := s0, Acc(0, 0, 0);
    EmptyHolds();
    while IsDigit(At(t, s))
      invariant s0 <= s && (forall n :: s0 <= n < s ==> IsDigit(At(t, n)))
      invariant Holds(acc, DigitsIn(t, s0, s))
      decreases |t| - s
    {
      PushHolds(acc, DigitsIn(t, s0, s), Dig(At(t, s)));
      acc := Push(acc, Dig(At(t, s)));
      s := s + 1;
    }
    RunUnique(t, s0, s);
  }

  lemma EmptyHolds()
    ensures Holds(Acc(0, 0, 0), [])
  {}

  /** The digits after the point from f on, appended to the ones in base. Zeros are held back until
      a later digit makes them count; nz of them are left over at the end. */
  method ScanFraction(t: string, f: nat, acc0: Acc, ghost base: seq<Digit>) returns (s: nat, acc: Acc, nz: nat)
    requires Holds(acc0, base)
    ensures s == Run(t, f) && nz <= s - f
    ensures Holds(acc, base + DigitsIn(t, f, s - nz))
    ensures forall n :: s - nz <= n < s ==> At(t, n) == '0'
    ensures f < s && At(t, f) != '0' ==> f < s - nz
  {
    hide Holds, DigitsIn;
    s, acc, nz := f, acc0, 0;
    assert base + DigitsIn(t, f, f) == base by { EmptyDigits(t, f); }
    while IsDigit(At(t, s))
      invariant f <= s - nz <= s && (forall n :: f <= n < s ==> IsDigit(At(t, n)))
      invariant forall n :: s - nz <= n < s ==> At(t, n) == '0'
      invariant Holds(acc, base + DigitsIn(t, f, s - nz))
      invariant f < s && At(t, f) != '0' ==> f < s - nz
      decreases |t| - s
    {
      nz := nz + 1;
      if At(t, s) != '0' {
        acc := PushHeld(t, f, s, acc, nz, base);
        nz := 0;
      }
      s := s + 1;
    }
    RunUnique(t, f, s);
  }

  lemma EmptyDigits(t: string, f: nat)
    ensures DigitsIn(t, f, f) == []
  {}

  /** The digit at s and the nz - 1 zeros held back before it now count. */
  method PushHeld(t: string, f: nat, s: nat, acc0: Acc, nz: nat, ghost base: seq<Digit>) returns (acc: Acc)
    requires 0 < nz && f <= s + 1 - nz && (forall n :: f <= n <= s ==> IsDigit(At(t, n)))
    requires forall n :: s + 1 - nz <= n < s ==> At(t, n) == '0'
    requires Holds(acc0, base + DigitsIn(t, f, s + 1 - nz))
    ensures Holds(acc, base + DigitsIn(t, f, s + 1))
  {
    hide Holds, DigitsIn;
    acc := acc0;
    var i := 1;
    while i < nz
      invariant 1 <= i <= nz && Holds(acc, base + DigitsIn(t, f, s - nz + i))
    {
      PushNext(t, f, s - nz + i, acc, base);
      acc := Push(acc, 0);
      i := i + 1;
    }
    PushNext(t, f, s, acc, base);
    acc := Push(acc, Dig(At(t, s)));
  }

  lemma PushNext(t: string, f: nat, n: nat, acc: Acc, base: seq<Digit>)
    requires f <= n && (forall m :: f <= m <= n ==> IsDigit(At(t, m)))
    requires Holds(acc, base + DigitsIn(t, f, n))
    ensures Holds(Push(acc, Dig(At(t, n))), base + DigitsIn(t, f, n + 1))
  {
    PushHolds(acc, base + DigitsIn(t, f, n), Dig(At(t, n)));
    assert base + DigitsIn(t, f, n + 1) == (base + DigitsIn(t, f, n)) + [Dig(At(t, n))];
  }

  method SkipZeros(t: string, p: nat) returns (s: nat)
    ensures p <= s && At(t, s) != '0' && forall n :: p <= n < s ==> At(t, n) == '0'
  {
    s := p;
    while At(t, s) == '0'
      invariant p <= s && forall n :: p <= n < s ==> At(t, n) == '0'
      decreases |t| - s
    {
      s := s + 1;
    }
  }

  /** What a scan says about the number at p; digs are its significant digits and tz counts the
      trailing zeros of the fraction, which are left out of them. */
  ghost predicate ScanCorrect(t: string, p: nat, r: Scanned, digs: seq<Digit>, tz: nat) {
    var l := Parse(t, p);
    match r
    case Hex => At(t, p) == '0' && At(t, p + 1) in "xX"
    case NoNumber => l == NotANumber
    case Zero(end) => l.Literal? && l.end == end && DigitsValue(l.ip + l.fp) == 0
    case Number(s0, nd0, acc, dplen, e, end) =>
      && l.Literal? && l.end == end && tz <= |l.fp|
      && digs != [] && digs[0] != 0 && Holds(acc, digs) && nd0 <= acc.nd && nd0 > 0
      && Stands(t, s0, nd0, dplen, digs)
      && DigitsValue(l.ip + l.fp) == DigitsValue(digs) * Power(10, tz)
      && e == Clamp(l.ex) - (|l.fp| - tz)
  }

  /** Dropped zeros before and after the significant digits only scale the number. */
  lemma MantissaValue(t: string, p: nat, s0: nat, q: nat, f: nat, g: nat, m: nat, r: nat)
    requires p <= s0 <= q && f <= g <= m <= r && (s0 == q || f == g)
    requires (forall n :: p <= n < q ==> IsDigit(At(t, n))) && forall n :: f <= n < r ==> IsDigit(At(t, n))
    requires forall n :: p <= n < s0 || f <= n < g || m <= n < r ==> At(t, n) == '0'
    ensures DigitsValue(DigitsIn(t, p, q) + DigitsIn(t, f, r))
         == DigitsValue(DigitsIn(t, s0, q) + DigitsIn(t, g, m)) * Power(10, r - m)
  {
    hide *;
    var z1 := LeadingZeros(t, p, s0, q);
    var z2, z3 := FractionZeros(t, f, g, m, r);
    if s0 == q { EmptyDigits(t, q); } else { EmptyDigits(t, f); }
    PartsValue(z1, DigitsIn(t, s0, q), z2, DigitsIn(t, g, m), z3);
  }

  lemma LeadingZeros(t: string, p: nat, s0: nat, q: nat) returns (z: seq<Digit>)
    requires p <= s0 <= q && forall n :: p <= n < q ==> IsDigit(At(t, n))
    requires forall n :: p <= n < s0 ==> At(t, n) == '0'
    ensures DigitsIn(t, p, q) == z + DigitsIn(t, s0, q) && AllZero(z) && |z| == s0 - p
  {
    hide DigitsIn, AllZero;
    z := DigitsIn(t, p, s0);
    DigitsInSplit(t, p, s0, q);
    ZerosIn(t, p, s0);
  }

  lemma FractionZeros(t: string, f: nat, g: nat, m: nat, r: nat) returns (z: seq<Digit>, trail: seq<Digit>)
    requires f <= g <= m <= r && forall n :: f <= n < r ==> IsDigit(At(t, n))
    requires forall n :: f <= n < g || m <= n < r ==> At(t, n) == '0'
    ensures DigitsIn(t, f, r) == z + (DigitsIn(t, g, m) + trail) && AllZero(z) && AllZero(trail)
    ensures |z| == g - f && |trail| == r - m
  {
    hide DigitsIn, AllZero;
    z := LeadingZeros(t, f, g, r);
    trail := DigitsIn(t, m, r);
    DigitsInSplit(t, g, m, r);
    ZerosIn(t, m, r);
  }

  lemma PartsValue(z1: seq<Digit>, base: seq<Digit>, z2: seq<Digit>, kept: seq<Digit>, z3: seq<Digit>)
    requires AllZero(z1) && AllZero(z2) && AllZero(z3) && (base == [] || z2 == [])
    ensures DigitsValue((z1 + base) + (z2 + (kept + z3))) == DigitsValue(base + kept) * Power(10, |z3|)
  {
    hide DigitsValue, Power, AllZero;
    Regroup(z1, base, z2, kept, z3);
    PaddedValue(z1, z2, base + kept, z3);
  }

  ghost predicate AllZero(s: seq<Digit>) { forall i :: 0 <= i < |s| ==> s[i] == 0 }

  lemma ZerosIn(t: string, i: nat, j: nat)
    requires i <= j && forall n :: i <= n < j ==> At(t, n) == '0'
    ensures AllZero(DigitsIn(t, i, j))
  {}

  lemma Regroup(z1: seq<Digit>, base: seq<Digit>, z2: seq<Digit>, kept: seq<Digit>, z3: seq<Digit>)
    requires base == [] || z2 == []
    ensures (z1 + base) + (z2 + (kept + z3)) == ((z1 + z2) + (base + kept)) + z3
  {}

  lemma PaddedValue(lead: seq<Digit>, lead2: seq<Digit>, s: seq<Digit>, trail: seq<Digit>)
    requires AllZero(lead) && AllZero(lead2) && AllZero(trail)
    ensures DigitsValue(((lead + lead2) + s) + trail) == DigitsValue(s) * Power(10, |trail|)
  {
    hide DigitsValue, Power;
    DigitsConcat((lead + lead2) + s, trail);
    DigitsConcat(lead + lead2, s);
    DigitsZeros(lead + lead2);
    DigitsZeros(trail);
  }

  /** Digits before the point followed by digits after it stand where they were read. */
  lemma StandsHere(t: string, s0: nat, q: nat, f: nat, m: nat, dplen: nat)
    requires s0 <= q && f <= m && (f == q + dplen || f == m)
    requires (forall n :: s0 <= n < q ==> IsDigit(At(t, n))) && forall n :: f <= n < m ==> IsDigit(At(t, n))
    ensures Stands(t, s0, q - s0, dplen, DigitsIn(t, s0, q) + DigitsIn(t, f, m))
  {}

  /** The parts of the literal at p, once their bounds are known. */
  lemma Parsed(t: string, p: nat, q: nat, f: nat, r: nat)
    requires q == Run(t, p)
    requires if At(t, q) == '.' then f == q + 1 && r == Run(t, f) else f == r == q
    requires p < q || f < r
    ensures Parse(t, p) == Literal(DigitsIn(t, p, q), DigitsIn(t, f, r), ParseExponent(t, r).0, ParseExponent(t, r).1)
  {}

  lemma RunThrough(t: string, p: nat, s0: nat, s: nat)
    requires p <= s0 && s == Run(t, s0) && forall n :: p <= n < s0 ==> At(t, n) == '0'
    ensures s == Run(t, p)
  {
    RunUnique(t, p, s);
  }

  /** Digits before the point: the fraction follows on. */
  method ScanWithInteger(t: string, p: nat, s0: nat, s: nat, acc0: Acc)
    returns (r: Scanned, ghost digs: seq<Digit>, ghost tz: nat)
    requires p <= s0 < s == Run(t, s0) && Holds(acc0, DigitsIn(t, s0, s)) && At(t, s0) != '0'
    requires forall n :: p <= n < s0 ==> At(t, n) == '0'
    ensures ScanCorrect(t, p, r, digs, tz)
  {
    hide DigitsIn, DigitsValue, Power, Holds, Run, ParseExponent, Parse;
    RunThrough(t, p, s0, s);
    ghost var base := DigitsIn(t, s0, s);
    var f, dplen, acc, nz, s2 := s, 0, acc0, 0, s;
    EmptyDigits(t, s);
    assert base + [] == base;
    if At(t, s) == '.' {
      f, dplen := s + 1, 1;
      s2, acc, nz := ScanFraction(t, f, acc0, base);
    }
    var e, end := ScanExponent(t, s2);
    digs, tz := base + DigitsIn(t, f, s2 - nz), nz;
    Parsed(t, p, s, f, s2);
    MantissaValue(t, p, s0, s, f, f, s2 - nz, s2);
    HoldsCount(acc0, base);
    HoldsCount(acc, digs);
    StandsHere(t, s0, s, f, s2 - nz, dplen);
    r := Number(s0, acc0.nd, acc, dplen, e - (s2 - nz - f), end);
  }

  lemma HoldsCount(a: Acc, s: seq<Digit>)
    requires Holds(a, s)
    ensures a.nd == |s|
  {}

  /** The first significant digit stands after the point, at z. */
  method ScanLeadingFraction(t: string, p: nat, s: nat, f: nat, z: nat)
    returns (r: Scanned, ghost digs: seq<Digit>, ghost tz: nat)
    requires p <= s == Run(t, p) && (forall n :: p <= n < s ==> At(t, n) == '0')
    requires At(t, s) == '.' && f == s + 1 <= z && '1' <= At(t, z) <= '9'
    requires forall n :: f <= n < z ==> At(t, n) == '0'
    ensures ScanCorrect(t, p, r, digs, tz)
  {
    hide DigitsIn, DigitsValue, Power, Holds, Run, ParseExponent, ScanCorrect;
    EmptyHolds();
    var s2, acc, nz := ScanFraction(t, z, Acc(0, 0, 0), []);
    RunThrough(t, f, z, s2);
    var e, end := ScanExponent(t, s2);
    digs, tz := DigitsIn(t, z, s2 - nz), nz;
    assert [] + digs == digs;
    r := Number(z, acc.nd, acc, 1, e - (s2 - nz - f), end);
    LeadingFractionCorrect(t, p, s, f, z, s2 - nz, s2, acc, e, end);
  }

  lemma LeadingFractionCorrect(t: string, p: nat, s: nat, f: nat, z: nat, m: nat, s2: nat, acc: Acc, e: int, end: nat)
    requires p <= s == Run(t, p) && (forall n :: p <= n < s ==> At(t, n) == '0')
    requires At(t, s) == '.' && f == s + 1 <= z < m <= s2 == Run(t, f) && '1' <= At(t, z) <= '9'
    requires (forall n :: f <= n < z ==> At(t, n) == '0') && forall n :: m <= n < s2 ==> At(t, n) == '0'
    requires Holds(acc, DigitsIn(t, z, m))
    requires (e, end) == (Clamp(ParseExponent(t, s2).0), ParseExponent(t, s2).1)
    ensures ScanCorrect(t, p, Number(z, acc.nd, acc, 1, e - (m - f), end), DigitsIn(t, z, m), s2 - m)
  {
    hide DigitsIn, DigitsValue, Power, Holds, Run, ParseExponent, Parse, Stands;
    var digs := DigitsIn(t, z, m);
    EmptyDigits(t, s);
    EmptyDigits(t, m);
    assert [] + digs == digs && digs + [] == digs;
    Parsed(t, p, s, f, s2);
    MantissaValue(t, p, s, s, f, z, m, s2);
    HoldsCount(acc, digs);
    StandsHere(t, z, m, m, m, 1);
  }

  /** Nothing but zeros before the point: the fraction has to supply the digits. */
  method ScanWithoutInteger(t: string, p: nat, s: nat) returns (r: Scanned, ghost digs: seq<Digit>, ghost tz: nat)
    requires p <= s == Run(t, p) && forall n :: p <= n < s ==> At(t, n) == '0'
    ensures ScanCorrect(t, p, r, digs, tz)
  {
    hide DigitsIn, DigitsValue, Power, Holds, Run, ParseExponent, Parse;
    digs, tz := [], 0;
    EmptyDigits(t, s);
    EmptyHolds();
    var f, z := s, s;
    if At(t, s) == '.' {
      f := s + 1;
      z := SkipZeros(t, f);
      EmptyDigits(t, f);
      if '1' <= At(t, z) <= '9' {
        r, digs, tz := ScanLeadingFraction(t, p, s, f, z);
        return;
      }
      RunUnique(t, f, z);
    }
    var e, end := ScanExponent(t, z);
    if s == p && z == f {
      NothingParsed(t, p, f);
      return NoNumber, digs, tz;
    }
    Parsed(t, p, s, f, z);
    MantissaValue(t, p, s, s, f, z, z, z);
    EmptyDigits(t, z);
    assert DigitsIn(t, s, s) + DigitsIn(t, z, z) == [];
    assert DigitsValue([]) == 0 by { DigitsZeros([]); }
    r := Zero(end);
  }

  lemma NothingParsed(t: string, p: nat, f: nat)
    requires p == Run(t, p)
    requires if At(t, p) == '.' then f == p + 1 == Run(t, f) else f == p
    ensures Parse(t, p) == NotANumber
  {}

  /** What a scan says about the number at p is right, for some significant digits. */
  ghost predicate Scans(t: string, p: nat, r: Scanned) {
    exists digs, tz: nat :: ScanCorrect(t, p, r, digs, tz)
  }

  /** Scans a number whose sign and leading blanks are behind it. */
  method Scan(t: string, p: nat) returns (r: Scanned)
    ensures Scans(t, p, r)
  {
    ghost var digs, tz;
    r, digs, tz := ScanParts(t, p);
  }

  method ScanParts(t: string, p: nat) returns (r: Scanned, ghost digs: seq<Digit>, ghost tz: nat)
    ensures ScanCorrect(t, p, r, digs, tz)
  {
    hide DigitsIn, DigitsValue, Power, Holds, Stands, Run, ParseExponent, Parse;
    digs, tz := [], 0;
    if At(t, p) == '0' && At(t, p + 1) in "xX" {
      return Hex, digs, tz;
    }
    var s0 := SkipZeros(t, p);
    if s0 > p && At(t, s0) == '\0' {
      RunUnique(t, p, s0);
      Parsed(t, p, s0, s0, s0);
      NoExponent(t, s0);
      MantissaValue(t, p, s0, s0, s0, s0, s0, s0);
      EmptyDigits(t, s0);
      assert DigitsIn(t, s0, s0) + DigitsIn(t, s0, s0) == [];
      assert DigitsValue([]) == 0 by { DigitsZeros([]); }
      return Zero(s0), digs, tz;
    }
    var s, acc := ScanInteger(t, s0);
    HoldsCount(acc, DigitsIn(t, s0, s));
    if acc.nd > 0 {
      r, digs, tz := ScanWithInteger(t, p, s0, s, acc);
    } else {
      RunThrough(t, p, s0, s);
      r, digs, tz := ScanWithoutInteger(t, p, s);
    }
  }

  // ----- Blanks and a sign in front -----

  predicate IsBlank(c: char) { c == ' ' || '\t' <= c <= '\r' }

  /** Blank, tabulators, line and form feeds and the carriage return. */
  lemma BlankIs(c: char)
    ensures IsBlank(c) <==> c == ' ' || c as int in {9, 10, 11, 12, 13}
  {}

  /** Where the blanks from i on end. */
  function Blanks(t: string, i: nat): (j: nat)
    ensures i <= j
    decreases |t| - i
  {
    if i < |t| && IsBlank(t[i]) then Blanks(t, i + 1) else i
  }

  predicate IsSign(c: char) { c == '-' || c == '+' }

  /** Where the digits of the number at i may start. */
  function NumberStart(t: string, i: nat): nat {
    var b := Blanks(t, i);
    if IsSign(At(t, b)) then b + 1 else b
  }

  /** Behind any blanks and a sign or none the number starts. */
  lemma {:induction false} SignedStart(blanks: string, sign: string, rest: string)
    requires (forall i :: 0 <= i < |blanks| ==> blanks[i] == ' ' || blanks[i] as int in {9, 10, 11, 12, 13})
    requires sign == "" || sign == "+" || sign == "-"
    requires sign != "" || rest == "" || (!IsBlank(rest[0]) && rest[0] != '+' && rest[0] != '-')
    ensures Blanks(blanks + sign + rest, 0) == |blanks|
    ensures NumberStart(blanks + sign + rest, 0) == |blanks| + |sign|
  {
    var t := blanks + sign + rest;
    BlanksEnd(t, 0, |blanks|);
    assert At(t, |blanks|) == if sign != "" then sign[0] else if rest != "" then rest[0] else '\0';
  }

  lemma {:induction false} BlanksEnd(t: string, i: nat, j: nat)
    requires i <= j <= |t| && (forall k :: i <= k < j ==> IsBlank(t[k])) && (j < |t| ==> !IsBlank(t[j]))
    ensures Blanks(t, i) == j
    decreases j - i
  {
    if i < j {
      BlanksEnd(t, i + 1, j);
    }
  }

  /** Blanks, a sign, and a number. Without a number the sign is dropped as well. */
  method ScanSigned(t: string, i: nat) returns (negative: bool, r: Scanned, ghost digs: seq<Digit>, ghost tz: nat)
    ensures ScanCorrect(t, NumberStart(t, i), r, digs, tz)
    ensures negative == (At(t, Blanks(t, i)) == '-' && !r.NoNumber?)
  {
    hide DigitsIn, DigitsValue, Power, Holds, Stands, Run, ParseExponent, Parse, ScanCorrect;
    var s := i;
    while IsBlank(At(t, s))
      invariant i <= s && Blanks(t, s) == Blanks(t, i)
      decreases |t| - s
    {
      s := s + 1;
    }
    negative, digs, tz := false, [], 0;
    if IsSign(At(t, s)) {
      negative := At(t, s) == '-';
      s := s + 1;
    }
    if At(t, s) == '\0' {
      NothingHere(t, s);
      return false, NoNumber, digs, tz;
    }
    r, digs, tz := ScanParts(t, s);
    if r == NoNumber {
      negative := false;
    }
  }

  lemma NothingHere(t: string, p: nat)
    requires At(t, p) == '\0'
    ensures ScanCorrect(t, p, NoNumber, [], 0)
  {}

  lemma NoExponent(t: string, r: nat)
    requires At(t, r) == '\0'
    ensures ParseExponent(t, r) == (0, r)
  {}

  /** The big integer of the scanned digits: y holds the first nine, the others are read again. */
  method S2b(t: string, s0: nat, nd0: nat, acc: Acc, dplen: nat, ghost digs: seq<Digit>) returns (b: Bigint)
    requires Holds(acc, digs) && Stands(t, s0, nd0, dplen, digs) && 0 < nd0 <= acc.nd
    ensures fresh(b) && fresh(b.x) && b.Valid() && b.wds > 0
    ensures b.Value() == DigitsValue(digs)
  {
    hide DigitsValue, Power;
    var x, k, y := (acc.nd + 8) / 9, 0, 1;
    while x > y
      invariant y >= 1
      decreases x - y
    {
      y, k := 2 * y, k + 1;
    }
    NineDigitsFit(digs[..Min(9, |digs|)]);
    b := new Bigint.Balloc(k);
    b.x[0] := acc.y;
    b.wds := 1;
    assert b.x[..1] == [acc.y];
    ValSingle(acc.y);
    var i, s := 9, s0;
    if 9 < nd0 {
      s := s + 9;
      StandsFrom(t, s0, nd0, dplen, digs, 9, nd0, s);
      b := AppendDigits(b, t, s, 9, nd0, digs);
      s, i := s + (nd0 - 9) + dplen, nd0;
    } else {
      s := s + dplen + 9;
    }
    if i < acc.nd {
      StandsFrom(t, s0, nd0, dplen, digs, i, acc.nd, s);
      b := AppendDigits(b, t, s, i, acc.nd, digs);
    }
    assert digs[..|digs|] == digs;
  }

  /** Digits i to lim of digs stand at s and on. */
  ghost predicate StandsAt(t: string, s: nat, i: nat, lim: nat, digs: seq<Digit>)
    requires lim <= |digs|
  {
    forall j :: i <= j < lim ==> Spells(At(t, s + j - i), digs[j])
  }

  lemma StandsFrom(t: string, s0: nat, nd0: nat, dplen: nat, digs: seq<Digit>, i: nat, lim: nat, s: nat)
    requires Stands(t, s0, nd0, dplen, digs) && i < lim <= |digs|
    requires s == Place(s0, nd0, dplen, i) && (lim <= nd0 || nd0 <= i)
    ensures StandsAt(t, s, i, lim, digs)
  {
    forall j | i <= j < lim
      ensures Spells(At(t, s + j - i), digs[j])
    {
      assert Place(s0, nd0, dplen, j) == s + j - i;
    }
  }

  /** Reads digits i to lim from s on and appends them to b. */
  method AppendDigits(b0: Bigint, t: string, s0: nat, i0: nat, lim: nat, ghost digs: seq<Digit>) returns (b: Bigint)
    requires i0 < lim <= |digs| && StandsAt(t, s0, i0, lim, digs)
    requires b0.Valid() && b0.wds > 0 && b0.Value() == DigitsValue(digs[..i0])
    modifies b0, b0.x
    ensures (b == b0 || (fresh(b) && fresh(b.x))) && b.Valid() && b.wds > 0
    ensures b.Value() == DigitsValue(digs[..lim])
  {
    hide DigitsValue, Power;
    var s, i := s0, i0;
    b := b0;
    while i < lim
      invariant i0 <= i <= lim && s == s0 + i - i0
      invariant (b == b0 || (fresh(b) && fresh(b.x))) && b.Valid() && b.wds > 0
      invariant b.Value() == DigitsValue(digs[..i])
    {
      assert Spells(At(t, s0 + i - i0), digs[i]);
      b := OneMore(b, t, s, digs, i);
      s, i := s + 1, i + 1;
    }
  }

  method OneMore(b: Bigint, t: string, s: nat, ghost digs: seq<Digit>, ghost i: nat) returns (r: Bigint)
    requires i < |digs| && IsDigit(At(t, s)) && Dig(At(t, s)) == digs[i]
    requires b.Valid() && b.wds > 0 && b.Value() == DigitsValue(digs[..i])
    modifies b, b.x
    ensures (r == b || (fresh(r) && fresh(r.x))) && r.Valid() && r.wds > 0
    ensures r.Value() == DigitsValue(digs[..i + 1])
  {
    assert digs[..i + 1] == digs[..i] + [digs[i]];
    DigitsAppend(digs[..i], digs[i]);
    r := MultAdd(b, 10, Dig(At(t, s)));
  }

  lemma {:induction false} NineDigitsFit(s: seq<Digit>)
    requires |s| <= 9
    ensures DigitsValue(s) < Power(10, |s|)
    ensures DigitsValue(s) < 0x1_0000_0000
  {
    if s != [] {
      NineDigitsFit(s[..|s| - 1]);
    }
    NineTens();
    PowerMonotone(10, |s|, 9);
  }

  lemma NineTens()
    ensures Power(10, 9) == 1_000_000_000
  {
    assert Power(10, 4) == 10000;
    PowerAdd(10, 4, 4);
  }
}
