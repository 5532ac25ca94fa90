/** Printing digits and a decimal point position as text (g_fmt.c: fpconv_g_fmt), and the round trip
    through the scanner. */
module NumberText {
  import opened Limbs
  import opened Bigints
  import opened Decimal
  import opened DecimalScan

  function Chr(d: Digit): (c: char)
    ensures IsDigit(c) && Dig(c) == d
  {
    (d + '0' as int) as char
  }

  function Chars(s: seq<Digit>): (t: string)
    ensures |t| == |s| && forall i :: 0 <= i < |s| ==> t[i] == Chr(s[i])
  {
    seq(|s|, i requires 0 <= i < |s| => Chr(s[i]))
  }

  lemma CharsConcat(s: seq<Digit>, t: seq<Digit>)
    ensures Chars(s + t) == Chars(s) + Chars(t)
  {}

  function Zeros(n: nat): (s: seq<Digit>)
    ensures |s| == n && forall i :: 0 <= i < n ==> s[i] == 0
  {
    if n == 0 then [] else Zeros(n - 1) + [0]
  }

  /** A literal: digits, a point and more digits unless there are none, an exponent unless absent. */
  datatype Layout = Layout(ip: seq<Digit>, fp: seq<Digit>, hasExp: bool, neg: bool, ex: seq<Digit>)

  function Point(l: Layout): string {
    if l.fp == [] then "" else "." + Chars(l.fp)
  }

  function Exponent(l: Layout): string {
    if l.hasExp then (if l.neg then "e-" else "e+") + Chars(l.ex) else ""
  }

  function Text(l: Layout): string { Chars(l.ip) + Point(l) + Exponent(l) }

  function ExponentValue(l: Layout): int {
    if !l.hasExp then 0 else if l.neg then -(DigitsValue(l.ex) as int) else DigitsValue(l.ex)
  }

  /** At least two digits, and no more zeros in front than that takes. */
  predicate TwoOrMore(ex: seq<Digit>) { |ex| == 2 || (|ex| > 2 && ex[0] != 0) }

  /** The layout chosen for digits s with the point after place decpt. */
  ghost predicate Chosen(l: Layout, s: seq<Digit>, decpt: int, precision: int)
    requires s != []
  {
    if decpt <= -4 || decpt > precision then
      && l.ip == s[..1] && l.fp == s[1..] && l.hasExp
      && l.neg == (decpt - 1 < 0) && TwoOrMore(l.ex)
      && ExponentValue(l) == decpt - 1
    else if decpt <= 0 then
      l == Layout([0], Zeros(-decpt) + s, false, false, [])
    else if decpt < |s| then
      l == Layout(s[..decpt], s[decpt..], false, false, [])
    else
      l == Layout(s + Zeros(decpt - |s|), [], false, false, [])
  }

  /** How many digits the exponent takes, at least two, and the weight of the first. */
  method ExponentWidth(x: nat) returns (j: nat, k: nat)
    ensures j >= 2 && k == Power(10, j - 1) && k > 0 && x < 10 * k && (j > 2 ==> k <= x)
  {
    j, k := 2, 10;
    PowerZero(10);
    while 10 * k <= x
      invariant j >= 2 && k == Power(10, j - 1) && k > 0 && (j > 2 ==> k <= x)
      decreases x as int - k
    {
      j, k := j + 1, k * 10;
    }
  }

  /** One digit, and ten times what is left of it. */
  function Quot(d: nat, k: nat): (q: Digit)
    requires 0 < k && d < 10 * k
  {
    QuotientIsBelow(d, k);
    d / k
  }

  function Rest(d: nat, k: nat): (r: nat)
    requires 0 < k && d < 10 * k
    ensures r < k && d == Quot(d, k) * k + r
  {
    QuotientIsBelow(d, k);
    d - (d / k) * k
  }

  /** The exponent in decimal, at least two digits. */
  method ExponentDigits(x: nat) returns (out: seq<Digit>)
    ensures TwoOrMore(out) && DigitsValue(out) == x
  {
    hide Power, DigitsValue, Quot, Rest;
    var decpt: nat := x;
    var j, k := ExponentWidth(x);
    out := [];
    ghost var J := j;
    FirstExponentDigit(x, k);
    while true
      invariant 0 < j <= J && |out| == J - j && decpt < 10 * k
      invariant (out == [] ==> decpt == x) && (out != [] && J > 2 ==> out[0] != 0)
      invariant ExponentSoFar(DigitsValue(out), decpt, k, x, J - j)
      decreases j
    {
      ExponentStep(DigitsValue(out), decpt, k, x, J - j);
      if k <= decpt { QuotientIsPositive(decpt, k); }
      var i := Quot(decpt, k);
      DigitsAppend(out, i);
      out := out + [i];
      j := j - 1;
      if j <= 0 {
        LastExponentDigit(DigitsValue(out), Rest(decpt, k), k, x, J);
        break;
      }
      decpt := Rest(decpt, k) * 10;
    }
  }

  lemma QuotientIsPositive(d: nat, k: nat)
    requires 0 < k <= d < 10 * k
    ensures Quot(d, k) > 0
  {}

  ghost predicate ExponentSoFar(v: nat, decpt: nat, k: nat, x: nat, m: nat) {
    v * (10 * k) + decpt == x * Power(10, m)
  }

  lemma FirstExponentDigit(x: nat, k: nat)
    ensures ExponentSoFar(DigitsValue([]), x, k, x, 0)
  {}

  lemma QuotientIsBelow(d: nat, k: nat)
    requires 0 < k && d < 10 * k
    ensures d / k <= 9 && 0 <= d - (d / k) * k < k
  {
    var q := d / k;
    if 10 <= q { Scale(10, q, k); }
  }

  lemma ExponentStep(v: nat, decpt: nat, k: nat, x: nat, m: nat)
    requires 0 < k && decpt < 10 * k && ExponentSoFar(v, decpt, k, x, m)
    ensures ExponentSoFar(10 * v + Quot(decpt, k), Rest(decpt, k) * 10, k, x, m + 1)
  {
    hide Quot, Rest;
    var i, r := Quot(decpt, k), Rest(decpt, k);
    Distribute(10 * k, 10 * v, i);
    Associate(10, v, 10 * k);
    Associate(i, 10, k);
    Associate(10, i, k);
    Associate(10, x, Power(10, m));
    Associate(x, 10, Power(10, m));
  }

  lemma LastExponentDigit(v: nat, rest: nat, k: nat, x: nat, J: nat)
    requires J > 0 && k == Power(10, J - 1) && rest < k
    requires ExponentSoFar(v, rest * 10, k, x, J)
    ensures v == x
  {
    assert Power(10, J) == 10 * k;
    if v < x { Scale(v + 1, x, 10 * k); Distribute(10 * k, v, 1); }
    if x < v { Scale(x + 1, v, 10 * k); Distribute(10 * k, x, 1); }
  }

  /** The text of digits s with the point after place decpt. */
  ghost predicate PrintedAs(b: string, s: seq<Digit>, decpt: int, precision: int)
    requires s != []
  {
    exists l :: Chosen(l, s, decpt, precision) && b == Text(l)
  }

  method GFmt(sign: bool, s: seq<Digit>, decpt: int, precision: int) returns (b: string)
    requires s != []
    ensures if sign then b != "" && b[0] == '-' && PrintedAs(b[1..], s, decpt, precision)
            else PrintedAs(b, s, decpt, precision)
  {
    hide Chosen, Text;
    b := if sign then "-" else "";
    ghost var l;
    b, l := Print(b, s, decpt, precision);
    assert b[|if sign then "-" else ""|..] == Text(l);
  }

  // ----- What the text looks like -----

  /** Digits as they are written. */
  ghost function Written(s: seq<Digit>): string { seq(|s|, i requires 0 <= i < |s| => "0123456789"[s[i]]) }

  ghost function Noughts(n: nat): string { seq(n, _ => '0') }

  lemma CharsAreWritten(s: seq<Digit>)
    ensures Chars(s) == Written(s)
  {
    forall i | 0 <= i < |s| ensures Chars(s)[i] == Written(s)[i] { DigitChar(s[i]); }
  }

  lemma DigitChar(d: Digit)
    ensures Chr(d) == "0123456789"[d]
  {}

  lemma ZerosAreNoughts(n: nat)
    ensures Chars(Zeros(n)) == Noughts(n)
  {
    DigitChar(0);
  }

  lemma NoLetter(s: seq<Digit>)
    ensures 'e' !in Chars(s)
  {}

  /** With the first digit at place x: an exponent is written exactly when x is below -4 or not below the
      precision; then one digit stands before the point and the exponent is x in at least two digits.
      Otherwise a number below one has a zero before the point and zeros behind it, and a number with
      more than x + 1 digits has x + 1 of them before the point; one with fewer is filled up with zeros. */
  lemma TextForm(b: string, s: seq<Digit>, x: int, precision: int)
    requires s != [] && PrintedAs(b, s, x + 1, precision)
    ensures 'e' in b <==> x < -4 || x >= precision
    ensures x < -4 || x >= precision ==> exists ex :: WithExponent(b, s, x, ex)
    ensures -4 <= x < 0 && x < precision ==> b == "0." + Noughts(-x - 1) + Written(s)
    ensures 0 <= x < precision && x + 1 < |s| ==> b == Written(s[..x + 1]) + "." + Written(s[x + 1..])
    ensures 0 <= x < precision && |s| <= x + 1 ==> b == Written(s) + Noughts(x + 1 - |s|)
  {
    hide Text, DigitsValue, Zeros, Written, Noughts, WithExponent, TwoOrMore, ExponentValue;
    var l :| Chosen(l, s, x + 1, precision) && b == Text(l);
    if x < -4 || x >= precision {
      ExponentForm(l, s, x);
    } else if x < 0 {
      SmallForm(l, s, -x - 1);
    } else if x + 1 < |s| {
      PointForm(l, s, x + 1);
    } else {
      WholeForm(l, s, x + 1 - |s|);
    }
  }

  /** One digit, a point before the others, and the exponent with its sign. */
  ghost predicate WithExponent(b: string, s: seq<Digit>, x: int, ex: seq<Digit>)
    requires s != []
  {
    && |ex| >= 2 && (|ex| > 2 ==> ex[0] != 0) && DigitsValue(ex) == Abs(x)
    && b == Written(s[..1]) + (if |s| > 1 then "." + Written(s[1..]) else "")
            + ((if x < 0 then "e-" else "e+") + Written(ex))
  }

  lemma ExponentForm(l: Layout, s: seq<Digit>, x: int)
    requires s != [] && l.ip == s[..1] && l.fp == s[1..] && l.hasExp && l.neg == (x < 0) && TwoOrMore(l.ex)
    requires ExponentValue(l) == x
    ensures 'e' in Text(l) && WithExponent(Text(l), s, x, l.ex)
  {
    hide DigitsValue, Chars, Written;
    CharsAreWritten(l.ip);
    CharsAreWritten(l.fp);
    CharsAreWritten(l.ex);
    ExponentLetter(l);
  }

  lemma SmallForm(l: Layout, s: seq<Digit>, n: nat)
    requires s != [] && l == Layout([0], Zeros(n) + s, false, false, [])
    ensures 'e' !in Text(l) && Text(l) == "0." + Noughts(n) + Written(s)
  {
    hide Zeros, Text;
    SmallText(Zeros(n), s, l);
    ZerosAreNoughts(n);
    CharsAreWritten(s);
    NoLetter(s);
    hide Chars, Written;
  }

  lemma PointForm(l: Layout, s: seq<Digit>, n: nat)
    requires 0 < n < |s| && l == Layout(s[..n], s[n..], false, false, [])
    ensures 'e' !in Text(l) && Text(l) == Written(s[..n]) + "." + Written(s[n..])
  {
    CharsAreWritten(l.ip);
    CharsAreWritten(l.fp);
    NoLetter(l.ip);
    NoLetter(l.fp);
    hide Chars, Written;
  }

  lemma WholeForm(l: Layout, s: seq<Digit>, n: nat)
    requires s != [] && l == Layout(s + Zeros(n), [], false, false, [])
    ensures 'e' !in Text(l) && Text(l) == Written(s) + Noughts(n)
  {
    hide Zeros;
    CharsConcat(s, Zeros(n));
    ZerosAreNoughts(n);
    CharsAreWritten(s);
    NoLetter(s + Zeros(n));
    hide Chars, Written, Noughts;
  }

  lemma ExponentLetter(l: Layout)
    requires l.hasExp
    ensures 'e' in Text(l)
  {
    hide Chars;
    assert Text(l)[|Chars(l.ip)| + |Point(l)|] == 'e';
  }

  method Print(b0: string, s: seq<Digit>, decpt: int, precision: int) returns (b: string, ghost l: Layout)
    requires s != []
    ensures Chosen(l, s, decpt, precision) && b == b0 + Text(l)
  {
    if decpt <= -4 || decpt > precision {
      b, l := Scientific(b0, s, decpt);
    } else if decpt <= 0 {
      b, l := Small(b0, s, decpt);
    } else {
      b, l := Positional(b0, s, decpt);
    }
  }

  method Scientific(b0: string, s: seq<Digit>, decpt0: int) returns (b: string, ghost l: Layout)
    requires s != []
    ensures l.ip == s[..1] && l.fp == s[1..] && l.hasExp && l.neg == (decpt0 - 1 < 0) && TwoOrMore(l.ex)
    ensures ExponentValue(l) == decpt0 - 1 && b == b0 + Text(l)
  {
    hide Chars, Text, DigitsValue, ExponentValue, TwoOrMore;
    b := SciDigits(b0, s);
    var ex;
    b, ex := SciExponent(b, decpt0 - 1);
    l := Layout(s[..1], s[1..], true, decpt0 - 1 < 0, ex);
    ScientificText(b0, s, decpt0 - 1, ex, l);
  }

  lemma ScientificText(b0: string, s: seq<Digit>, n: int, ex: seq<Digit>, l: Layout)
    requires s != [] && l == Layout(s[..1], s[1..], true, n < 0, ex) && DigitsValue(ex) == Abs(n)
    ensures ExponentValue(l) == n
    ensures b0 + (Chars(s[..1]) + if 1 < |s| then "." + Chars(s[1..]) else "")
               + ("e" + (if n < 0 then "-" else "+") + Chars(ex)) == b0 + Text(l)
  {
    hide Chars, DigitsValue;
    assert Point(l) == if 1 < |s| then "." + Chars(s[1..]) else "";
    assert Exponent(l) == "e" + (if n < 0 then "-" else "+") + Chars(ex);
  }

  /** The first digit and, after a point, the others. */
  method SciDigits(b0: string, s: seq<Digit>) returns (b: string)
    requires s != []
    ensures b == b0 + (Chars(s[..1]) + if 1 < |s| then "." + Chars(s[1..]) else "")
  {
    b := b0 + [Chr(s[0])];
    assert Chars(s[..1]) == [Chr(s[0])];
    if 1 < |s| {
      hide Chars;
      b := b + ".";
      b := CopyRest(b, s, 1);
    }
  }

  method SciExponent(b0: string, n: int) returns (b: string, ex: seq<Digit>)
    ensures TwoOrMore(ex) && DigitsValue(ex) == Abs(n)
    ensures b == b0 + ("e" + (if n < 0 then "-" else "+") + Chars(ex))
  {
    hide Chars, DigitsValue;
    b := b0 + "e";
    var decpt := n;
    if decpt < 0 {
      b := b + "-";
      decpt := -decpt;
    } else {
      b := b + "+";
    }
    ex := ExponentDigits(decpt);
    b := b + Chars(ex);
  }

  function Abs(n: int): nat { if n < 0 then -n else n }

  method Small(b0: string, s: seq<Digit>, decpt0: int) returns (b: string, ghost l: Layout)
    requires decpt0 <= 0 && s != []
    ensures l == Layout([0], Zeros(-decpt0) + s, false, false, []) && b == b0 + Text(l)
  {
    hide Chars, Zeros, Text;
    b := b0 + "0.";
    b := PrintZeros(b, -decpt0);
    b := CopyRest(b, s, 0);
    assert s[0..] == s;
    l := Layout([0], Zeros(-decpt0) + s, false, false, []);
    SmallText(Zeros(-decpt0), s, l);
  }

  lemma SmallText(z: seq<Digit>, s: seq<Digit>, l: Layout)
    requires s != [] && l == Layout([0], z + s, false, false, [])
    ensures Text(l) == "0." + Chars(z) + Chars(s)
  {
    hide Chars;
    CharsConcat(z, s);
    assert Chars([0]) == "0" by { OneChar(0); }
  }

  lemma OneChar(d: Digit)
    ensures Chars([d]) == [Chr(d)]
  {}

  method Positional(b0: string, s: seq<Digit>, decpt0: int) returns (b: string, ghost l: Layout)
    requires 0 < decpt0 && s != []
    ensures l == if decpt0 < |s| then Layout(s[..decpt0], s[decpt0..], false, false, [])
                 else Layout(s + Zeros(decpt0 - |s|), [], false, false, [])
    ensures b == b0 + Text(l)
  {
    var decpt;
    b, decpt := CopyWithPoint(b0, s, decpt0);
    if decpt > 0 {
      b := PrintZeros(b, decpt);
    }
    if decpt0 < |s| {
      l := Layout(s[..decpt0], s[decpt0..], false, false, []);
    } else {
      l := Layout(s + Zeros(decpt0 - |s|), [], false, false, []);
      assert Chars(l.ip) == Chars(s) + Chars(Zeros(decpt0 - |s|));
    }
    assert b == b0 + (Chars(l.ip) + Point(l) + Exponent(l));
  }

  method PrintZeros(b0: string, n: nat) returns (b: string)
    ensures b == b0 + Chars(Zeros(n))
  {
    b := b0;
    var i := n;
    while i > 0
      invariant 0 <= i <= n && b == b0 + Chars(Zeros(n - i))
    {
      assert Chars(Zeros(n - i + 1)) == Chars(Zeros(n - i)) + "0";
      b := b + "0";
      i := i - 1;
    }
  }

  /** Copies the digits of s from i on. */
  method CopyRest(b0: string, s: seq<Digit>, i0: nat) returns (b: string)
    requires i0 <= |s|
    ensures b == b0 + Chars(s[i0..])
  {
    b := b0;
    var i := i0;
    while i < |s|
      invariant i0 <= i <= |s| && b == b0 + Chars(s[i0..i])
    {
      assert Chars(s[i0..i + 1]) == Chars(s[i0..i]) + [Chr(s[i])];
      b := b + [Chr(s[i])];
      i := i + 1;
    }
    assert s[i0..|s|] == s[i0..];
  }

  /** Copies the digits with a point after the first decpt of them, if more follow; returns what is
      left of decpt. */
  method CopyWithPoint(b0: string, s: seq<Digit>, decpt0: nat) returns (b: string, decpt: int)
    requires 0 < decpt0
    ensures decpt == decpt0 - |s|
    ensures b == b0 + if decpt0 < |s| then Chars(s[..decpt0]) + "." + Chars(s[decpt0..]) else Chars(s)
  {
    b, decpt := b0, decpt0;
    var i := 0;
    while i < |s|
      invariant 0 <= i <= |s| && decpt == decpt0 - i
      invariant b == b0 + if decpt0 <= i && decpt0 < |s| then Chars(s[..decpt0]) + "." + Chars(s[decpt0..i])
                          else Chars(s[..i])
    {
      if decpt0 <= i {
        assert Chars(s[decpt0..i + 1]) == Chars(s[decpt0..i]) + [Chr(s[i])];
      } else {
        assert Chars(s[..i + 1]) == Chars(s[..i]) + [Chr(s[i])];
        assert Chars(s[i + 1..i + 1]) == "";
      }
      b := b + [Chr(s[i])];
      i := i + 1;
      decpt := decpt - 1;
      if decpt == 0 && i < |s| {
        b := b + ".";
      }
    }
    assert s[..|s|] == s;
  }

  // ----- What the text denotes -----

  /** m1 * 10^e1 == m2 * 10^e2 */
  ghost predicate SameDecimal(m1: nat, e1: int, m2: nat, e2: int) {
    if e1 <= e2 then m1 == m2 * Power(10, e2 - e1) else m1 * Power(10, e1 - e2) == m2
  }

  lemma SameDecimalByShift(m1: nat, e1: int, m2: nat, e2: int, p1: nat, p2: nat)
    requires m1 * Power(10, p1) == m2 * Power(10, p2) && e1 - p1 == e2 - p2
    ensures SameDecimal(m1, e1, m2, e2)
  {
    hide Power;
    if e1 <= e2 {
      PowerAdd(10, p2 - p1, p1);
      Associate(m2, Power(10, p2 - p1), Power(10, p1));
      Cancel(m1, m2 * Power(10, p2 - p1), Power(10, p1));
    } else {
      PowerAdd(10, p1 - p2, p2);
      Associate(m1, Power(10, p1 - p2), Power(10, p2));
      Cancel(m1 * Power(10, p1 - p2), m2, Power(10, p2));
    }
  }

  lemma DigitsInChars(t: string, i: nat, s: seq<Digit>)
    requires forall n :: 0 <= n < |s| ==> At(t, i + n) == Chr(s[n])
    ensures forall n :: i <= n < i + |s| ==> IsDigit(At(t, n))
    ensures DigitsIn(t, i, i + |s|) == s
  {
    forall n | i <= n < i + |s| ensures IsDigit(At(t, n)) {
      assert At(t, i + (n - i)) == Chr(s[n - i]);
    }
    assert forall n :: 0 <= n < |s| ==> DigitsIn(t, i, i + |s|)[n] == s[n];
  }

  /** The reference grammar reads a layout back, part by part, and nothing is left over. */
  lemma ParseText(pre: string, l: Layout)
    requires l.ip != [] && (l.hasExp ==> l.ex != [])
    ensures Parse(pre + Text(l), |pre|) == Literal(l.ip, l.fp, ExponentValue(l), |pre| + |Text(l)|)
  {
    hide DigitsIn, DigitsValue, Chars, Run, ParseExponent, Parse;
    var t, p := pre + Text(l), |pre|;
    var q := p + |l.ip|;
    var f := if l.fp == [] then q else q + 1;
    var r := f + |l.fp|;
    assert t == pre + Chars(l.ip) + Point(l) + Exponent(l);
    RunOfChars(t, p, l.ip);
    if l.fp != [] {
      RunOfChars(t, f, l.fp);
    } else {
      EmptyDigits(t, q);
    }
    ParseExponentText(t, r, l);
    Parsed(t, p, q, f, r);
  }

  lemma RunOfChars(t: string, p: nat, s: seq<Digit>)
    requires p + |s| <= |t| && t[p..p + |s|] == Chars(s) && !IsDigit(At(t, p + |s|))
    ensures Run(t, p) == p + |s| && forall n :: p <= n < p + |s| ==> IsDigit(At(t, n))
    ensures DigitsIn(t, p, p + |s|) == s
  {
    hide DigitsIn, Chars, Run;
    forall n | 0 <= n < |s| ensures At(t, p + n) == Chr(s[n]) {
      assert t[p + n] == t[p..p + |s|][n];
    }
    DigitsInChars(t, p, s);
    RunUnique(t, p, p + |s|);
  }

  lemma ParseExponentText(t: string, r: nat, l: Layout)
    requires r <= |t| && t[r..] == Exponent(l) && (l.hasExp ==> l.ex != [])
    ensures ParseExponent(t, r) == (ExponentValue(l), |t|)
  {
    hide DigitsIn, DigitsValue, Chars, Run;
    if l.hasExp {
      assert t[r..][0] == 'e' && t[r..][1] == if l.neg then '-' else '+';
      assert At(t, r) == 'e' && At(t, r + 1) == if l.neg then '-' else '+';
      forall n | 0 <= n < |l.ex| ensures At(t, r + 2 + n) == Chr(l.ex[n]) {
        assert t[r..][2 + n] == Chars(l.ex)[n];
      }
      DigitsInChars(t, r + 2, l.ex);
      RunUnique(t, r + 2, |t|);
    } else {
      assert At(t, r) == '\0';
    }
  }

  /** How many zeros the layout adds behind the digits. */
  function Padding(s: seq<Digit>, decpt: int, precision: int): nat {
    if -4 < decpt <= precision && |s| <= decpt then decpt - |s| else 0
  }

  /** Whatever the layout, it stands for 0.s * 10^decpt. */
  lemma LayoutValue(l: Layout, s: seq<Digit>, decpt: int, precision: int)
    requires s != [] && Chosen(l, s, decpt, precision)
    ensures var pad := Padding(s, decpt, precision);
      DigitsValue(l.ip + l.fp) == DigitsValue(s) * Power(10, pad)
      && ExponentValue(l) - |l.fp| + pad == decpt - |s|
  {
    hide *;
    LayoutStretches(l, s, decpt, precision);
    Stretch(l, s, decpt, Padding(s, decpt, precision));
  }

  /** The layout has the digits s, pad zeros, and its point where decpt says. */
  ghost predicate Stretched(l: Layout, s: seq<Digit>, decpt: int, pad: nat) {
    DigitsValue(l.ip + l.fp) == DigitsValue(s) * Power(10, pad) && ExponentValue(l) - |l.fp| + pad == decpt - |s|
  }

  lemma Stretch(l: Layout, s: seq<Digit>, decpt: int, pad: nat)
    requires Stretched(l, s, decpt, pad)
    ensures DigitsValue(l.ip + l.fp) == DigitsValue(s) * Power(10, pad)
    ensures ExponentValue(l) - |l.fp| + pad == decpt - |s|
  {
    hide Power, DigitsValue, ExponentValue;
  }

  lemma LayoutStretches(l: Layout, s: seq<Digit>, decpt: int, precision: int)
    requires s != [] && Chosen(l, s, decpt, precision)
    ensures Stretched(l, s, decpt, Padding(s, decpt, precision))
  {
    hide Power, DigitsValue, Zeros, TwoOrMore, ExponentValue, Stretched;
    if decpt <= -4 || decpt > precision {
      ScientificValue(l, s, decpt);
    } else if decpt <= 0 {
      SmallValue(l, s, -decpt);
    } else if decpt < |s| {
      PositionalValue(l, s, decpt);
    } else {
      WholeValue(l, s, decpt - |s|);
    }
  }

  lemma NoPadding(v: nat)
    ensures v * Power(10, 0) == v
  {
    PowerZero(10);
  }

  lemma ScientificValue(l: Layout, s: seq<Digit>, decpt: int)
    requires s != [] && l.ip == s[..1] && l.fp == s[1..] && ExponentValue(l) == decpt - 1
    ensures Stretched(l, s, decpt, 0)
  {
    hide DigitsValue, Power, ExponentValue;
    NoPadding(DigitsValue(s));
    Join(s, 1);
  }

  lemma SmallValue(l: Layout, s: seq<Digit>, n: nat)
    requires l == Layout([0], Zeros(n) + s, false, false, [])
    ensures Stretched(l, s, 0 - n, 0)
  {
    hide DigitsValue, Power, Zeros;
    NoPadding(DigitsValue(s));
    LeadingZerosValue(s, n);
  }

  lemma PositionalValue(l: Layout, s: seq<Digit>, decpt: nat)
    requires decpt < |s| && l == Layout(s[..decpt], s[decpt..], false, false, [])
    ensures Stretched(l, s, decpt, 0)
  {
    hide DigitsValue, Power;
    NoPadding(DigitsValue(s));
    Join(s, decpt);
  }

  lemma WholeValue(l: Layout, s: seq<Digit>, n: nat)
    requires l == Layout(s + Zeros(n), [], false, false, [])
    ensures Stretched(l, s, |s| + n, n)
  {
    hide DigitsValue, Power, Zeros;
    TrailingZerosValue(s, n);
  }

  lemma Join(s: seq<Digit>, n: nat)
    requires n <= |s|
    ensures s[..n] + s[n..] == s
  {}

  lemma LeadingZerosValue(s: seq<Digit>, n: nat)
    ensures DigitsValue([0] + (Zeros(n) + s)) == DigitsValue(s)
  {
    PowerZero(10);
    PaddedValue([0], Zeros(n), s, []);
    assert [0] + (Zeros(n) + s) == (([0] + Zeros(n)) + s) + [];
  }

  lemma TrailingZerosValue(s: seq<Digit>, n: nat)
    ensures DigitsValue((s + Zeros(n)) + []) == DigitsValue(s) * Power(10, n)
  {
    PaddedValue([], [], s, Zeros(n));
    assert (s + Zeros(n)) + [] == ([] + s) + Zeros(n);
  }

  lemma {:induction false} LeadingDigitCounts(s: seq<Digit>)
    requires s != [] && s[0] != 0
    ensures DigitsValue(s) > 0
  {
    if |s| > 1 {
      LeadingDigitCounts(s[..|s| - 1]);
    }
  }

  /** Printed digits scan back as a number of the same value, for every layout; the scan ends where
      the text ends. An exponent that is printed must be one the scanner does not cut off. */
  lemma PrintedScansBack(pre: string, l: Layout, s: seq<Digit>, decpt: int, precision: int,
                         r: Scanned, digs: seq<Digit>, tz: nat)
    requires s != [] && s[0] != 0 && Chosen(l, s, decpt, precision)
    requires decpt <= -4 || decpt > precision ==> -19999 <= decpt - 1 <= 19999
    requires ScanCorrect(pre + Text(l), |pre|, r, digs, tz)
    ensures r.Number? && r.end == |pre| + |Text(l)|
    ensures SameDecimal(DigitsValue(digs), r.e, DigitsValue(s), decpt - |s|)
  {
    hide DigitsValue, Power, Parse, Chars, Stands, Holds;
    var pad := Padding(s, decpt, precision);
    ParseText(pre, l);
    LayoutValue(l, s, decpt, precision);
    LeadingDigitCounts(s);
    Scale(1, Power(10, pad), DigitsValue(s));
    NotHex(pre, l, s, decpt, precision);
    SameDecimalByShift(DigitsValue(digs), r.e, DigitsValue(s), decpt - |s|, tz, pad);
  }

  lemma NotHex(pre: string, l: Layout, s: seq<Digit>, decpt: int, precision: int)
    requires s != [] && s[0] != 0 && Chosen(l, s, decpt, precision)
    ensures var t := pre + Text(l);
      !(At(t, |pre|) == '0' && At(t, |pre| + 1) in "xX")
  {
    var t := pre + Text(l);
    assert At(t, |pre|) == Chr(l.ip[0]);
    if l.ip[0] == 0 {
      assert t[|pre| + 1] == '.';
    }
  }

  /** No blank is skipped before a printed number, and its sign is the first character. */
  lemma PrintedStart(sign: bool, l: Layout, s: seq<Digit>, decpt: int, precision: int)
    requires s != [] && Chosen(l, s, decpt, precision)
    ensures var pre := if sign then "-" else "";
      Blanks(pre + Text(l), 0) == 0 && NumberStart(pre + Text(l), 0) == |pre| && (At(pre + Text(l), 0) == '-' <==> sign)
  {
    var pre := if sign then "-" else "";
    var t := pre + Text(l);
    assert Text(l)[0] == Chr(l.ip[0]);
    assert t[|pre|] == Chr(l.ip[0]);
    assert t[0] == if sign then '-' else Chr(l.ip[0]);
  }

  /** The digits of zero, as they are handed to the formatter. */
  ghost predicate IsZero(s: seq<Digit>, decpt: int, precision: int) { s == [0] && decpt == 1 && precision >= 1 }

  /** The printed zero scans as zero, to the end of its text. */
  lemma ZeroScansBack(pre: string, l: Layout, s: seq<Digit>, decpt: int, precision: int,
                      r: Scanned, digs: seq<Digit>, tz: nat)
    requires IsZero(s, decpt, precision) && Chosen(l, s, decpt, precision)
    requires ScanCorrect(pre + Text(l), |pre|, r, digs, tz)
    ensures Text(l) == "0" && r == Zero(|pre| + |Text(l)|)
  {
    hide DigitsValue, Power, Parse, Stands, Holds;
    ParseText(pre, l);
    assert l.ip + l.fp == [0];
    DigitsZeros([0]);
    if r.Number? {
      LeadingDigitCounts(digs);
      Scale(1, Power(10, tz), DigitsValue(digs));
    }
  }

  /** Printing a sign and digits and scanning the text gives the sign, and a big integer and an
      exponent of the same value; a zero needs none. */
  method PrintThenScan(sign: bool, s: seq<Digit>, decpt: int, precision: int)
    returns (negative: bool, b: Bigint?, e: int)
    requires (s != [] && s[0] != 0) || IsZero(s, decpt, precision)
    requires decpt <= -4 || decpt > precision ==> -19999 <= decpt - 1 <= 19999
    ensures negative == sign && (b == null <==> IsZero(s, decpt, precision))
    ensures b != null ==> b.Valid() && SameDecimal(b.Value(), e, DigitsValue(s), decpt - |s|)
  {
    hide DigitsValue, Power, Chosen, Text, Holds, Stands, Blanks, NumberStart, SameDecimal;
    var pre := if sign then "-" else "";
    var text, l := Print(pre, s, decpt, precision);
    PrintedStart(sign, l, s, decpt, precision);
    var r: Scanned;
    ghost var digs, tz;
    negative, r, digs, tz := ScanSigned(text, 0);
    if IsZero(s, decpt, precision) {
      ZeroScansBack(pre, l, s, decpt, precision, r, digs, tz);
    } else {
      PrintedScansBack(pre, l, s, decpt, precision, r, digs, tz);
    }
    if r.Number? {
      b := S2b(text, r.s0, r.nd0, r.acc, r.dplen, digs);
      return negative, b, r.e;
    }
    return negative, null, 0;
  }

  /** Three digits are enough for an exponent below a thousand. */
  lemma ShortExponent(ex: seq<Digit>)
    requires TwoOrMore(ex) && DigitsValue(ex) < 1000
    ensures |ex| <= 3
  {
    hide DigitsValue, Power;
    if |ex| > 3 {
      Thousand(|ex| - 1);
      LeadingPlace(ex);
    }
  }

  lemma Thousand(n: nat)
    requires n >= 3
    ensures 1000 <= Power(10, n)
  {
    assert Power(10, 3) == 1000;
    PowerMonotone(10, 3, n);
  }

  /** At most fourteen digits and a three-digit exponent take no more than twenty characters. */
  lemma PrintedIsShort(b: string, s: seq<Digit>, decpt: int, precision: int)
    requires s != [] && |s| <= precision <= 14 && -1000 < decpt - 1 < 1000 && PrintedAs(b, s, decpt, precision)
    ensures |b| <= 20
  {
    hide DigitsValue;
    var l :| Chosen(l, s, decpt, precision) && b == Text(l);
    if decpt <= -4 || decpt > precision {
      ShortExponent(l.ex);
    }
  }

  // ----- One text for every number -----

  lemma OneExponent(a: seq<Digit>, b: seq<Digit>)
    requires TwoOrMore(a) && TwoOrMore(b) && DigitsValue(a) == DigitsValue(b)
    ensures a == b
  {
    if |a| == |b| {
      DigitsInjective(a, b);
    } else if |a| < |b| {
      LongerIsLarger(a, b);
    } else {
      LongerIsLarger(b, a);
    }
  }

  lemma LongerIsLarger(a: seq<Digit>, b: seq<Digit>)
    requires |a| < |b| && b[0] != 0
    ensures DigitsValue(a) < DigitsValue(b)
  {
    hide DigitsValue, Power;
    DigitsBelow(a);
    PowerMonotone(10, |a|, |b| - 1);
    LeadingPlace(b);
  }

  lemma LeadingPlace(b: seq<Digit>)
    requires b != [] && b[0] != 0
    ensures Power(10, |b| - 1) <= DigitsValue(b)
  {
    hide DigitsValue, Power;
    var rest := b[1..];
    assert b == [b[0]] + rest;
    DigitsConcat([b[0]], rest);
    Scale(1, DigitsValue([b[0]]), Power(10, |rest|)) by { NonZeroDigit(b[0]); }
  }

  lemma NonZeroDigit(d: Digit)
    requires d != 0
    ensures 1 <= DigitsValue([d])
  {
    DigitsAppend([], d);
    assert [] + [d] == [d];
  }

  /** Digits, place and precision leave no choice: there is one text. */
  lemma OneText(b: string, b': string, s: seq<Digit>, decpt: int, precision: int)
    requires s != [] && PrintedAs(b, s, decpt, precision) && PrintedAs(b', s, decpt, precision)
    ensures b == b'
  {
    hide DigitsValue, Text, Zeros;
    var l :| Chosen(l, s, decpt, precision) && b == Text(l);
    var l' :| Chosen(l', s, decpt, precision) && b' == Text(l');
    if decpt <= -4 || decpt > precision {
      OneExponent(l.ex, l'.ex);
    }
    assert l == l';
  }
}
