/** From a binary number to the text that is printed for it: digit generation and layout together
    (dtoa.c: dtoa on its multiple-precision path; g_fmt.c: fpconv_g_fmt). */
module NumberPrinting {
  import opened Limbs
  import opened Bigints
  import opened BigintProduct
  import opened Decimal
  import opened DecimalScan
  import opened Dtoa
  import opened NumberText

  /** D * 10^(lead + 1 - n) is v * 2^be rounded half to even to n significant digits. */
  ghost predicate Rounds(v: nat, be: int, n: nat, lead: int, D: nat) {
    && n > 0 && LeadsAt(v, be, lead)
    && RoundsHalfEven(Num(v, be, -lead) * Power(10, n - 1), Den(be, -lead), D)
  }

  /** The text is one literal, and that is its value. */
  ghost predicate Denotes(text: string, D: nat, e: int) {
    var l := Parse(text, 0);
    l.Literal? && l.end == |text| && SameDecimal(DigitsValue(l.ip + l.fp), l.ex - |l.fp|, D, e)
  }

  /** The text stands for v * 2^be rounded half to even to n significant digits. */
  ghost predicate StandsFor(text: string, v: nat, be: int, n: nat) {
    exists lead, D: nat :: Rounds(v, be, n, lead, D) && Denotes(text, D, lead + 1 - n)
  }

  /** Whatever layout the digits are printed in. */
  lemma ShownStandsFor(v: nat, be: int, n: nat, lead: int, s: seq<Digit>, k: int, text: string, precision: int)
    requires n > 0 && Shows(v, be, n, lead, s, k) && PrintedAs(text, s, k + 1, precision)
    ensures StandsFor(text, v, be, n)
  {
    hide Power, DigitsValue, Num, Den, LeadsAt, RoundsHalfEven, Text, Parse, SameDecimal, Chosen;
    var l :| Chosen(l, s, k + 1, precision) && text == Text(l);
    var g: nat := n - |s| + (k - lead);
    var D := DigitsValue(s) * Power(10, g);
    assert Rounds(v, be, n, lead, D);
    ChosenHasDigits(l, s, k + 1, precision);
    ParseText("", l);
    assert "" + Text(l) == text;
    LayoutValue(l, s, k + 1, precision);
    var pad := Padding(s, k + 1, precision);
    Associate(DigitsValue(s), Power(10, pad), Power(10, g));
    Associate(DigitsValue(s), Power(10, g), Power(10, pad));
    SameDecimalByShift(DigitsValue(l.ip + l.fp), ExponentValue(l) - |l.fp|, D, lead + 1 - n, g, pad);
    assert Denotes(text, D, lead + 1 - n);
  }

  lemma ChosenHasDigits(l: Layout, s: seq<Digit>, decpt: int, precision: int)
    requires s != [] && Chosen(l, s, decpt, precision)
    ensures l.ip != [] && (l.hasExp ==> l.ex != [])
  {
    hide Zeros;
  }

  /** Digits and text of v * 2^be, v being b0's value, and a minus sign for a negative number. */
  method PrintNumber(cache: FiveCache, negative: bool, b0: Bigint, be: int, k0: int, kCheck: bool, precision: int)
    returns (text: string)
    requires cache.Valid() && cache.Apart(b0) && b0.Valid() && b0.Trimmed() && b0.Value() > 0 && precision >= 1
    requires LeadsAt(b0.Value(), be, k0) || (kCheck && LeadsAt(b0.Value(), be, k0 - 1))
    modifies cache, b0, b0.x
    ensures cache.Valid() && old(cache.p5s) <= cache.p5s
    ensures if negative then text != "" && text[0] == '-' && StandsFor(text[1..], old(b0.Value()), be, precision)
            else StandsFor(text, old(b0.Value()), be, precision)
  {
    hide Shows, PrintedAs, StandsFor, LeadsAt, Val, Power, W;
    ghost var v := b0.Value();
    var s, k;
    ghost var lead;
    s, k, lead := Dtoa.Dtoa(cache, b0, be, k0, kCheck, precision);
    assert s != [] by { ShownHasDigits(v, be, precision, lead, s, k); }
    text := GFmt(negative, s, k + 1, precision);
    ShownStandsFor(v, be, precision, lead, s, k, if negative then text[1..] else text, precision);
  }

  lemma ShownHasDigits(v: nat, be: int, n: nat, lead: int, s: seq<Digit>, k: int)
    requires Shows(v, be, n, lead, s, k)
    ensures s != [] && s[0] != 0
  {}

  /** The number has one rounding: two texts for it denote the same digits at the same place. */
  lemma OneRounding(v: nat, be: int, n: nat, lead: int, D: nat, lead': int, D': nat)
    requires Rounds(v, be, n, lead, D) && Rounds(v, be, n, lead', D')
    ensures lead == lead' && D == D'
  {
    hide Num, Den, Power, RoundsHalfEven;
    LeadUnique(v, be, lead, lead');
    RoundingUnique(Num(v, be, -lead) * Power(10, n - 1), Den(be, -lead), D, D');
  }
}
