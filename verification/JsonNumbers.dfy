/** What the number formatter prints is a number the JSON decoder takes whole (g_fmt.c:
    fpconv_g_fmt; lua_cjson.c: json_is_invalid_number, json_next_number_token). */
module JsonNumbers {
  import opened Options
  import opened Decimal
  import NumberText
  import DecimalScan
  import JsonText
  import JsonCodec
  import JsonRoundTrip

  function Sign(negative: bool): string { if negative then "-" else "" }

  lemma CharsAreBytes(s: seq<Digit>)
    ensures forall i :: 0 <= i < |s| ==>
      NumberText.Chars(s)[i] as int < 256 && DecimalScan.IsDigit(NumberText.Chars(s)[i])
  {}

  /** Every character of a printed number is a byte. */
  lemma TextIsBytes(l: NumberText.Layout)
    ensures forall i :: 0 <= i < |NumberText.Text(l)| ==> NumberText.Text(l)[i] as int < 256
  {
    hide NumberText.Chars;
    CharsAreBytes(l.ip);
    CharsAreBytes(l.fp);
    CharsAreBytes(l.ex);
    var a, b, c := NumberText.Chars(l.ip), NumberText.Point(l), NumberText.Exponent(l);
    assert forall i :: 0 <= i < |b| ==> b[i] as int < 256;
    assert forall i :: 0 <= i < |c| ==> c[i] as int < 256;
  }

  function AsBytes(t: string): JsonText.Text
    requires forall i :: 0 <= i < |t| ==> t[i] as int < 256
  {
    t
  }

  /** The first digits: a zero stands alone or before the point. */
  lemma StartsWell(negative: bool, l: NumberText.Layout, s: seq<Digit>, decpt: int, precision: int)
    requires s != [] && (s[0] != 0 || (s == [0] && decpt == 1)) && precision >= 1
    requires NumberText.Chosen(l, s, decpt, precision)
    ensures var t, p := Sign(negative) + NumberText.Text(l), |Sign(negative)|;
      && l.ip != [] && (l.hasExp ==> l.ex != []) && p < |t| && DecimalScan.IsDigit(t[p])
      && (t[p] == '0' ==> DecimalScan.At(t, p + 1) == '.' || p + 1 == |t|)
  {
    hide NumberText.Chosen, NumberText.Text;
    LayoutStart(l, s, decpt, precision);
    TextStart(Sign(negative), l);
  }

  /** A zero in front is the only digit before the point, and without a fraction the only one at all. */
  lemma LayoutStart(l: NumberText.Layout, s: seq<Digit>, decpt: int, precision: int)
    requires s != [] && (s[0] != 0 || (s == [0] && decpt == 1)) && precision >= 1
    requires NumberText.Chosen(l, s, decpt, precision)
    ensures l.ip != [] && (l.hasExp ==> l.ex != [])
    ensures l.ip[0] == 0 ==> |l.ip| == 1 && (l.fp != [] || !l.hasExp)
  {
    hide NumberText.Zeros, NumberText.ExponentValue;
  }

  lemma TextStart(pre: string, l: NumberText.Layout)
    requires l.ip != [] && (l.ip[0] == 0 ==> |l.ip| == 1 && (l.fp != [] || !l.hasExp))
    ensures var t, p := pre + NumberText.Text(l), |pre|;
      p < |t| && DecimalScan.IsDigit(t[p]) && (t[p] == '0' ==> DecimalScan.At(t, p + 1) == '.' || p + 1 == |t|)
  {
    var t, p, a := pre + NumberText.Text(l), |pre|, NumberText.Chars(l.ip);
    var rest := NumberText.Point(l) + NumberText.Exponent(l);
    CharsAreBytes(l.ip);
    hide NumberText.Chars;
    assert NumberText.Text(l) == a + rest;
    assert t[p] == a[0] == NumberText.Chr(l.ip[0]);
    if t[p] == '0' {
      assert |a| == 1;
      assert t == pre + (a + rest);
      assert |t| == p + 1 + |rest|;
      if rest != [] { assert t[p + 1] == rest[0]; }
    }
  }

  /** What is printed for any digits, in any layout, is a number of JSON. */
  lemma PrintedIsNumber(negative: bool, b: string, s: seq<Digit>, decpt: int, precision: int)
    requires s != [] && (s[0] != 0 || (s == [0] && decpt == 1)) && precision >= 1
    requires NumberText.PrintedAs(b, s, decpt, precision)
    ensures forall i :: 0 <= i < |Sign(negative) + b| ==> (Sign(negative) + b)[i] as int < 256
    ensures JsonCodec.IsNumber(AsBytes(Sign(negative) + b))
  {
    hide NumberText.Chosen, NumberText.Text, DecimalScan.Parse;
    var l :| NumberText.Chosen(l, s, decpt, precision) && b == NumberText.Text(l);
    TextIsBytes(l);
    var t := Sign(negative) + b;
    StartsWell(negative, l, s, decpt, precision);
    NumberText.ParseText(Sign(negative), l);
    assert t[0] == if negative then '-' else t[|Sign(negative)|];
  }

  /** So printing digits, encoding them as a number, and decoding the text gives the same text back. */
  lemma PrintedDecodes(cfg: JsonCodec.Numbers, negative: bool, b: string, s: seq<Digit>, decpt: int, precision: int,
                       max: nat)
    requires s != [] && (s[0] != 0 || (s == [0] && decpt == 1)) && precision >= 1
    requires NumberText.PrintedAs(b, s, decpt, precision)
    ensures forall i :: 0 <= i < |Sign(negative) + b| ==> (Sign(negative) + b)[i] as int < 256
    ensures
      var n := AsBytes(Sign(negative) + b);
      JsonCodec.Decode(cfg, JsonCodec.Encode(JsonCodec.Num(n)), max) == Some(JsonCodec.Num(n))
  {
    PrintedIsNumber(negative, b, s, decpt, precision);
    JsonRoundTrip.RoundTrip(cfg, JsonCodec.Num(AsBytes(Sign(negative) + b)), max);
  }

  /** With the sign that is twenty-one characters, which leaves room in what the encoder reserves. */
  lemma PrintedFits(negative: bool, b: string, s: seq<Digit>, decpt: int, precision: int)
    requires s != [] && (s[0] != 0 || (s == [0] && decpt == 1)) && |s| <= precision <= 14
    requires -1000 < decpt - 1 < 1000 && NumberText.PrintedAs(b, s, decpt, precision)
    ensures forall i :: 0 <= i < |Sign(negative) + b| ==> (Sign(negative) + b)[i] as int < 256
    ensures |Sign(negative) + b| <= 21 && JsonCodec.ShortNumbers(JsonCodec.Num(AsBytes(Sign(negative) + b)))
  {
    hide NumberText.PrintedAs, JsonCodec.IsNumber;
    PrintedIsNumber(negative, b, s, decpt, precision);
    NumberText.PrintedIsShort(b, s, decpt, precision);
  }
}
