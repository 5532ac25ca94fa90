/** Every text of the grammar is read as what it stands for (lua_cjson.c: json_next_string_token,
    json_next_number_token, json_process_value, json_decode). */
module JsonReading {
  import opened Options
  import opened JsonText
  import opened JsonCodec
  import opened JsonTokens
  import opened JsonGrammar
  import DecimalScan

  // ----- Strings -----

  lemma HexReads(t: Text, i: nat, h: Text, u: nat)
    requires FourHex(h, u) && Spelled(t, i, h)
    ensures HexAt(t, i, u)
  {
    assert t[i + 0] == h[0] && t[i + 1] == h[1] && t[i + 2] == h[2] && t[i + 3] == h[3];
  }

  lemma UnitReads(t: Text, i: nat, h: Text, u: nat)
    requires FourHex(h, u) && Spelled(t, i, "\\u" + h)
    ensures i + 6 <= |t| && t[i] == '\\' && t[i + 1] == 'u' && HexAt(t, i + 2, u)
  {
    SpelledSplit(t, i, "\\u", h);
    assert t[i + 0] == "\\u"[0] && t[i + 1] == "\\u"[1];
    HexReads(t, i + 2, h, u);
  }

  lemma ShortReads(k: Letter)
    ensures Unescape(SHORT_LETTERS[k]) == Some(ToByte(SHORT_BYTES[k])) && SHORT_LETTERS[k] != 'u'
  {}

  lemma PartReads(t: Text, i: nat, p: Part)
    requires LegalPart(p) && Spelled(t, i, PartText(p))
    ensures NextPiece(t, i) == Bytes(PartBytes(p), |PartText(p)|)
  {
    hide HexAt, Utf8, UnicodeEscape;
    match p
    case Plain(c) => FirstSpelled(t, i, PartText(p));
    case Short(k) =>
      assert t[i + 0] == PartText(p)[0] && t[i + 1] == PartText(p)[1];
      ShortReads(k);
    case Unit(u, h) =>
      UnitReads(t, i, h, u);
      EscapeMeaning(t, i);
      assert UnitAt(t, i, u);
    case Pair(u, h, l, h') =>
      SpelledSplit(t, i, "\\u" + h, "\\u" + h');
      UnitReads(t, i, h, u);
      UnitReads(t, i + 6, h', l);
      EscapeMeaning(t, i);
      assert PairAt(t, i, u, l);
  }

  lemma {:induction false} PartsRead(t: Text, i: nat, ps: seq<Part>)
    requires LegalParts(ps) && Spelled(t, i, PartsText(ps) + "\"")
    ensures Unquote(t, i) == Some((PartsBytes(ps), i + |PartsText(ps)| + 1))
    decreases ps
  {
    hide LegalPart, PartText, NextPiece, Spelled;
    if ps == [] {
      assert PartsText(ps) + "\"" == "\"";
      FirstSpelled(t, i, "\"");
      ClosingReads(t, i);
    } else {
      var rest := PartsText(ps[1..]) + "\"";
      assert PartsText(ps) + "\"" == PartText(ps[0]) + rest;
      SpelledSplit(t, i, PartText(ps[0]), rest);
      PartReads(t, i, ps[0]);
      PartsRead(t, i + |PartText(ps[0])|, ps[1..]);
    }
  }

  lemma StringReads(cfg: Numbers, t: Text, i: nat, ps: seq<Part>)
    requires LegalParts(ps) && Spelled(t, i, StringText(ps))
    ensures NextToken(cfg, t, i) == (TStr(PartsBytes(ps)), i + |StringText(ps)|)
  {
    hide Unquote, NextToken, Spelled, LegalParts, PartsText, PartsBytes;
    SpelledSplit(t, i, "\"", PartsText(ps) + "\"");
    FirstSpelled(t, i, "\"");
    PartsRead(t, i + 1, ps);
    StringToken(cfg, t, i);
  }

  // ----- Numbers -----

  /** Digits up to something that is none are a run. */
  lemma RunReads(t: Text, i: nat, s: Text)
    requires Digits(s) && Spelled(t, i, s) && !DecimalScan.IsDigit(DecimalScan.At(t, i + |s|))
    ensures DecimalScan.Run(t, i) == i + |s|
  {
    forall n | i <= n < i + |s| ensures DecimalScan.IsDigit(DecimalScan.At(t, n)) {
      assert t[i + (n - i)] == s[n - i];
    }
    DecimalScan.RunUnique(t, i, i + |s|);
  }

  lemma ExponentReads(t: Text, r: nat, e: Text)
    requires (e == [] || IsExponent(e)) && Spelled(t, r, e) && |t| == r + |e|
    ensures DecimalScan.ParseExponent(t, r).1 == |t|
  {
    hide DecimalScan.DigitsIn, DecimalScan.Run;
    if e != [] {
      assert t[r + 0] == e[0] && t[r + 1] == e[1];
      var k := if e[1] == '+' || e[1] == '-' then 2 else 1;
      assert e == e[..k] + e[k..];
      SpelledSplit(t, r, e[..k], e[k..]);
      assert DecimalScan.IsDigit(e[k]) by { assert e[k..][0] == e[k]; }
      RunReads(t, r + k, e[k..]);
    }
  }

  /** Where the parts of a numeral stand in its text. */
  lemma NumeralParts(n: Numeral)
    requires LegalNumeral(n)
    ensures var t, p := NumeralText(n), |Sign(n.minus)|; var q := p + |n.ip|; var f := q + if n.point then 1 else 0;
      && Spelled(t, p, n.ip) && Spelled(t, f, n.fp) && Spelled(t, f + |n.fp|, n.exponent)
      && |t| == f + |n.fp| + |n.exponent| > 0 && (n.point ==> t[q] == '.') && (n.minus ==> t[0] == '-')
      && (n.exponent != [] ==> t[f + |n.fp|] == 'e' || t[f + |n.fp|] == 'E')
  {
    hide Spelled, Digits;
    var sign, fraction := Sign(n.minus), Fraction(n);
    var t, q := NumeralText(n), |sign| + |n.ip|;
    FourParts(t, sign, n.ip, fraction, n.exponent);
    if n.point {
      SpelledSplit(t, q, ".", n.fp);
      FirstSpelled(t, q, ".");
    }
    if n.minus { FirstSpelled(t, 0, sign); }
    if n.exponent != [] { FirstSpelled(t, q + |fraction|, n.exponent); }
    if n.fp == [] { NothingSpelled(t, q + |fraction|); }
  }

  lemma FourParts(t: Text, a: Text, b: Text, c: Text, d: Text)
    requires t == a + (b + (c + d))
    ensures Spelled(t, 0, a) && Spelled(t, |a|, b) && Spelled(t, |a| + |b|, c) && Spelled(t, |a| + |b| + |c|, d)
    ensures |t| == |a| + |b| + |c| + |d|
  {
    hide Spelled;
    var cd := c + d;
    var bcd := b + cd;
    WholeSpelled(t);
    SpelledSplit(t, 0, a, bcd);
    SpelledSplit(t, |a|, b, cd);
    SpelledSplit(t, |a| + |b|, c, d);
  }

  lemma WholeSpelled(t: Text)
    ensures Spelled(t, 0, t)
  {}

  lemma NothingSpelled(t: Text, i: nat)
    requires i <= |t|
    ensures Spelled(t, i, [])
  {}

  lemma NumeralIsNumber(n: Numeral)
    requires LegalNumeral(n)
    ensures IsNumber(NumeralText(n))
  {
    hide DecimalScan.DigitsIn, DecimalScan.Run, DecimalScan.ParseExponent, Spelled, NumeralText, IsExponent,
      SameLetters;
    var t, p := NumeralText(n), |Sign(n.minus)|;
    var q := p + |n.ip|;
    var f := q + if n.point then 1 else 0;
    var r := f + |n.fp|;
    NumeralParts(n);
    RunReads(t, p, n.ip);
    if n.point { RunReads(t, f, n.fp); }
    ExponentReads(t, r, n.exponent);
    if n.ip != [] { FirstSpelled(t, p, n.ip); }
  }

  lemma Slices(t: Text, i: nat, j: nat, k: nat)
    requires i <= j <= k <= |t|
    ensures t[i..k] == t[i..j] + t[j..k]
  {}

  lemma RunDigits(t: Text, i: nat, j: nat)
    requires i <= j == DecimalScan.Run(t, i) && j <= |t|
    ensures Digits(t[i..j])
  {
    forall n | i <= n < j ensures DecimalScan.IsDigit(t[n]) {
      assert DecimalScan.IsDigit(DecimalScan.At(t, n));
    }
  }

  lemma ExponentOf(n: Text, r: nat)
    requires r <= |n| && DecimalScan.ParseExponent(n, r).1 == |n|
    ensures n[r..] == [] || IsExponent(n[r..])
  {
    hide DecimalScan.DigitsIn, DecimalScan.Run, Digits;
    if r < |n| {
      var k := if DecimalScan.At(n, r + 1) in "+-" then 2 else 1;
      RunDigits(n, r + k, |n|);
      var e := n[r..];
      assert e[0] == n[r] && e[1] == n[r + 1] && e[k..] == n[r + k..|n|];
    }
  }

  /** Two numbers the RFC does not have. */
  lemma LooseNumbers()
    ensures IsNumber("-.5") && IsNumber("5.")
  {
    hide IsNumber;
    var half, five := Numeral(true, "", true, "5", ""), Numeral(false, "5", true, "", "");
    NumeralIsNumber(half);
    NumeralIsNumber(five);
    assert NumeralText(half) == "-.5" && NumeralText(five) == "5.";
  }

  /** Every number text is a numeral. */
  lemma NumeralOf(n: Text) returns (m: Numeral)
    requires IsNumber(n)
    ensures LegalNumeral(m) && NumeralText(m) == n
  {
    hide DecimalScan.DigitsIn, DecimalScan.Run, DecimalScan.ParseExponent, SameLetters, Digits, IsExponent, NumeralText;
    var p := if n[0] == '-' then 1 else 0;
    var q := DecimalScan.Run(n, p);
    var point := DecimalScan.At(n, q) == '.';
    var f := if point then q + 1 else q;
    var r := if point then DecimalScan.Run(n, f) else q;
    ExponentAfter(n, r);
    RunDigits(n, p, q);
    FirstDigits(n, p, q);
    if point {
      RunDigits(n, f, r);
    } else {
      NoDigits();
      assert n[f..r] == [];
    }
    ExponentOf(n, r);
    m := Numeral(n[0] == '-', n[p..q], point, n[f..r], n[r..]);
    Joined(n, p, q, f, r, m);
  }

  lemma Joined(n: Text, p: nat, q: nat, f: nat, r: nat, m: Numeral)
    requires n != [] && p == (if n[0] == '-' then 1 else 0) && p <= q <= f <= r <= |n|
    requires m == Numeral(n[0] == '-', n[p..q], f == q + 1, n[f..r], n[r..])
    requires f == q || (f == q + 1 && n[q] == '.')
    requires f == q ==> f == r
    ensures NumeralText(m) == n
  {
    assert Sign(m.minus) == n[..p] && Fraction(m) == n[q..r];
    hide Sign, Fraction;
    InFour(n, p, q, r);
  }

  lemma InFour(n: Text, p: nat, q: nat, r: nat)
    requires p <= q <= r <= |n|
    ensures n[..p] + (n[p..q] + (n[q..r] + n[r..])) == n
  {
    assert n[q..r] + n[r..] == n[q..];
    assert n[p..q] + n[q..] == n[p..];
  }

  lemma NoDigits()
    ensures Digits([])
  {}

  lemma FirstDigits(n: Text, p: nat, q: nat)
    requires IsNumber(n) && p == (if n[0] == '-' then 1 else 0) && q == DecimalScan.Run(n, p) && q <= |n|
    ensures q - p > 1 ==> n[p] != '0'
    ensures p == 0 ==> q > 0
  {
    hide DecimalScan.DigitsIn, DecimalScan.Parse;
    if q - p > 1 {
      assert DecimalScan.IsDigit(DecimalScan.At(n, p + 1));
    }
  }

  // ----- Trees -----

  lemma TableReads(cfg: Numbers, t: Text, i: nat, d: nat, max: nat)
    requires i < |t|
    ensures Spelled(t, i, "[") ==>
      NextToken(cfg, t, i) == (ArrBegin, i + 1) && ValueAt(cfg, t, i, d, max) == DecodeArray(cfg, t, i + 1, d, max)
    ensures Spelled(t, i, "{") ==>
      NextToken(cfg, t, i) == (ObjBegin, i + 1) && ValueAt(cfg, t, i, d, max) == DecodeObject(cfg, t, i + 1, d, max)
  {
    hide NextToken, Spelled, DecodeArray, DecodeObject;
    if Spelled(t, i, "[") { PunctuationToken(cfg, t, i, '['); }
    if Spelled(t, i, "{") { PunctuationToken(cfg, t, i, '{'); }
  }

  /** The text of a tree, wherever it stands before a delimiter, is read as what it stands for, and
      nothing more of the text is read. */
  lemma {:induction false} FormReads(cfg: Numbers, t: Text, i: nat, f: Form, d: nat, max: nat)
    requires Legal(f) && d + FormDepth(f) <= max
    requires Spelled(t, i, FormText(f)) && Delimiter(At(t, i + |FormText(f)|))
    ensures ValueAt(cfg, t, i, d, max) == Some((Meaning(f), i + |FormText(f)|))
    ensures NextToken(cfg, t, i).0 !in {End, Error, ArrEnd, ObjEnd}
    decreases f, 0
  {
    hide *;
    match f
    case FArr(_, _) => ArrayReads(cfg, t, i, f, d, max);
    case FObj(_, _) => ObjectReads(cfg, t, i, f, d, max);
    case FNum(n) => NumberReads(cfg, t, i, n, d, max);
    case FStr(ps) => TextFormReads(cfg, t, i, ps, d, max);
    case _ => WordReads(cfg, t, i, f, d, max);
  }

  lemma WordReads(cfg: Numbers, t: Text, i: nat, f: Form, d: nat, max: nat)
    requires (f.FNull? || f.FBool?) && Spelled(t, i, FormText(f))
    ensures ValueAt(cfg, t, i, d, max) == Some((Meaning(f), i + |FormText(f)|))
    ensures NextToken(cfg, t, i).0 !in {End, Error, ArrEnd, ObjEnd}
  {
    hide Spelled, NextToken;
    WordToken(cfg, t, i, FormText(f));
  }

  lemma NumberReads(cfg: Numbers, t: Text, i: nat, n: Numeral, d: nat, max: nat)
    requires Legal(FNum(n)) && Spelled(t, i, FormText(FNum(n))) && Delimiter(At(t, i + |FormText(FNum(n))|))
    ensures ValueAt(cfg, t, i, d, max) == Some((Meaning(FNum(n)), i + |FormText(FNum(n))|))
    ensures NextToken(cfg, t, i).0 !in {End, Error, ArrEnd, ObjEnd}
  {
    hide Spelled, NextToken, NumeralText, LegalNumeral, IsNumber, Delimiter;
    NumeralIsNumber(n);
    NumberFirst(cfg, t, i, NumeralText(n));
  }

  lemma TextFormReads(cfg: Numbers, t: Text, i: nat, ps: seq<Part>, d: nat, max: nat)
    requires Legal(FStr(ps)) && Spelled(t, i, FormText(FStr(ps)))
    ensures ValueAt(cfg, t, i, d, max) == Some((Meaning(FStr(ps)), i + |FormText(FStr(ps))|))
    ensures NextToken(cfg, t, i).0 !in {End, Error, ArrEnd, ObjEnd}
  {
    hide Spelled, NextToken, PartsText, PartsBytes, LegalParts, StringText;
    StringReads(cfg, t, i, ps);
  }

  /** What stands behind the opening bracket. */
  function ArrayBodyText(f: Form): Text
    requires f.FArr?
  {
    if f.items == [] then f.space + "]" else ItemsText(f.items)
  }

  function ObjectBodyText(f: Form): Text
    requires f.FObj?
  {
    if f.members == [] then f.space + "}" else MembersText(f.members)
  }

  lemma ArrayText(f: Form)
    requires f.FArr?
    ensures FormText(f) == "[" + ArrayBodyText(f)
  {
    hide ItemsText;
  }

  lemma ObjectText(f: Form)
    requires f.FObj?
    ensures FormText(f) == "{" + ObjectBodyText(f)
  {
    hide MembersText;
  }

  lemma {:induction false} ArrayReads(cfg: Numbers, t: Text, i: nat, f: Form, d: nat, max: nat)
    requires f.FArr? && Legal(f) && d + FormDepth(f) <= max && Spelled(t, i, FormText(f))
    ensures ValueAt(cfg, t, i, d, max) == Some((Meaning(f), i + |FormText(f)|)) && NextToken(cfg, t, i).0 == ArrBegin
    decreases f.items, 4
  {
    hide *;
    var body := ArrayBodyText(f);
    ArrayText(f);
    SpelledSplit(t, i, "[", body);
    FirstSpelled(t, i, "[");
    TableReads(cfg, t, i, d, max);
    ArrayBody(cfg, t, i + 1, f, d, max);
  }

  lemma {:induction false} ArrayBody(cfg: Numbers, t: Text, i: nat, f: Form, d: nat, max: nat)
    requires f.FArr? && Legal(f) && d + FormDepth(f) <= max
    requires Spelled(t, i, ArrayBodyText(f))
    ensures DecodeArray(cfg, t, i, d, max) == Some((Meaning(f), i - 1 + |FormText(f)|))
    decreases f.items, 3
  {
    hide Spelled, NextToken, DecodeItems, ItemsText;
    ArrayText(f);
    hide FormText;
    if f.items == [] {
      EmptyReads(cfg, t, i, f.space, ']');
    } else {
      ItemsRead(cfg, t, i, f.items, d + 1, max, []);
      assert [] + ItemsMeaning(f.items) == ItemsMeaning(f.items);
    }
  }

  lemma {:induction false} ObjectReads(cfg: Numbers, t: Text, i: nat, f: Form, d: nat, max: nat)
    requires f.FObj? && Legal(f) && d + FormDepth(f) <= max && Spelled(t, i, FormText(f))
    ensures ValueAt(cfg, t, i, d, max) == Some((Meaning(f), i + |FormText(f)|)) && NextToken(cfg, t, i).0 == ObjBegin
    decreases f.members, 5
  {
    hide *;
    var body := ObjectBodyText(f);
    ObjectText(f);
    SpelledSplit(t, i, "{", body);
    FirstSpelled(t, i, "{");
    TableReads(cfg, t, i, d, max);
    ObjectBody(cfg, t, i + 1, f, d, max);
  }

  lemma {:induction false} ObjectBody(cfg: Numbers, t: Text, i: nat, f: Form, d: nat, max: nat)
    requires f.FObj? && Legal(f) && d + FormDepth(f) <= max
    requires Spelled(t, i, ObjectBodyText(f))
    ensures DecodeObject(cfg, t, i, d, max) == Some((Meaning(f), i - 1 + |FormText(f)|))
    decreases f.members, 4
  {
    hide Spelled, NextToken, DecodeMembers, MembersText;
    ObjectText(f);
    hide FormText;
    if f.members == [] {
      EmptyReads(cfg, t, i, f.space, '}');
    } else {
      MembersRead(cfg, t, i, f.members, d + 1, max, []);
    }
  }

  /** White space and a closing bracket. */
  lemma EmptyReads(cfg: Numbers, t: Text, i: nat, space: Text, c: Byte)
    requires AllSpace(space) && (c == ']' || c == '}') && Spelled(t, i, space + [c])
    ensures NextToken(cfg, t, i) == (Punctuation(c), i + |space| + 1)
  {
    hide Spelled, NextToken;
    SpelledSplit(t, i, space, [c]);
    SpaceSkipped(cfg, t, i, space);
    PunctuationToken(cfg, t, i + |space|, c);
  }

  /** A value with white space around it; the token behind it is what it would be behind the space. */
  lemma {:induction false} SpacedReads(cfg: Numbers, t: Text, i: nat, s: Spaced, d: nat, max: nat)
    requires LegalSpaced(s) && d + FormDepth(s.form) <= max
    requires Spelled(t, i, SpacedText(s)) && Delimiter(At(t, i + |SpacedText(s)|))
    ensures var k, e := i + |s.before| + |FormText(s.form)|, i + |SpacedText(s)|;
      && k <= |t| && ValueAt(cfg, t, i, d, max) == Some((Meaning(s.form), k))
      && NextToken(cfg, t, k) == NextToken(cfg, t, e)
    ensures NextToken(cfg, t, i).0 !in {End, Error, ArrEnd, ObjEnd}
    decreases s, 1
  {
    hide Spelled, NextToken, DecodeValue, FormText, FormDepth, Legal, Meaning;
    var j := i + |s.before|;
    var k := j + |FormText(s.form)|;
    SpelledSplit(t, i, s.before, FormText(s.form) + s.after);
    SpelledSplit(t, j, FormText(s.form), s.after);
    SpaceSkipped(cfg, t, i, s.before);
    SpaceSkipped(cfg, t, k, s.after);
    BeforeSpace(t, k, s.after);
    FormReads(cfg, t, j, s.form, d, max);
  }

  lemma BeforeSpace(t: Text, k: nat, space: Text)
    requires AllSpace(space) && Spelled(t, k, space) && Delimiter(At(t, k + |space|))
    ensures Delimiter(At(t, k))
  {
    if space != [] { FirstSpelled(t, k, space); }
  }

  /** The items behind an opening bracket, up to the closing one. */
  lemma {:induction false} ItemsRead(cfg: Numbers, t: Text, i: nat, items: seq<Spaced>, d: nat, max: nat,
                                     acc: seq<Value>)
    requires items != [] && LegalItems(items) && d + ItemsFormDepth(items) <= max && Spelled(t, i, ItemsText(items))
    ensures var (tok, j) := NextToken(cfg, t, i);
      tok !in {End, Error, ArrEnd}
      && DecodeItems(cfg, t, tok, j, d, max, acc) == Some((Arr(acc + ItemsMeaning(items)), i + |ItemsText(items)|))
    decreases items, 2
  {
    hide *;
    var x := items[0];
    var k, e := i + |x.before| + |FormText(x.form)|, i + |SpacedText(x)|;
    FirstItem(cfg, t, i, items);
    ItemsShape(items);
    var v := Meaning(x.form);
    SpacedReads(cfg, t, i, x, d, max);
    ItemsTurn(cfg, t, i, v, k, d, max, acc);
    if |items| == 1 {
      assert acc + [v] == acc + ItemsMeaning(items);
    } else {
      ItemsRead(cfg, t, e + 1, items[1..], d, max, acc + [v]);
      assert (acc + [v]) + ItemsMeaning(items[1..]) == acc + ([v] + ItemsMeaning(items[1..]));
    }
  }

  /** What is known of several items from the first and the others. */
  lemma ItemsShape(items: seq<Spaced>)
    requires items != [] && LegalItems(items)
    ensures LegalSpaced(items[0]) && Legal(items[0].form) && LegalItems(items[1..])
    ensures ItemsMeaning(items) == [Meaning(items[0].form)] + ItemsMeaning(items[1..])
    ensures |items| == 1 ==> ItemsMeaning(items[1..]) == []
    ensures FormDepth(items[0].form) <= ItemsFormDepth(items) && ItemsFormDepth(items[1..]) <= ItemsFormDepth(items)
  {
    ItemsLegal(items);
    ItemsNest(items);
    hide LegalItems, LegalSpaced, Legal, FormDepth, ItemsFormDepth, Meaning;
  }

  lemma ItemsLegal(items: seq<Spaced>)
    requires items != [] && LegalItems(items)
    ensures LegalSpaced(items[0]) && Legal(items[0].form) && LegalItems(items[1..])
  {
    assert LegalSpaced(items[0]);
    hide Legal;
  }

  lemma ItemsNest(items: seq<Spaced>)
    requires items != []
    ensures FormDepth(items[0].form) <= ItemsFormDepth(items) && ItemsFormDepth(items[1..]) <= ItemsFormDepth(items)
  {
    hide FormDepth;
  }

  /** The text of the first item and the comma or bracket behind it. */
  lemma FirstItem(cfg: Numbers, t: Text, i: nat, items: seq<Spaced>)
    requires items != [] && Spelled(t, i, ItemsText(items))
    ensures var e := i + |SpacedText(items[0])|;
      && Spelled(t, i, SpacedText(items[0])) && e < |t| && Delimiter(At(t, e))
      && NextToken(cfg, t, e) == (if |items| == 1 then ArrEnd else Comma, e + 1)
      && (|items| == 1 ==> i + |ItemsText(items)| == e + 1)
      && (|items| > 1 ==> i + |ItemsText(items)| == e + 1 + |ItemsText(items[1..])|
                          && Spelled(t, e + 1, ItemsText(items[1..])))
  {
    hide Spelled, NextToken, SpacedText, ItemsText;
    var text, sep := SpacedText(items[0]), if |items| == 1 then "]" else ",";
    var rest := if |items| == 1 then "" else ItemsText(items[1..]);
    ItemsOpened(items);
    SplitOff(cfg, t, i, text, sep, rest);
  }

  lemma ItemsOpened(items: seq<Spaced>)
    requires items != []
    ensures ItemsText(items)
         == SpacedText(items[0]) + if |items| == 1 then "]" + "" else "," + ItemsText(items[1..])
  {
    hide SpacedText;
  }

  lemma MembersOpened(members: seq<Entry>)
    requires members != []
    ensures MembersText(members)
         == EntryText(members[0]) + if |members| == 1 then "}" + "" else "," + MembersText(members[1..])
  {
    hide EntryText;
  }

  /** A text, one character of punctuation, and the rest. */
  lemma SplitOff(cfg: Numbers, t: Text, i: nat, text: Text, sep: Text, rest: Text)
    requires |sep| == 1 && sep[0] in "{}[],:" && Spelled(t, i, text + (sep + rest))
    ensures var e := i + |text|;
      && Spelled(t, i, text) && e < |t| && t[e] == sep[0] && Spelled(t, e + 1, rest)
      && NextToken(cfg, t, e) == (Punctuation(sep[0]), e + 1)
  {
    hide Spelled, NextToken, Punctuation;
    var e := i + |text|;
    SpelledSplit(t, i, text, sep + rest);
    SpelledSplit(t, e, sep, rest);
    FirstSpelled(t, e, sep);
    assert sep == [sep[0]];
    PunctuationToken(cfg, t, e, sep[0]);
  }

  /** One item and what stands behind it. */
  lemma ItemsTurn(cfg: Numbers, t: Text, i: nat, x: Value, j: nat, d: nat, max: nat, acc: seq<Value>)
    requires i <= |t| && j <= |t| && ValueAt(cfg, t, i, d, max) == Some((x, j))
    ensures var (tok, k) := NextToken(cfg, t, i); var (sep, n) := NextToken(cfg, t, j);
      && (sep == ArrEnd ==> DecodeItems(cfg, t, tok, k, d, max, acc) == Some((Arr(acc + [x]), n)))
      && (sep == Comma ==>
            var (next, m) := NextToken(cfg, t, n);
            DecodeItems(cfg, t, tok, k, d, max, acc) == DecodeItems(cfg, t, next, m, d, max, acc + [x]))
  {
    hide NextToken, DecodeValue;
  }

  /** The key, the colon and the value of a member, at c, with the token behind it. */
  lemma {:induction false} EntryReads(cfg: Numbers, t: Text, i: nat, m: Entry, d: nat, max: nat)
    returns (c: nat, k: nat)
    requires LegalEntry(m) && LegalSpaced(m.value) && d + FormDepth(m.value.form) <= max
    requires Spelled(t, i, EntryText(m)) && Delimiter(At(t, i + |EntryText(m)|))
    ensures NextToken(cfg, t, i).0 == TStr(PartsBytes(m.key)) && NextToken(cfg, t, NextToken(cfg, t, i).1) == (Colon, c)
    ensures c <= |t| && k <= |t| && ValueAt(cfg, t, c, d, max) == Some((Meaning(m.value.form), k))
    ensures NextToken(cfg, t, k) == NextToken(cfg, t, i + |EntryText(m)|)
    decreases m, 2
  {
    hide Spelled, NextToken, ValueAt, SpacedText, StringText, FormText, FormDepth, LegalParts, LegalSpaced, Meaning,
      PartsBytes;
    var j := i + |m.before|;
    var e := j + |StringText(m.key)|;
    c := e + |m.middle| + 1;
    SpelledSplit(t, i, m.before, StringText(m.key) + (m.middle + (":" + SpacedText(m.value))));
    SpelledSplit(t, j, StringText(m.key), m.middle + (":" + SpacedText(m.value)));
    SpelledSplit(t, e, m.middle, ":" + SpacedText(m.value));
    SpelledSplit(t, c - 1, ":", SpacedText(m.value));
    SpaceSkipped(cfg, t, i, m.before);
    StringReads(cfg, t, j, m.key);
    SpaceSkipped(cfg, t, e, m.middle);
    PunctuationToken(cfg, t, c - 1, ':');
    SpacedReads(cfg, t, c, m.value, d, max);
    k := c + |m.value.before| + |FormText(m.value.form)|;
  }

  lemma {:induction false} MembersRead(cfg: Numbers, t: Text, i: nat, members: seq<Entry>, d: nat, max: nat,
                                       acc: seq<Member>)
    requires members != [] && LegalMembers(members) && d + MembersFormDepth(members) <= max
    requires Spelled(t, i, MembersText(members))
    ensures var (tok, j) := NextToken(cfg, t, i);
      tok.TStr? && DecodeMembers(cfg, t, tok, j, d, max, acc)
                == Some((Obj(MembersMeaning(members, acc)), i + |MembersText(members)|))
    decreases members, 3
  {
    hide *;
    var m := members[0];
    FirstEntry(cfg, t, i, members);
    MembersShape(members, acc);
    var c, k := EntryReads(cfg, t, i, m, d, max);
    MembersTurn(cfg, t, i, c, Meaning(m.value.form), k, d, max, acc);
    if |members| > 1 {
      var acc' := SetKey(acc, PartsBytes(m.key), Meaning(m.value.form));
      MembersRead(cfg, t, i + |EntryText(m)| + 1, members[1..], d, max, acc');
    }
  }

  lemma MembersShape(members: seq<Entry>, acc: seq<Member>)
    requires members != [] && LegalMembers(members)
    ensures var m := members[0];
      && LegalEntry(m) && LegalSpaced(m.value) && LegalParts(m.key) && Legal(m.value.form) && LegalMembers(members[1..])
      && (var acc' := SetKey(acc, PartsBytes(m.key), Meaning(m.value.form));
          MembersMeaning(members, acc) == if |members| == 1 then acc' else MembersMeaning(members[1..], acc'))
      && FormDepth(m.value.form) <= MembersFormDepth(members)
      && MembersFormDepth(members[1..]) <= MembersFormDepth(members)
  {
    assert LegalEntry(members[0]) && LegalSpaced(members[0].value);
    hide FormDepth, Meaning, PartsBytes;
  }

  /** The text of the first member and the comma or bracket behind it. */
  lemma FirstEntry(cfg: Numbers, t: Text, i: nat, members: seq<Entry>)
    requires members != [] && Spelled(t, i, MembersText(members))
    ensures var e := i + |EntryText(members[0])|;
      && Spelled(t, i, EntryText(members[0])) && e < |t| && Delimiter(At(t, e))
      && NextToken(cfg, t, e) == (if |members| == 1 then ObjEnd else Comma, e + 1)
      && (|members| == 1 ==> i + |MembersText(members)| == e + 1)
      && (|members| > 1 ==> i + |MembersText(members)| == e + 1 + |MembersText(members[1..])|
                            && Spelled(t, e + 1, MembersText(members[1..])))
  {
    hide Spelled, NextToken, EntryText, MembersText;
    var text, sep := EntryText(members[0]), if |members| == 1 then "}" else ",";
    var rest := if |members| == 1 then "" else MembersText(members[1..]);
    MembersOpened(members);
    SplitOff(cfg, t, i, text, sep, rest);
  }

  /** One member and what stands behind it. */
  lemma MembersTurn(cfg: Numbers, t: Text, i: nat, c: nat, v: Value, n: nat, d: nat, max: nat, acc: seq<Member>)
    requires i <= |t| && c <= |t| && n <= |t| && NextToken(cfg, t, i).0.TStr?
    requires NextToken(cfg, t, NextToken(cfg, t, i).1) == (Colon, c) && ValueAt(cfg, t, c, d, max) == Some((v, n))
    ensures
      var (tok, j) := NextToken(cfg, t, i);
      var (sep, k) := NextToken(cfg, t, n);
      var acc' := SetKey(acc, tok.s, v);
      && (sep == ObjEnd ==> DecodeMembers(cfg, t, tok, j, d, max, acc) == Some((Obj(acc'), k)))
      && (sep == Comma ==>
            var (next, m) := NextToken(cfg, t, k);
            DecodeMembers(cfg, t, tok, j, d, max, acc) == DecodeMembers(cfg, t, next, m, d, max, acc'))
  {
    hide NextToken;
  }

  // ----- Whole texts -----

  /** A text of the grammar, at whose end or behind which a zero byte ends the reading. */
  ghost predicate Begins(t: Text, s: Spaced) {
    LegalSpaced(s) && Spelled(t, 0, SpacedText(s)) && At(t, |SpacedText(s)|) == '\0'
  }

  /** A zero byte among the first two gives away another encoding. */
  predicate LooksLikeUtf8(t: Text) { |t| < 2 || (t[0] != '\0' && t[1] != '\0') }

  lemma TextReads(cfg: Numbers, t: Text, s: Spaced, max: nat)
    requires Begins(t, s) && LooksLikeUtf8(t) && FormDepth(s.form) <= max
    ensures Legal(s.form) && Decode(cfg, t, max) == Some(Meaning(s.form))
  {
    hide Spelled, NextToken, SpacedText, DecodeValue, Legal, FormText, Meaning, FormDepth;
    SpacedReads(cfg, t, 0, s, 0, max);
    EndToken(cfg, t, |SpacedText(s)|);
  }

  /** Every text of the grammar within the depth limit is read, under either number setting, and as what
      it stands for. */
  lemma GrammarReads(cfg: Numbers, s: Spaced, max: nat)
    requires LegalSpaced(s) && FormDepth(s.form) <= max
    ensures Legal(s.form) && Decode(cfg, SpacedText(s), max) == Some(Meaning(s.form))
  {
    hide Spelled, SpacedText, FormDepth, Legal;
    var t := SpacedText(s);
    WholeSpelled(t);
    SpacedHasNoNul(s);
    TextReads(cfg, t, s, max);
  }

  ghost predicate NulFree(t: Text) { forall i :: 0 <= i < |t| ==> t[i] != '\0' }

  lemma NoNulTogether(a: Text, b: Text)
    requires NulFree(a) && NulFree(b)
    ensures NulFree(a + b)
  {}

  lemma PlainNoNul(t: Text)
    requires AllSpace(t) || Digits(t)
    ensures NulFree(t)
  {}

  lemma HexHasNoNul(h: Text, u: nat)
    requires FourHex(h, u)
    ensures NulFree(h)
  {}

  lemma {:induction false} PartsHaveNoNul(ps: seq<Part>)
    requires LegalParts(ps)
    ensures NulFree(PartsText(ps))
    decreases ps
  {
    if ps != [] {
      PartHasNoNul(ps[0]);
      PartsHaveNoNul(ps[1..]);
      hide NulFree, LegalPart, PartText;
      NoNulTogether(PartText(ps[0]), PartsText(ps[1..]));
    }
  }

  lemma PartHasNoNul(p: Part)
    requires LegalPart(p)
    ensures NulFree(PartText(p))
  {
    match p
    case Unit(u, h) => HexHasNoNul(h, u);
    case Pair(u, h, l, h') =>
      HexHasNoNul(h, u);
      HexHasNoNul(h', l);
    case _ =>
  }

  lemma StringHasNoNul(ps: seq<Part>)
    requires LegalParts(ps)
    ensures NulFree(StringText(ps))
  {
    PartsHaveNoNul(ps);
    hide PartsText, LegalParts;
  }

  lemma NumeralHasNoNul(n: Numeral)
    requires LegalNumeral(n)
    ensures NulFree(NumeralText(n))
  {
    PlainNoNul(n.ip);
    PlainNoNul(n.fp);
    ExponentHasNoNul(n.exponent);
    hide Digits, IsExponent;
  }

  lemma ExponentHasNoNul(e: Text)
    requires e == [] || IsExponent(e)
    ensures NulFree(e)
  {
    if e != [] {
      var k := if e[1] == '+' || e[1] == '-' then 2 else 1;
      PlainNoNul(e[k..]);
      assert e == e[..k] + e[k..];
      NoNulTogether(e[..k], e[k..]);
    }
  }

  lemma {:induction false} FormHasNoNul(f: Form)
    requires Legal(f)
    ensures NulFree(FormText(f))
    decreases f, 0
  {
    hide PartsText, LegalParts, NumeralText, LegalNumeral, ItemsText, MembersText, LegalItems, LegalMembers;
    match f
    case FNum(n) => NumeralHasNoNul(n);
    case FStr(ps) => StringHasNoNul(ps);
    case FArr(space, items) => PlainNoNul(space); ItemsHaveNoNul(items);
    case FObj(space, members) => PlainNoNul(space); MembersHaveNoNul(members);
    case _ =>
  }

  lemma {:induction false} SpacedHasNoNul(s: Spaced)
    requires LegalSpaced(s)
    ensures NulFree(SpacedText(s))
    decreases s, 1
  {
    hide FormText, Legal;
    FormHasNoNul(s.form);
    PlainNoNul(s.before);
    PlainNoNul(s.after);
  }

  lemma {:induction false} ItemsHaveNoNul(items: seq<Spaced>)
    requires LegalItems(items)
    ensures NulFree(ItemsText(items))
    decreases items, 2
  {
    if items != [] {
      ItemsLegal(items);
      hide SpacedText, Legal, LegalSpaced;
      SpacedHasNoNul(items[0]);
      ItemsHaveNoNul(items[1..]);
    }
  }

  lemma {:induction false} MembersHaveNoNul(members: seq<Entry>)
    requires LegalMembers(members)
    ensures NulFree(MembersText(members))
    decreases members, 3
  {
    if members != [] {
      EntryHasNoNul(members[0]);
      hide EntryText, LegalEntry;
      MembersHaveNoNul(members[1..]);
    }
  }

  lemma {:induction false} EntryHasNoNul(m: Entry)
    requires LegalEntry(m)
    ensures NulFree(EntryText(m))
    decreases m, 2
  {
    hide SpacedText, LegalSpaced, StringText, LegalParts;
    PlainNoNul(m.before);
    PlainNoNul(m.middle);
    StringHasNoNul(m.key);
    SpacedHasNoNul(m.value);
  }
}
