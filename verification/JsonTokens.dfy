/** What single tokens are read as, wherever they stand in a text (lua_cjson.c: json_next_token,
    json_next_number_token). */
module JsonTokens {
  import opened Options
  import opened JsonText
  import opened JsonCodec
  import DecimalScan

  /** Bytes that may follow a value. */
  predicate Delimiter(c: char) {
    c == ',' || c == ']' || c == '}' || c == '\0' || c == ' ' || c == '\t' || c == '\n' || c == '\r'
  }

  // ----- Numbers -----

  /** A number text inside a longer one is scanned alike. */
  lemma {:induction false} RunInside(n: Text, k: nat, t: Text, i: nat)
    requires k <= |n| && Spelled(t, i, n) && Delimiter(At(t, i + |n|))
    ensures DecimalScan.Run(n, k) <= |n| && DecimalScan.Run(t, i + k) == i + DecimalScan.Run(n, k)
    decreases |n| - k
  {
    if k < |n| {
      assert t[i + k] == n[k];
      RunInside(n, k + 1, t, i);
    }
  }

  lemma SameChar(n: Text, k: nat, t: Text, i: nat)
    requires k <= |n| && Spelled(t, i, n) && Delimiter(At(t, i + |n|))
    ensures k < |n| ==> DecimalScan.At(t, i + k) == DecimalScan.At(n, k) == n[k]
    ensures k == |n| ==> DecimalScan.At(n, k) == '\0' && Delimiter(DecimalScan.At(t, i + k))
  {}

  lemma NumberInside(cfg: Numbers, n: Text, t: Text, i: nat)
    requires IsNumber(n) && Spelled(t, i, n) && Delimiter(At(t, i + |n|))
    ensures NumberToken(cfg, t, i) == (TNum(n), i + |n|)
  {
    hide DecimalScan.Parse, SameLetters, Spelled;
    var p := if n[0] == '-' then 1 else 0;
    SameChar(n, 0, t, i);
    ParseInside(n, p, t, i);
    assert NumberEnd(t, i) == i + |n|;
    ValidInside(n, t, i);
    SpelledText(t, i, n);
  }

  lemma SpelledText(t: Text, i: nat, n: Text)
    requires Spelled(t, i, n)
    ensures i + |n| <= |t| && t[i..i + |n|] == n
  {}

  /** The end of a number that fills its own text carries over. */
  lemma ParseInside(n: Text, p: nat, t: Text, i: nat)
    requires p <= |n| && Spelled(t, i, n) && Delimiter(At(t, i + |n|))
    requires DecimalScan.Parse(n, p).Literal? && DecimalScan.Parse(n, p).end == |n|
    ensures DecimalScan.Parse(t, i + p).Literal? && DecimalScan.Parse(t, i + p).end == i + |n|
  {
    hide DecimalScan.DigitsIn, DecimalScan.Run, DecimalScan.ParseExponent, Spelled;
    var q := DecimalScan.Run(n, p);
    RunInside(n, p, t, i);
    SameChar(n, q, t, i);
    ExponentAfter(n, q);
    if DecimalScan.At(n, q) == '.' {
      var r := DecimalScan.Run(n, q + 1);
      RunInside(n, q + 1, t, i);
      ExponentAfter(n, r);
      ExponentInside(n, r, t, i);
    } else {
      ExponentInside(n, q, t, i);
    }
  }

  lemma ExponentAfter(n: Text, r: nat)
    ensures r <= DecimalScan.ParseExponent(n, r).1
  {
    hide DecimalScan.DigitsIn, DecimalScan.Run;
  }

  lemma ExponentInside(n: Text, r: nat, t: Text, i: nat)
    requires r <= |n| && Spelled(t, i, n) && Delimiter(At(t, i + |n|))
    requires DecimalScan.ParseExponent(n, r).1 == |n|
    ensures DecimalScan.ParseExponent(t, i + r).1 == i + |n|
  {
    hide DecimalScan.DigitsIn, DecimalScan.Run, Spelled;
    SameChar(n, r, t, i);
    if r == |n| { return; }
    SameChar(n, r + 1, t, i);
    var a := if DecimalScan.At(n, r + 1) in "+-" then r + 2 else r + 1;
    RunInside(n, a, t, i);
  }

  lemma ValidInside(n: Text, t: Text, i: nat)
    requires IsNumber(n) && Spelled(t, i, n) && Delimiter(At(t, i + |n|))
    ensures !InvalidNumber(t, i)
  {
    hide DecimalScan.Parse;
    SameChar(n, 0, t, i);
    var p := if n[0] == '-' then 1 else 0;
    SameChar(n, p, t, i);
    if p < |n| {
      SameChar(n, p + 1, t, i);
    }
  }

  // ----- Tokens of encoded text -----

  function Punctuation(c: Byte): Token {
    match c
    case '{' => ObjBegin
    case '}' => ObjEnd
    case '[' => ArrBegin
    case ']' => ArrEnd
    case ',' => Comma
    case _ => Colon
  }

  lemma PunctuationToken(cfg: Numbers, t: Text, i: nat, c: Byte)
    requires Spelled(t, i, [c]) && c in "{}[],:"
    ensures NextToken(cfg, t, i) == (Punctuation(c), i + 1)
  {
    assert t[i + 0] == [c][0];
  }

  lemma FirstSpelled(t: Text, i: nat, e: Text)
    requires Spelled(t, i, e) && e != []
    ensures i < |t| && t[i] == e[0]
  {
    assert t[i + 0] == e[0];
  }

  lemma StringToken(cfg: Numbers, t: Text, i: nat)
    requires i < |t| && t[i] == '\"' && Unquote(t, i + 1).Some?
    ensures var (s, end) := Unquote(t, i + 1).value; NextToken(cfg, t, i) == (TStr(s), end)
  {
    hide Unquote;
  }

  lemma WordToken(cfg: Numbers, t: Text, i: nat, w: string)
    requires w in {"null", "true", "false"} && Spelled(t, i, w)
    ensures NextToken(cfg, t, i) == (if w == "null" then TNull else TBool(w == "true"), i + |w|)
  {
    FirstSpelled(t, i, w);
    assert t[i..i + |w|] == w;
  }

  lemma NumberFirst(cfg: Numbers, t: Text, i: nat, n: Text)
    requires IsNumber(n) && Spelled(t, i, n) && Delimiter(At(t, i + |n|))
    ensures NextToken(cfg, t, i) == (TNum(n), i + |n|)
  {
    hide Spelled, NumberToken, NumberEnd, InvalidNumber;
    FirstSpelled(t, i, n);
    NumberInside(cfg, n, t, i);
  }

  lemma EndToken(cfg: Numbers, t: Text, i: nat)
    requires i <= |t| && At(t, i) == '\0'
    ensures NextToken(cfg, t, i) == (End, i)
  {}

  // ----- Number forms that strict JSON does not have -----

  /** A word in capital letters, small letters, or both. */
  ghost predicate InAnyCase(t: Text, i: nat, small: string, large: string)
    requires |small| == |large|
  {
    i + |small| <= |t| && forall k :: 0 <= k < |small| ==> t[i + k] == small[k] || t[i + k] == large[k]
  }

  lemma {:induction false} LettersAre(t: Text, i: nat, small: string, large: string)
    requires i <= |t| && |small| == |large|
    requires forall k :: 0 <= k < |small| ==> 'a' <= small[k] <= 'z' && large[k] as int == small[k] as int - 32
    ensures SameLetters(t, i, small) <==> InAnyCase(t, i, small, large)
    decreases |small|
  {
    if small != "" && i < |t| {
      LettersAre(t, i + 1, small[1..], large[1..]);
      assert forall k :: 1 <= k < |small| ==> small[k] == small[1..][k - 1] && large[k] == large[1..][k - 1];
      if InAnyCase(t, i + 1, small[1..], large[1..]) {
        forall k | 1 <= k < |small| ensures t[i + k] == small[k] || t[i + k] == large[k] {
          assert t[i + 1 + (k - 1)] == small[1..][k - 1] || t[i + 1 + (k - 1)] == large[1..][k - 1];
        }
      }
      if InAnyCase(t, i, small, large) {
        forall k | 0 <= k < |small| - 1 ensures t[i + 1 + k] == small[1..][k] || t[i + 1 + k] == large[1..][k] {
          assert t[i + (k + 1)] == small[k + 1] || t[i + (k + 1)] == large[k + 1];
        }
      }
    }
  }

  /** They begin with a plus sign, or behind a minus sign or none with a needless zero, a hexadecimal
      prefix, or one of two words in any case. */
  lemma InvalidIs(t: Text, i: nat)
    requires i <= |t|
    ensures var p := if At(t, i) == '-' then i + 1 else i;
      InvalidNumber(t, i) <==>
        || At(t, i) == '+'
        || (At(t, p) == '0' && (At(t, p + 1) == 'x' || At(t, p + 1) == 'X' || '0' <= At(t, p + 1) <= '9'))
        || InAnyCase(t, p, "inf", "INF") || InAnyCase(t, p, "nan", "NAN")
  {
    hide SameLetters;
    var p := if At(t, i) == '-' then i + 1 else i;
    LettersAre(t, p, "inf", "INF");
    LettersAre(t, p, "nan", "NAN");
    if InAnyCase(t, p, "inf", "INF") { FirstLetter(t, p, "inf", "INF"); }
    if InAnyCase(t, p, "nan", "NAN") { FirstLetter(t, p, "nan", "NAN"); }
  }

  lemma FirstLetter(t: Text, i: nat, small: string, large: string)
    requires |small| == |large| > 0 && InAnyCase(t, i, small, large)
    ensures i < |t| && (t[i] == small[0] || t[i] == large[0])
  {
    assert t[i + 0] == small[0] || t[i + 0] == large[0];
  }

  // ----- White space -----

  predicate IsSpace(c: char) { c == ' ' || c == '\t' || c == '\n' || c == '\r' }

  lemma SpaceIs(c: char)
    ensures IsSpace(c) <==> c as int in {9, 10, 13, 32}
  {}

  ghost predicate AllSpace(s: Text) { forall i :: 0 <= i < |s| ==> IsSpace(s[i]) }

  /** White space in front of a token is skipped. */
  lemma {:induction false} SpaceSkipped(cfg: Numbers, t: Text, i: nat, s: Text)
    requires AllSpace(s) && Spelled(t, i, s)
    ensures i + |s| <= |t| && NextToken(cfg, t, i) == NextToken(cfg, t, i + |s|)
  {
    SkipThrough(t, i, s);
    hide Unquote, NumberToken, Starts, InvalidNumber;
  }

  lemma {:induction false} SkipThrough(t: Text, i: nat, s: Text)
    requires AllSpace(s) && Spelled(t, i, s)
    ensures i + |s| <= |t| && SkipSpace(t, i) == SkipSpace(t, i + |s|)
    decreases |s|
  {
    if s != [] {
      FirstSpelled(t, i, s);
      assert s == [s[0]] + s[1..];
      SpelledSplit(t, i, [s[0]], s[1..]);
      SkipThrough(t, i + 1, s[1..]);
    }
  }

  /** And nothing else is. */
  lemma {:induction false} SkippedIsSpace(t: Text, i: nat)
    requires i <= |t|
    ensures AllSpace(t[i..SkipSpace(t, i)])
    decreases |t| - i
  {
    if i < |t| && t[i] in " \t\n\r" {
      SkippedIsSpace(t, i + 1);
      assert t[i..SkipSpace(t, i)] == [t[i]] + t[i + 1..SkipSpace(t, i)];
    }
  }

  // ----- Values -----

  /** What decoding makes of the text at i. */
  function ValueAt(cfg: Numbers, t: Text, i: nat, d: nat, max: nat): Option<(Value, nat)>
    requires i <= |t|
  {
    var (tok, j) := NextToken(cfg, t, i);
    DecodeValue(cfg, t, tok, j, d, max)
  }
}
