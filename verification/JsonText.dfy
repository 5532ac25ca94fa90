/** JSON strings: escaping, unescaping, and UTF-8 (lua_cjson.c: char2escape, decode_hex4,
    codepoint_to_utf8, json_append_unicode_escape, json_next_string_token). */
module JsonText {
  import opened Options

  /** One byte, as a character below 256. */
  type Byte = c: char | c as int < 256 witness 'a'

  type Text = seq<Byte>

  function ToByte(n: int): Byte
    requires 0 <= n < 256
  {
    n as char
  }

  /** The byte at i; the text is followed by a terminator, and nothing past it is ever read. */
  function At(t: Text, i: nat): Byte
    requires i <= |t|
  {
    if i < |t| then t[i] else '\0'
  }

  // ----- Escaping -----

  function HexDigit(d: int): Byte
    requires 0 <= d < 16
  {
    if d < 10 then ToByte('0' as int + d) else ToByte('a' as int + d - 10)
  }

  /** What is written for a byte inside a string. */
  function Escape(c: Byte): (e: Text)
    ensures 1 <= |e| <= 6
  {
    if c == '\"' then "\\\""
    else if c == '\\' then "\\\\"
    else if c == '/' then "\\/"
    else if c as int == 8 then "\\b"
    else if c as int == 9 then "\\t"
    else if c as int == 10 then "\\n"
    else if c as int == 12 then "\\f"
    else if c as int == 13 then "\\r"
    else if c as int < 32 || c as int == 127 then
      "\\u00" + [HexDigit(c as int / 16), HexDigit(c as int % 16)]
    else [c]
  }

  function EscapeAll(s: Text): Text {
    if s == [] then [] else Escape(s[0]) + EscapeAll(s[1..])
  }

  function Quote(s: Text): Text { "\"" + EscapeAll(s) + "\"" }

  // ----- Unescaping -----

  function HexValue(c: Byte): (v: Option<nat>)
    ensures v.Some? ==> v.value < 16 && c != '\0'
  {
    if '0' <= c <= '9' then Some(c as int - '0' as int)
    else if 'a' <= c <= 'f' then Some(c as int - 'a' as int + 10)
    else if 'A' <= c <= 'F' then Some(c as int - 'A' as int + 10)
    else None
  }

  /** Four hexadecimal digits at i; reading stops at the first byte that is none. */
  function Hex4(t: Text, i: nat): (r: Option<nat>)
    requires i <= |t|
    ensures r.Some? ==> i + 4 <= |t| && r.value < 0x10000
  {
    match HexValue(At(t, i))
    case None => None
    case Some(a) =>
      match HexValue(At(t, i + 1))
      case None => None
      case Some(b) =>
        match HexValue(At(t, i + 2))
        case None => None
        case Some(c) =>
          match HexValue(At(t, i + 3))
          case None => None
          case Some(d) => Some(a * 4096 + b * 256 + c * 16 + d)
  }

  /** A hexadecimal digit for a number, in either case. */
  ghost predicate HexIs(c: Byte, v: nat) {
    v < 16 && (c == "0123456789abcdef"[v] || c == "0123456789ABCDEF"[v])
  }

  /** At i stand the four digits of u, the highest first. */
  ghost predicate HexAt(t: Text, i: nat, u: nat) {
    i + 4 <= |t| && u < 0x10000
    && HexIs(t[i], u / 0x1000) && HexIs(t[i + 1], u / 0x100 % 16)
    && HexIs(t[i + 2], u / 16 % 16) && HexIs(t[i + 3], u % 16)
  }

  ghost predicate IsHexDigit(c: Byte) { c in "0123456789abcdefABCDEF" }

  lemma HexValueIs(c: Byte, v: nat)
    ensures HexValue(c) == Some(v) <==> HexIs(c, v)
    ensures HexValue(c).Some? <==> IsHexDigit(c)
  {
    hide *;
    ValueIs(c, v);
    DigitKnown(c);
  }

  lemma ValueIs(c: Byte, v: nat)
    ensures HexValue(c) == Some(v) <==> HexIs(c, v)
  {}

  lemma DigitKnown(c: Byte)
    ensures HexValue(c).Some? <==> IsHexDigit(c)
  {}

  lemma FourDigits(a: nat, b: nat, c: nat, d: nat)
    requires a < 16 && b < 16 && c < 16 && d < 16
    ensures var u := a * 0x1000 + b * 0x100 + c * 16 + d;
      u < 0x10000 && u / 0x1000 == a && u / 0x100 % 16 == b && u / 16 % 16 == c && u % 16 == d
  {
    var ab := a * 16 + b;
    var abc := ab * 16 + c;
    LastDigit(abc * 16 + d, abc, d);
    LastDigit(abc, ab, c);
    LastDigit(ab, a, b);
    Sixteens(abc * 16 + d);
  }

  lemma LastDigit(u: nat, high: nat, low: nat)
    requires u == high * 16 + low && low < 16
    ensures u / 16 == high && u % 16 == low
  {}

  lemma Sixteens(u: nat)
    ensures u / 0x100 == u / 16 / 16 && u / 0x1000 == u / 16 / 16 / 16
  {}

  lemma DigitsBack(u: nat)
    requires u < 0x10000
    ensures u / 0x1000 < 16 && u == u / 0x1000 * 0x1000 + u / 0x100 % 16 * 0x100 + u / 16 % 16 * 16 + u % 16
  {
    assert u / 0x100 == u / 0x1000 * 16 + u / 0x100 % 16;
    assert u / 16 == u / 0x100 * 16 + u / 16 % 16;
  }

  /** Four digits are read as the number they are written for, in either case; there is none exactly
      when one of the four is no hexadecimal digit. */
  lemma Hex4Is(t: Text, i: nat)
    requires i <= |t|
    ensures forall u: nat :: Hex4(t, i) == Some(u) <==> HexAt(t, i, u)
    ensures Hex4(t, i).Some? <==>
      i + 4 <= |t| && IsHexDigit(t[i]) && IsHexDigit(t[i + 1]) && IsHexDigit(t[i + 2]) && IsHexDigit(t[i + 3])
  {
    if i + 4 <= |t| {
      FourHexIs(t, i);
    } else {
      HexValueIs('\0', 0);
    }
  }

  lemma FourHexIs(t: Text, i: nat)
    requires i + 4 <= |t|
    ensures forall u: nat :: Hex4(t, i) == Some(u) <==> HexAt(t, i, u)
    ensures Hex4(t, i).Some? <==>
      IsHexDigit(t[i]) && IsHexDigit(t[i + 1]) && IsHexDigit(t[i + 2]) && IsHexDigit(t[i + 3])
  {
    hide HexValue, HexIs, IsHexDigit;
    HexValueIs(t[i], 0);
    HexValueIs(t[i + 1], 0);
    HexValueIs(t[i + 2], 0);
    HexValueIs(t[i + 3], 0);
    forall u: nat ensures Hex4(t, i) == Some(u) <==> HexAt(t, i, u) {
      if HexAt(t, i, u) {
        HexValueIs(t[i], u / 0x1000);
        HexValueIs(t[i + 1], u / 0x100 % 16);
        HexValueIs(t[i + 2], u / 16 % 16);
        HexValueIs(t[i + 3], u % 16);
        DigitsBack(u);
      }
      if Hex4(t, i) == Some(u) {
        var a, b := HexValue(t[i]).value, HexValue(t[i + 1]).value;
        var c, d := HexValue(t[i + 2]).value, HexValue(t[i + 3]).value;
        HexValueIs(t[i], a);
        HexValueIs(t[i + 1], b);
        HexValueIs(t[i + 2], c);
        HexValueIs(t[i + 3], d);
        FourDigits(a, b, c, d);
      }
    }
  }

  /** The bytes of a code point. */
  function Utf8(cp: nat): (u: Text)
    requires cp <= 0x1F_FFFF
    ensures 1 <= |u| <= 4
  {
    if cp <= 0x7F then [ToByte(cp)]
    else if cp <= 0x7FF then [ToByte(0xC0 + cp / 64), ToByte(0x80 + cp % 64)]
    else if cp <= 0xFFFF then
      [ToByte(0xE0 + cp / 4096), ToByte(0x80 + cp / 64 % 64), ToByte(0x80 + cp % 64)]
    else
      [ToByte(0xF0 + cp / 262144), ToByte(0x80 + cp / 4096 % 64), ToByte(0x80 + cp / 64 % 64), ToByte(0x80 + cp % 64)]
  }

  /** The escape \uXXXX at i, or a pair of them for a surrogate pair: the code point and the length. */
  function UnicodeEscape(t: Text, i: nat): (r: Option<(nat, nat)>)
    requires i + 2 <= |t|
    ensures r.Some? ==> r.value.0 <= 0x10_FFFF && i + r.value.1 <= |t|
    ensures r.Some? ==> r.value.1 == 6 || (r.value.1 == 12 && r.value.0 >= 0x1_0000)
  {
    match Hex4(t, i + 2)
    case None => None
    case Some(u) =>
      if u / 0x800 == 0x1B then
        if u / 0x400 % 2 == 1 then None
        else if At(t, i + 6) != '\\' || At(t, i + 7) != 'u' then None
        else
          match Hex4(t, i + 8)
          case None => None
          case Some(low) =>
            if low / 0x400 != 0x37 then None
            else Some((u % 0x400 * 0x400 + low % 0x400 + 0x10000, 12))
      else Some((u, 6))
  }

  /** The byte a one-letter escape stands for. */
  function Unescape(c: Byte): Option<Byte> {
    if c == '\"' || c == '\\' || c == '/' then Some(c)
    else if c == 'b' then Some(ToByte(8))
    else if c == 't' then Some(ToByte(9))
    else if c == 'n' then Some(ToByte(10))
    else if c == 'f' then Some(ToByte(12))
    else if c == 'r' then Some(ToByte(13))
    else None
  }

  /** What the next step of a string yields: bytes and how far to move on, the end, or an error. */
  datatype Piece = Bytes(bytes: Text, len: nat) | Closing | Bad

  function NextPiece(t: Text, i: nat): (p: Piece)
    requires i <= |t|
    ensures p.Bytes? ==> 0 < p.len && i + p.len <= |t| && 0 < |p.bytes| <= p.len
    ensures p.Closing? ==> i < |t|
  {
    var c := At(t, i);
    if c == '\"' then Closing
    else if c == '\0' then Bad
    else if c == '\\' then
      var e := At(t, i + 1);
      if e == 'u' then
        match UnicodeEscape(t, i)
        case None => Bad
        case Some((cp, len)) => Bytes(Utf8(cp), len)
      else
        match Unescape(e)
        case None => Bad
        case Some(b) => Bytes([b], 2)
    else Bytes([c], 1)
  }

  /** The string whose contents start at i, and where it ends. */
  function Unquote(t: Text, i: nat): (r: Option<(Text, nat)>)
    requires i <= |t|
    ensures r.Some? ==> i + |r.value.0| < r.value.1 <= |t|
    decreases |t| - i
  {
    match NextPiece(t, i)
    case Closing => Some(([], i + 1))
    case Bad => None
    case Bytes(b, len) =>
      match Unquote(t, i + len)
      case None => None
      case Some((s, end)) => Some((b + s, end))
  }

  // ----- Texts inside texts -----

  /** e stands in t at i. */
  ghost predicate Spelled(t: Text, i: nat, e: Text) {
    i + |e| <= |t| && forall k :: 0 <= k < |e| ==> t[i + k] == e[k]
  }

  lemma SpelledSplit(t: Text, i: nat, a: Text, b: Text)
    requires Spelled(t, i, a + b)
    ensures Spelled(t, i, a) && Spelled(t, i + |a|, b)
  {
    assert forall k :: 0 <= k < |a| ==> a[k] == (a + b)[k];
    forall k | 0 <= k < |b| ensures t[i + |a| + k] == b[k] {
      assert t[i + (|a| + k)] == (a + b)[|a| + k];
    }
  }

  lemma ClosingReads(t: Text, i: nat)
    requires i < |t| && t[i] == '\"'
    ensures NextPiece(t, i) == Closing
  {}

  lemma HexRoundTrip(d: int)
    requires 0 <= d < 16
    ensures HexValue(HexDigit(d)) == Some(d) && HexValue('0') == Some(0)
  {}

  // ----- UTF-8 and UTF-16 -----

  function Tail(b: Byte): Option<nat> {
    if 0x80 <= b as int < 0xC0 then Some(b as int - 0x80) else None
  }

  /** Reads one code point: lead byte, continuation bytes, and no longer form than needed
      (RFC 3629 section 3). */
  ghost predicate DecodesTo(u: Text, cp: nat) {
    if |u| == 1 then u[0] as int < 0x80 && cp == u[0] as int
    else if |u| == 2 then
      && 0xC0 <= u[0] as int < 0xE0 && Tail(u[1]).Some?
      && cp == (u[0] as int - 0xC0) * 0x40 + Tail(u[1]).value && cp >= 0x80
    else if |u| == 3 then
      && 0xE0 <= u[0] as int < 0xF0 && Tail(u[1]).Some? && Tail(u[2]).Some?
      && cp == (u[0] as int - 0xE0) * 0x1000 + Tail(u[1]).value * 0x40 + Tail(u[2]).value && cp >= 0x800
    else
      && |u| == 4 && 0xF0 <= u[0] as int < 0xF8
      && Tail(u[1]).Some? && Tail(u[2]).Some? && Tail(u[3]).Some?
      && cp == (u[0] as int - 0xF0) * 0x40000 + Tail(u[1]).value * 0x1000 + Tail(u[2]).value * 0x40 + Tail(u[3]).value
      && cp >= 0x10000
  }

  lemma Utf8Decodes(cp: nat)
    requires cp <= 0x10_FFFF
    ensures DecodesTo(Utf8(cp), cp)
  {
    SixBitGroups(cp);
    var u := Utf8(cp);
    if 0x7FF < cp <= 0xFFFF {
      assert |u| == 3 && u[1] as int == 0x80 + cp / 64 % 64 && u[2] as int == 0x80 + cp % 64;
    } else if 0xFFFF < cp {
      assert |u| == 4 && u[1] as int == 0x80 + cp / 4096 % 64 && u[2] as int == 0x80 + cp / 64 % 64
          && u[3] as int == 0x80 + cp % 64;
    }
  }

  lemma SixBitGroups(cp: nat)
    ensures cp == cp / 64 * 64 + cp % 64
    ensures cp / 64 == cp / 4096 * 64 + cp / 64 % 64
    ensures cp / 4096 == cp / 262144 * 64 + cp / 4096 % 64
  {}

  /** Bytes stand for at most one code point, and a code point for one byte sequence. */
  lemma Utf8Unique(u: Text, cp: nat)
    requires DecodesTo(u, cp)
    ensures u == Utf8(cp)
  {
    if |u| == 2 {
      TwoBytes(u, u[0] as int - 0xC0, Tail(u[1]).value);
    } else if |u| == 3 {
      ThreeBytes(u, u[0] as int - 0xE0, Tail(u[1]).value, Tail(u[2]).value);
    } else if |u| == 4 {
      FourBytes(u, u[0] as int - 0xF0, Tail(u[1]).value, Tail(u[2]).value, Tail(u[3]).value);
    }
  }

  lemma TwoBytes(u: Text, a: nat, b: nat)
    requires |u| == 2 && a < 0x20 && b < 0x40 && u[0] as int == 0xC0 + a && u[1] as int == 0x80 + b
    requires a * 0x40 + b >= 0x80
    ensures u == Utf8(a * 0x40 + b)
  {
    Group(a * 0x40 + b, a, b);
  }

  lemma ThreeBytes(u: Text, a: nat, b: nat, c: nat)
    requires |u| == 3 && a < 0x10 && b < 0x40 && c < 0x40
    requires u[0] as int == 0xE0 + a && u[1] as int == 0x80 + b && u[2] as int == 0x80 + c
    requires a * 0x1000 + b * 0x40 + c >= 0x800
    ensures u == Utf8(a * 0x1000 + b * 0x40 + c)
  {
    var cp := a * 0x1000 + b * 0x40 + c;
    Group(cp, a * 0x40 + b, c);
    Group(a * 0x40 + b, a, b);
    SixBitGroups(cp);
    assert u == [ToByte(0xE0 + cp / 4096), ToByte(0x80 + cp / 64 % 64), ToByte(0x80 + cp % 64)];
  }

  lemma FourBytes(u: Text, a: nat, b: nat, c: nat, d: nat)
    requires |u| == 4 && a < 8 && b < 0x40 && c < 0x40 && d < 0x40
    requires u[0] as int == 0xF0 + a && u[1] as int == 0x80 + b && u[2] as int == 0x80 + c && u[3] as int == 0x80 + d
    requires a * 0x40000 + b * 0x1000 + c * 0x40 + d >= 0x10000
    ensures u == Utf8(a * 0x40000 + b * 0x1000 + c * 0x40 + d)
  {
    var cp := a * 0x40000 + b * 0x1000 + c * 0x40 + d;
    Group(cp, (a * 0x40 + b) * 0x40 + c, d);
    Group((a * 0x40 + b) * 0x40 + c, a * 0x40 + b, c);
    Group(a * 0x40 + b, a, b);
    SixBitGroups(cp);
    assert u == [ToByte(0xF0 + cp / 262144), ToByte(0x80 + cp / 4096 % 64), ToByte(0x80 + cp / 64 % 64),
                 ToByte(0x80 + cp % 64)];
  }

  lemma Group(n: nat, high: nat, low: nat)
    requires n == high * 0x40 + low && low < 0x40
    ensures n / 64 == high && n % 64 == low
  {}

  ghost predicate HighSurrogate(u: nat) { 0xD800 <= u < 0xDC00 }

  ghost predicate LowSurrogate(u: nat) { 0xDC00 <= u < 0xE000 }

  /** At i stands the escape of one code unit outside the surrogates. */
  ghost predicate UnitAt(t: Text, i: nat, u: nat) { HexAt(t, i + 2, u) && !HighSurrogate(u) && !LowSurrogate(u) }

  /** At i stand the escapes of a high and a low surrogate. */
  ghost predicate PairAt(t: Text, i: nat, u: nat, l: nat) {
    && HexAt(t, i + 2, u) && HighSurrogate(u)
    && HexAt(t, i + 8, l) && LowSurrogate(l) && t[i + 6] == '\\' && t[i + 7] == 'u'
  }

  /** The code point of a pair (RFC 2781 section 2.2). */
  function Paired(u: nat, l: nat): int { 0x10000 + (u - 0xD800) * 0x400 + (l - 0xDC00) }

  /** An escape is accepted exactly when it is one code unit outside the surrogates, or a high and a
      low one in two escapes; it stands for a scalar value. */
  lemma EscapeMeaning(t: Text, i: nat)
    requires i + 2 <= |t|
    ensures forall u: nat :: UnitAt(t, i, u) ==> UnicodeEscape(t, i) == Some((u, 6))
    ensures forall u: nat, l: nat :: PairAt(t, i, u, l) ==>
      0 <= Paired(u, l) <= 0x10_FFFF && UnicodeEscape(t, i) == Some((Paired(u, l), 12))
    ensures UnicodeEscape(t, i).Some? ==> (exists u :: UnitAt(t, i, u)) || exists u, l :: PairAt(t, i, u, l)
    ensures var r := UnicodeEscape(t, i);
      r.Some? ==> !(0xD800 <= r.value.0 < 0xE000) && DecodesTo(Utf8(r.value.0), r.value.0)
  {
    hide *;
    forall u: nat | UnitAt(t, i, u) ensures UnicodeEscape(t, i) == Some((u, 6)) {
      UnitStands(t, i, u);
    }
    forall u: nat, l: nat | PairAt(t, i, u, l)
      ensures 0 <= Paired(u, l) <= 0x10_FFFF && UnicodeEscape(t, i) == Some((Paired(u, l), 12))
    {
      PairStands(t, i, u, l);
    }
    if UnicodeEscape(t, i).Some? { EscapeStands(t, i); }
  }

  lemma UnitStands(t: Text, i: nat, u: nat)
    requires UnitAt(t, i, u)
    ensures i + 6 <= |t| && UnicodeEscape(t, i) == Some((u, 6))
  {
    hide Hex4, HexIs;
    Hex4Is(t, i + 2);
  }

  lemma PairStands(t: Text, i: nat, u: nat, l: nat)
    requires PairAt(t, i, u, l)
    ensures i + 12 <= |t| && 0 <= Paired(u, l) <= 0x10_FFFF && UnicodeEscape(t, i) == Some((Paired(u, l), 12))
  {
    hide Hex4, HexAt;
    HexInside(t, i + 2, u);
    HexInside(t, i + 8, l);
    Hex4Is(t, i + 2);
    Hex4Is(t, i + 8);
    SurrogateBits(u);
    SurrogateBits(l);
    hide HighSurrogate, LowSurrogate;
  }

  lemma HexInside(t: Text, i: nat, u: nat)
    requires HexAt(t, i, u)
    ensures i + 4 <= |t| && u < 0x10000
  {}

  lemma SurrogateBits(u: nat)
    ensures HighSurrogate(u) ==> u / 0x800 == 0x1B && u / 0x400 % 2 == 0 && u % 0x400 == u - 0xD800
    ensures LowSurrogate(u) ==> u / 0x400 == 0x37 && u % 0x400 == u - 0xDC00
  {}

  lemma EscapeStands(t: Text, i: nat)
    requires i + 2 <= |t| && UnicodeEscape(t, i).Some?
    ensures (exists u :: UnitAt(t, i, u)) || exists u, l :: PairAt(t, i, u, l)
    ensures var cp := UnicodeEscape(t, i).value.0; !(0xD800 <= cp < 0xE000) && DecodesTo(Utf8(cp), cp)
  {
    EscapeShape(t, i);
    hide Utf8, DecodesTo, Hex4, HexAt, UnicodeEscape;
    Utf8Decodes(UnicodeEscape(t, i).value.0);
    Hex4Is(t, i + 2);
    var u := Hex4(t, i + 2).value;
    assert HexAt(t, i + 2, u);
    SurrogateKinds(u);
    if HighSurrogate(u) {
      Hex4Is(t, i + 8);
      var l := Hex4(t, i + 8).value;
      SurrogateKinds(l);
      SurrogateBits(u);
      SurrogateBits(l);
      assert PairAt(t, i, u, l);
    } else {
      assert UnitAt(t, i, u);
    }
  }

  lemma EscapeShape(t: Text, i: nat)
    requires i + 2 <= |t| && UnicodeEscape(t, i).Some?
    ensures Hex4(t, i + 2).Some?
    ensures var u, cp := Hex4(t, i + 2).value, UnicodeEscape(t, i).value.0;
      if u / 0x800 == 0x1B then
        && u / 0x400 % 2 == 0 && i + 8 <= |t| && t[i + 6] == '\\' && t[i + 7] == 'u'
        && Hex4(t, i + 8).Some? && Hex4(t, i + 8).value / 0x400 == 0x37
        && cp == u % 0x400 * 0x400 + Hex4(t, i + 8).value % 0x400 + 0x10000
      else cp == u
  {
    hide Hex4;
  }

  lemma SurrogateKinds(u: nat)
    ensures u / 0x800 == 0x1B <==> HighSurrogate(u) || LowSurrogate(u)
    ensures LowSurrogate(u) ==> u / 0x400 % 2 == 1
    ensures LowSurrogate(u) <==> u / 0x400 == 0x37
  {}
}
