/** JSON trees, their text, and reading the text back (lua_cjson.c: json_append_data,
    json_next_token, json_process_value, json_decode). */
module JsonCodec {
  import opened Options
  import opened JsonText
  import DecimalScan

  // ----- Numbers stay text -----

  /** The setting decode_invalid_numbers. When it is on, hexadecimal numbers, infinities and "not a
      number" are read too; special says where one at a given place ends, by the C library's strtod. */
  datatype Numbers = Strict | Lenient(special: (Text, nat) -> nat)

  /** Where a number at i ends; i itself when there is none. */
  function NumberEnd(t: Text, i: nat): (e: nat)
    requires i <= |t|
  {
    match DecimalScan.Parse(t, AfterSign(t, i))
    case NotANumber => i
    case Literal(_, _, _, end) => end
  }

  function AfterSign(t: Text, i: nat): (p: nat)
    requires i <= |t|
  {
    if At(t, i) == '-' || At(t, i) == '+' then i + 1 else i
  }

  /** The same when special forms are read too. */
  function LenientEnd(special: (Text, nat) -> nat, t: Text, i: nat): (e: nat)
    requires i <= |t|
  {
    var p := AfterSign(t, i);
    if (At(t, p) == '0' && At(t, p + 1) in "xX") || DecimalScan.Parse(t, p).NotANumber? then
      if i < special(t, i) <= |t| then special(t, i) else i
    else NumberEnd(t, i)
  }

  predicate SameLetters(t: Text, i: nat, w: string)
    requires i <= |t|
    decreases |w|
  {
    || w == ""
    || (i < |t|
        && (t[i] == w[0] || (t[i] as int + 32 == w[0] as int && 'A' <= t[i] <= 'Z'))
        && SameLetters(t, i + 1, w[1..]))
  }

  /** Number forms that strict JSON does not have: a plus sign, leading zeros, hexadecimal, inf, nan. */
  predicate InvalidNumber(t: Text, i: nat)
    requires i <= |t|
  {
    if At(t, i) == '+' then true
    else
      var p := if At(t, i) == '-' then i + 1 else i;
      if At(t, p) == '0' then
        At(t, p + 1) in "xX" || DecimalScan.IsDigit(At(t, p + 1))
      else if At(t, p) <= '9' then false
      else SameLetters(t, p, "inf") || SameLetters(t, p, "nan")
  }

  /** The text of one number, by itself. */
  ghost predicate IsNumber(n: Text) {
    && n != [] && (n[0] == '-' || DecimalScan.IsDigit(n[0]))
    && !InvalidNumber(n, 0) && NumberEnd(n, 0) == |n|
  }

  // ----- Trees -----

  /** A value; in a table the keys are in the order the table is walked. The empty table counts as
      an object. */
  datatype Value =
    | Null
    | Bool(b: bool)
    | Num(n: Text)
    | Str(s: Text)
    | Arr(items: seq<Value>)
    | Obj(members: seq<Member>)

  datatype Member = Member(key: Text, value: Value)

  ghost predicate Encodable(v: Value) {
    match v
    case Num(n) => IsNumber(n)
    case Arr(items) => items != [] && forall x :: x in items ==> Encodable(x)
    case Obj(members) =>
      && (forall m :: m in members ==> Encodable(m.value))
      && forall i, j :: 0 <= i < j < |members| ==> members[i].key != members[j].key
    case _ => true
  }

  /** What the encoder reserves for a number, the terminator included. */
  const NUMBER_SIZE: nat := 32

  /** Every number's text fits there. */
  ghost predicate ShortNumbers(v: Value) {
    match v
    case Num(n) => |n| < NUMBER_SIZE
    case Arr(items) => forall x :: x in items ==> ShortNumbers(x)
    case Obj(members) => forall m :: m in members ==> ShortNumbers(m.value)
    case _ => true
  }

  function Max(a: nat, b: nat): nat { if a < b then b else a }

  /** How many tables are nested at most. */
  function Depth(v: Value): nat
    decreases v, 0
  {
    match v
    case Arr(items) => 1 + ItemsDepth(items)
    case Obj(members) => 1 + MembersDepth(members)
    case _ => 0
  }

  function ItemsDepth(items: seq<Value>): nat
    decreases items, 1
  {
    if items == [] then 0 else Max(Depth(items[0]), ItemsDepth(items[1..]))
  }

  function MembersDepth(members: seq<Member>): nat
    decreases members, 1
  {
    if members == [] then 0 else Max(Depth(members[0].value), MembersDepth(members[1..]))
  }

  // ----- Encoding -----

  function Encode(v: Value): Text
    decreases v, 0
  {
    match v
    case Null => "null"
    case Bool(b) => if b then "true" else "false"
    case Num(n) => n
    case Str(s) => Quote(s)
    case Arr(items) => "[" + EncodeItems(items) + "]"
    case Obj(members) => "{" + EncodeMembers(members) + "}"
  }

  function EncodeItems(items: seq<Value>): Text
    decreases items, 1
  {
    if items == [] then ""
    else if |items| == 1 then Encode(items[0])
    else Encode(items[0]) + "," + EncodeItems(items[1..])
  }

  function EncodeMember(m: Member): Text
    decreases m, 0
  {
    Quote(m.key) + ":" + Encode(m.value)
  }

  function EncodeMembers(members: seq<Member>): Text
    decreases members, 1
  {
    if members == [] then ""
    else if |members| == 1 then EncodeMember(members[0])
    else EncodeMember(members[0]) + "," + EncodeMembers(members[1..])
  }

  // ----- Tokens -----

  datatype Token =
    | ObjBegin | ObjEnd | ArrBegin | ArrEnd | Comma | Colon
    | TStr(s: Text) | TNum(n: Text) | TBool(b: bool) | TNull
    | End | Error

  function SkipSpace(t: Text, i: nat): (j: nat)
    requires i <= |t|
    ensures i <= j <= |t|
    decreases |t| - i
  {
    if i < |t| && t[i] in " \t\n\r" then SkipSpace(t, i + 1) else i
  }

  predicate Starts(t: Text, i: nat, w: string)
    requires i <= |t|
  {
    i + |w| <= |t| && t[i..i + |w|] == w
  }

  function NumberToken(cfg: Numbers, t: Text, i: nat): (r: (Token, nat))
    requires i < |t|
    ensures i <= r.1 <= |t| && (r.0 == Error || i < r.1)
  {
    NumberStaysInside(t, i);
    var e := match cfg
      case Strict => if InvalidNumber(t, i) then i else NumberEnd(t, i)
      case Lenient(special) => LenientEnd(special, t, i);
    if e == i then (Error, i) else (TNum(t[i..e]), e)
  }

  /** The token at i and where reading goes on; at the end and at an error it does not move. */
  function NextToken(cfg: Numbers, t: Text, i0: nat): (r: (Token, nat))
    requires i0 <= |t|
    ensures i0 <= r.1 <= |t|
    ensures r.0 == End || r.0 == Error || i0 < r.1
  {
    var i := SkipSpace(t, i0);
    var c := At(t, i);
    if c == '\0' then (End, i)
    else if c == '{' then (ObjBegin, i + 1)
    else if c == '}' then (ObjEnd, i + 1)
    else if c == '[' then (ArrBegin, i + 1)
    else if c == ']' then (ArrEnd, i + 1)
    else if c == ',' then (Comma, i + 1)
    else if c == ':' then (Colon, i + 1)
    else if c == '\"' then
      match Unquote(t, i + 1)
      case None => (Error, i)
      case Some((s, end)) => (TStr(s), end)
    else if c == '-' || DecimalScan.IsDigit(c) then NumberToken(cfg, t, i)
    else if Starts(t, i, "true") then (TBool(true), i + 4)
    else if Starts(t, i, "false") then (TBool(false), i + 5)
    else if Starts(t, i, "null") then (TNull, i + 4)
    else if cfg.Lenient? && InvalidNumber(t, i) then NumberToken(cfg, t, i)
    else (Error, i)
  }

  lemma {:induction false} RunStaysInside(t: string, i: nat)
    requires i <= |t|
    ensures DecimalScan.Run(t, i) <= |t|
    decreases |t| - i
  {
    if i < |t| {
      RunStaysInside(t, i + 1);
    }
  }

  lemma ExponentStaysInside(t: Text, r: nat)
    requires r <= |t|
    ensures r <= DecimalScan.ParseExponent(t, r).1 <= |t|
  {
    hide DecimalScan.DigitsIn, DecimalScan.Run;
    if DecimalScan.At(t, r) in "eE" {
      var a := if DecimalScan.At(t, r + 1) in "+-" then r + 2 else r + 1;
      RunStaysInside(t, a);
    }
  }

  lemma NumberStaysInside(t: Text, i: nat)
    requires i <= |t|
    ensures i <= NumberEnd(t, i) <= |t|
  {
    hide DecimalScan.DigitsIn, DecimalScan.Run, DecimalScan.ParseExponent;
    var p := AfterSign(t, i);
    RunStaysInside(t, p);
    var q := DecimalScan.Run(t, p);
    if DecimalScan.At(t, q) == '.' {
      RunStaysInside(t, q + 1);
      ExponentStaysInside(t, DecimalScan.Run(t, q + 1));
    } else {
      ExponentStaysInside(t, q);
    }
  }

  // ----- Decoding -----

  /** Sets a key of a table that is being filled. */
  function SetKey(ms: seq<Member>, k: Text, v: Value): seq<Member> {
    if ms == [] then [Member(k, v)]
    else if ms[0].key == k then [Member(k, v)] + ms[1..]
    else [ms[0]] + SetKey(ms[1..], k, v)
  }

  /** The value that starts with token tok, reading on at i, inside d tables of at most max. */
  function DecodeValue(cfg: Numbers, t: Text, tok: Token, i: nat, d: nat, max: nat): (r: Option<(Value, nat)>)
    requires i <= |t|
    ensures r.Some? ==> i <= r.value.1 <= |t|
    decreases |t| - i, 1
  {
    match tok
    case TStr(s) => Some((Str(s), i))
    case TNum(n) => Some((Num(n), i))
    case TBool(b) => Some((Bool(b), i))
    case TNull => Some((Null, i))
    case ObjBegin => DecodeObject(cfg, t, i, d, max)
    case ArrBegin => DecodeArray(cfg, t, i, d, max)
    case _ => None
  }

  function DecodeArray(cfg: Numbers, t: Text, i: nat, d: nat, max: nat): (r: Option<(Value, nat)>)
    requires i <= |t|
    ensures r.Some? ==> i <= r.value.1 <= |t|
    decreases |t| - i, 0
  {
    var (tok, j) := NextToken(cfg, t, i);
    if d + 1 > max || tok == End || tok == Error then None
    else if tok == ArrEnd then Some((Obj([]), j))
    else DecodeItems(cfg, t, tok, j, d + 1, max, [])
  }

  function DecodeItems(cfg: Numbers, t: Text, tok: Token, i: nat, d: nat, max: nat, acc: seq<Value>)
    : (r: Option<(Value, nat)>)
    requires i <= |t|
    ensures r.Some? ==> i <= r.value.1 <= |t|
    decreases |t| - i, 2
  {
    match DecodeValue(cfg, t, tok, i, d, max)
    case None => None
    case Some((v, j)) =>
      var (sep, k) := NextToken(cfg, t, j);
      if sep == ArrEnd then Some((Arr(acc + [v]), k))
      else if sep != Comma then None
      else
        var (next, n) := NextToken(cfg, t, k);
        DecodeItems(cfg, t, next, n, d, max, acc + [v])
  }

  function DecodeObject(cfg: Numbers, t: Text, i: nat, d: nat, max: nat): (r: Option<(Value, nat)>)
    requires i <= |t|
    ensures r.Some? ==> i <= r.value.1 <= |t|
    decreases |t| - i, 0
  {
    var (tok, j) := NextToken(cfg, t, i);
    if d + 1 > max || tok == End || tok == Error then None
    else if tok == ObjEnd then Some((Obj([]), j))
    else DecodeMembers(cfg, t, tok, j, d + 1, max, [])
  }

  function DecodeMembers(cfg: Numbers, t: Text, tok: Token, i: nat, d: nat, max: nat, acc: seq<Member>)
    : (r: Option<(Value, nat)>)
    requires i <= |t|
    ensures r.Some? ==> i <= r.value.1 <= |t|
    decreases |t| - i, 2
  {
    if !tok.TStr? then None
    else
      var (colon, c) := NextToken(cfg, t, i);
      if colon != Colon then None
      else
        var (first, f) := NextToken(cfg, t, c);
        match DecodeValue(cfg, t, first, f, d, max)
        case None => None
        case Some((v, j)) =>
          var (sep, k) := NextToken(cfg, t, j);
          if sep == ObjEnd then Some((Obj(SetKey(acc, tok.s, v)), k))
          else if sep != Comma then None
          else
            var (next, n) := NextToken(cfg, t, k);
            DecodeMembers(cfg, t, next, n, d, max, SetKey(acc, tok.s, v))
  }

  /** A whole text: one value and nothing after it. A zero byte among the first two gives away
      another encoding. */
  function Decode(cfg: Numbers, t: Text, max: nat): Option<Value> {
    if |t| >= 2 && (t[0] == '\0' || t[1] == '\0') then None
    else
      var (tok, i) := NextToken(cfg, t, 0);
      match DecodeValue(cfg, t, tok, i, 0, max)
      case None => None
      case Some((v, j)) => if NextToken(cfg, t, j).0 == End then Some(v) else None
  }
}
