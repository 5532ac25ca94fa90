/** The decoder as it runs, moving one pointer over the text (lua_cjson.c: json_next_string_token,
    json_next_token, json_process_value, json_parse_object_context, json_parse_array_context,
    json_decode). */
module JsonDecoder {
  import opened Options
  import opened JsonText
  import opened JsonCodec
  import opened StringBuffer
  import DecimalScan

  /** The string contents read so far, followed by what is still to be read. */
  ghost function Continued(read: Text, rest: Option<(Text, nat)>): Option<(Text, nat)> {
    match rest
    case None => None
    case Some((s, end)) => Some((read + s, end))
  }

  lemma ReadOn(t: Text, i: nat, read: Text)
    requires i <= |t|
    ensures match NextPiece(t, i)
      case Closing => Continued(read, Unquote(t, i)) == Some((read, i + 1))
      case Bad => Unquote(t, i).None?
      case Bytes(b, len) => Continued(read, Unquote(t, i)) == Continued(read + b, Unquote(t, i + len))
  {
    hide NextPiece;
    assert read + [] == read;
    match NextPiece(t, i)
    case Bytes(b, len) =>
      match Unquote(t, i + len) {
        case None =>
        case Some((s, _)) => assert (read + b) + s == read + (b + s);
      }
    case _ =>
  }

  class Parser {
    const cfg: Numbers
    const data: Text
    const tmp: Strbuf
    const max_depth: nat
    var ptr: nat
    var current_depth: nat

    /** The temporary buffer is as large as the whole text and its terminator. */
    ghost predicate Valid()
      reads this, tmp
    {
      ptr <= |data| && tmp.Valid() && |data| < tmp.buf.Length && current_depth <= max_depth
    }

    ghost function Repr(): set<object>
      reads this, tmp
    {
      {this, tmp, tmp.buf}
    }

    constructor (cfg: Numbers, data: Text, max_depth: nat)
      ensures Valid() && this.cfg == cfg && this.data == data && this.max_depth == max_depth
      ensures ptr == 0 && current_depth == 0
      ensures fresh(Repr())
    {
      this.cfg := cfg;
      this.data := data;
      this.max_depth := max_depth;
      ptr := 0;
      current_depth := 0;
      tmp := new Strbuf(|data|);
    }

    /** Appends the code point of an escape and steps over it. */
    method AppendUnicodeEscape() returns (ok: bool)
      requires Valid() && ptr + 2 <= |data| && tmp.length < ptr
      modifies this`ptr, tmp`length, tmp.buf
      ensures Valid() && tmp.buf == old(tmp.buf) && old(ptr) <= ptr
      ensures ok <==> UnicodeEscape(data, old(ptr)).Some?
      ensures ok ==>
        var (cp, len) := UnicodeEscape(data, old(ptr)).value;
        ptr == old(ptr) + len && tmp.length < ptr && tmp.Contents() == old(tmp.Contents()) + Utf8(cp)
    {
      hide UnicodeEscape, Utf8;
      match UnicodeEscape(data, ptr)
      case None => ok := false;
      case Some((cp, len)) =>
        var utf8 := Utf8(cp);
        tmp.AppendMemUnsafe(utf8);
        ptr := ptr + len;
        ok := true;
        assert |tmp.Contents()| == |old(tmp.Contents())| + |utf8|;
    }

    /** One turn of the string loop. Every turn consumes at least the bytes it appends, so the
        unchecked appends stay inside the buffer. */
    method ReadPiece() returns (ok: bool)
      requires Valid() && At(data, ptr) != '\"' && tmp.length < ptr
      modifies this`ptr, tmp`length, tmp.buf
      ensures Valid() && tmp.buf == old(tmp.buf) && old(ptr) <= ptr
      ensures ok <==> NextPiece(data, old(ptr)).Bytes?
      ensures ok ==>
        var p := NextPiece(data, old(ptr));
        tmp.Contents() == old(tmp.Contents()) + p.bytes && ptr == old(ptr) + p.len && tmp.length < ptr
    {
      hide UnicodeEscape, Utf8, Unescape;
      var ch := At(data, ptr);
      if ch == '\0' { return false; }
      if ch == '\\' {
        ch := At(data, ptr + 1);
        if ch == 'u' {
          ok := AppendUnicodeEscape();
          return;
        }
        match Unescape(ch) {
          case None => return false;
          case Some(b) => ch := b;
        }
        assert NextPiece(data, ptr) == Bytes([ch], 2);
        ptr := ptr + 1;
      }
      tmp.AppendCharUnsafe(ch);
      ptr := ptr + 1;
      ok := true;
    }

    /** The string that starts at the quote here. An error leaves the pointer somewhere inside. */
    method NextStringToken() returns (token: Token)
      requires Valid() && At(data, ptr) == '\"'
      modifies this`ptr, tmp`length, tmp.buf
      ensures Valid() && tmp.buf == old(tmp.buf) && old(ptr) <= ptr
      ensures match Unquote(data, old(ptr) + 1)
        case None => token == Error
        case Some((s, end)) => token == TStr(s) && ptr == end
    {
      hide NextPiece, Unquote;
      ptr := ptr + 1;
      tmp.Reset();
      assert Continued([], Unquote(data, ptr)) == Unquote(data, ptr) by { ContinuedNothing(Unquote(data, ptr)); }
      while At(data, ptr) != '\"'
        invariant Valid() && tmp.buf == old(tmp.buf) && tmp.length < ptr && old(ptr) < ptr
        invariant Continued(tmp.Contents(), Unquote(data, ptr)) == Unquote(data, old(ptr) + 1)
        decreases |data| - ptr
      {
        ReadOn(data, ptr, tmp.Contents());
        PieceKinds(data, ptr);
        var ok := ReadPiece();
        if !ok { return Error; }
      }
      ReadOn(data, ptr, tmp.Contents());
      PieceKinds(data, ptr);
      ptr := ptr + 1;
      token := TStr(tmp.buf[..tmp.length]);
    }

    /** The next token. The pointer does not move past the end or an error at a token's start. */
    method Next() returns (token: Token)
      requires Valid()
      modifies this`ptr, tmp`length, tmp.buf
      ensures Valid() && tmp.buf == old(tmp.buf)
      ensures token == NextToken(cfg, data, old(ptr)).0
      ensures old(ptr) <= ptr && (token != Error ==> ptr == NextToken(cfg, data, old(ptr)).1)
    {
      hide Unquote, NumberToken, Starts, InvalidNumber;
      while ptr < |data| && data[ptr] in " \t\n\r"
        invariant Valid() && SkipSpace(data, ptr) == SkipSpace(data, old(ptr))
        decreases |data| - ptr
      {
        ptr := ptr + 1;
      }
      var ch := At(data, ptr);
      if ch == '\0' { return End; }
      if ch in "{}[],:" {
        ptr := ptr + 1;
        return if ch == '{' then ObjBegin else if ch == '}' then ObjEnd else if ch == '[' then ArrBegin
               else if ch == ']' then ArrEnd else if ch == ',' then Comma else Colon;
      }
      if ch == '\"' {
        token := NextStringToken();
      } else if ch == '-' || DecimalScan.IsDigit(ch) {
        var (number, end) := NumberToken(cfg, data, ptr);
        ptr := end;
        token := number;
      } else {
        token := NextWord();
      }
    }

    /** A literal name, or one of the number forms that strict JSON does not have. */
    method NextWord() returns (token: Token)
      requires Valid() && ptr < |data|
      modifies this`ptr
      ensures Valid() && old(ptr) <= ptr
      ensures Starts(data, old(ptr), "true") ==> token == TBool(true) && ptr == old(ptr) + 4
      ensures !Starts(data, old(ptr), "true") && Starts(data, old(ptr), "false") ==>
        token == TBool(false) && ptr == old(ptr) + 5
      ensures !Starts(data, old(ptr), "true") && !Starts(data, old(ptr), "false") ==>
        if Starts(data, old(ptr), "null") then token == TNull && ptr == old(ptr) + 4
        else if cfg.Lenient? && InvalidNumber(data, old(ptr)) then (token, ptr) == NumberToken(cfg, data, old(ptr))
        else token == Error
    {
      if Starts(data, ptr, "true") {
        ptr := ptr + 4;
        return TBool(true);
      }
      if Starts(data, ptr, "false") {
        ptr := ptr + 5;
        return TBool(false);
      }
      if Starts(data, ptr, "null") {
        ptr := ptr + 4;
        return TNull;
      }
      if cfg.Lenient? && InvalidNumber(data, ptr) {
        var (number, end) := NumberToken(cfg, data, ptr);
        ptr := end;
        return number;
      }
      return Error;
    }

    /** The value that begins with a token already read. Reading it leaves the depth as it was. */
    method ProcessValue(token: Token) returns (r: Option<Value>)
      requires Valid()
      modifies this`ptr, this`current_depth, tmp`length, tmp.buf
      ensures Valid() && tmp.buf == old(tmp.buf) && old(ptr) <= ptr
      ensures match DecodeValue(cfg, data, token, old(ptr), old(current_depth), max_depth)
        case None => r == None
        case Some((v, end)) => r == Some(v) && ptr == end && current_depth == old(current_depth)
      decreases |data| - ptr, if token.ObjBegin? || token.ArrBegin? then 3 else 0
    {
      hide NextToken;
      match token
      case TStr(s) => r := Some(Str(s));
      case TNum(n) => r := Some(Num(n));
      case TBool(b) => r := Some(Bool(b));
      case TNull => r := Some(Null);
      case ObjBegin => r := ParseObject();
      case ArrBegin => r := ParseArray();
      case _ => r := None;
    }

    method ParseArray() returns (r: Option<Value>)
      requires Valid()
      modifies this`ptr, this`current_depth, tmp`length, tmp.buf
      ensures Valid() && tmp.buf == old(tmp.buf) && old(ptr) <= ptr
      ensures match DecodeArray(cfg, data, old(ptr), old(current_depth), max_depth)
        case None => r == None
        case Some((v, end)) => r == Some(v) && ptr == end && current_depth == old(current_depth)
      decreases |data| - ptr, 2
    {
      hide NextToken, DecodeValue;
      if current_depth + 1 > max_depth { return None; }
      current_depth := current_depth + 1;
      var token := Next();
      if token == ArrEnd {
        current_depth := current_depth - 1;
        return Some(Obj([]));
      }
      if token == Error || token == End {
        NoValue(cfg, data, token, ptr, current_depth, max_depth, [], []);
      }
      r := ParseItems(token);
    }

    /** The elements, from the first one's token on, and the closing bracket. */
    method ParseItems(first: Token) returns (r: Option<Value>)
      requires Valid() && 0 < current_depth
      modifies this`ptr, this`current_depth, tmp`length, tmp.buf
      ensures Valid() && tmp.buf == old(tmp.buf) && old(ptr) <= ptr
      ensures match DecodeItems(cfg, data, first, old(ptr), old(current_depth), max_depth, [])
        case None => r == None
        case Some((v, end)) => r == Some(v) && ptr == end && current_depth == old(current_depth) - 1
      decreases |data| - ptr, if first in {End, Error} then 1 else 4
    {
      hide NextToken, DecodeValue, DecodeItems;
      var items, token := [], first;
      ghost var goal := DecodeItems(cfg, data, token, ptr, current_depth, max_depth, []);
      while true
        invariant Valid() && tmp.buf == old(tmp.buf) && old(ptr) <= ptr
        invariant current_depth == old(current_depth) && (token == first || old(ptr) < ptr)
        invariant goal == DecodeItems(cfg, data, token, ptr, current_depth, max_depth, items)
        decreases |data| - ptr
      {
        ItemsTurn(cfg, data, token, ptr, current_depth, max_depth, items);
        var item := ProcessValue(token);
        if item == None { return None; }
        items := items + [item.value];
        token := Next();
        if token == ArrEnd {
          current_depth := current_depth - 1;
          return Some(Arr(items));
        }
        if token != Comma { return None; }
        ghost var before := ptr;
        token := Next();
        if token == Error {
          NoValue(cfg, data, token, NextToken(cfg, data, before).1, current_depth, max_depth, items, []);
          NoValue(cfg, data, token, ptr, current_depth, max_depth, items, []);
        }
      }
    }

    /** The colon and the value of a member. */
    method ParseMemberValue() returns (v: Option<Value>)
      requires Valid()
      modifies this`ptr, this`current_depth, tmp`length, tmp.buf
      ensures Valid() && tmp.buf == old(tmp.buf) && old(ptr) <= ptr
      ensures
        var (colon, c) := NextToken(cfg, data, old(ptr));
        var (first, f) := NextToken(cfg, data, c);
        var r := DecodeValue(cfg, data, first, f, old(current_depth), max_depth);
        if colon != Colon || r.None? then v == None
        else v == Some(r.value.0) && ptr == r.value.1 && current_depth == old(current_depth) && old(ptr) < ptr
      decreases |data| - ptr, 0
    {
      hide NextToken, DecodeValue;
      var token := Next();
      if token != Colon { return None; }
      ghost var c := ptr;
      token := Next();
      if token == Error {
        NoValue(cfg, data, token, NextToken(cfg, data, c).1, current_depth, max_depth, [], []);
        NoValue(cfg, data, token, ptr, current_depth, max_depth, [], []);
      }
      v := ProcessValue(token);
    }

    method ParseObject() returns (r: Option<Value>)
      requires Valid()
      modifies this`ptr, this`current_depth, tmp`length, tmp.buf
      ensures Valid() && tmp.buf == old(tmp.buf) && old(ptr) <= ptr
      ensures match DecodeObject(cfg, data, old(ptr), old(current_depth), max_depth)
        case None => r == None
        case Some((v, end)) => r == Some(v) && ptr == end && current_depth == old(current_depth)
      decreases |data| - ptr, 2
    {
      hide NextToken, DecodeValue;
      if current_depth + 1 > max_depth { return None; }
      current_depth := current_depth + 1;
      var token := Next();
      if token == ObjEnd {
        current_depth := current_depth - 1;
        return Some(Obj([]));
      }
      if token == Error || token == End {
        NoValue(cfg, data, token, ptr, current_depth, max_depth, [], []);
      }
      r := ParseMembers(token);
    }

    /** The members, from the first one's token on, and the closing bracket. */
    method ParseMembers(first: Token) returns (r: Option<Value>)
      requires Valid() && 0 < current_depth
      modifies this`ptr, this`current_depth, tmp`length, tmp.buf
      ensures Valid() && tmp.buf == old(tmp.buf) && old(ptr) <= ptr
      ensures match DecodeMembers(cfg, data, first, old(ptr), old(current_depth), max_depth, [])
        case None => r == None
        case Some((v, end)) => r == Some(v) && ptr == end && current_depth == old(current_depth) - 1
      decreases |data| - ptr, if first in {End, Error} then 1 else 4
    {
      hide NextToken, DecodeValue, DecodeMembers;
      var members, token := [], first;
      ghost var goal := DecodeMembers(cfg, data, token, ptr, current_depth, max_depth, []);
      while true
        invariant Valid() && tmp.buf == old(tmp.buf) && old(ptr) <= ptr
        invariant current_depth == old(current_depth)
        invariant goal == DecodeMembers(cfg, data, token, ptr, current_depth, max_depth, members)
        decreases |data| - ptr
      {
        MembersTurn(cfg, data, token, ptr, current_depth, max_depth, members);
        if !token.TStr? { return None; }
        var key := token.s;
        var v := ParseMemberValue();
        if v == None { return None; }
        members := SetKey(members, key, v.value);
        token := Next();
        if token == ObjEnd {
          current_depth := current_depth - 1;
          return Some(Obj(members));
        }
        if token != Comma { return None; }
        ghost var before := ptr;
        token := Next();
        if token == Error {
          NoValue(cfg, data, token, NextToken(cfg, data, before).1, current_depth, max_depth, [], members);
          NoValue(cfg, data, token, ptr, current_depth, max_depth, [], members);
        }
      }
    }
  }

  /** Without the start of a value there is no value, wherever the pointer was left. */
  lemma NoValue(cfg: Numbers, t: Text, tok: Token, i: nat, d: nat, max: nat, items: seq<Value>, members: seq<Member>)
    requires i <= |t| && tok in {Error, End}
    ensures DecodeValue(cfg, t, tok, i, d, max) == None && DecodeItems(cfg, t, tok, i, d, max, items) == None
    ensures DecodeMembers(cfg, t, tok, i, d, max, members) == None
  {}

  lemma ItemsTurn(cfg: Numbers, t: Text, tok: Token, i: nat, d: nat, max: nat, acc: seq<Value>)
    requires i <= |t|
    ensures DecodeItems(cfg, t, tok, i, d, max, acc) ==
      var r := DecodeValue(cfg, t, tok, i, d, max);
      if r.None? then None else AfterItem(cfg, t, r.value.0, r.value.1, d, max, acc)
  {
    hide NextToken, DecodeValue;
  }

  function AfterItem(cfg: Numbers, t: Text, v: Value, j: nat, d: nat, max: nat, acc: seq<Value>): Option<(Value, nat)>
    requires j <= |t|
  {
    var (sep, k) := NextToken(cfg, t, j);
    if sep == ArrEnd then Some((Arr(acc + [v]), k))
    else if sep != Comma then None
    else DecodeItems(cfg, t, NextToken(cfg, t, k).0, NextToken(cfg, t, k).1, d, max, acc + [v])
  }

  lemma MembersTurn(cfg: Numbers, t: Text, tok: Token, i: nat, d: nat, max: nat, acc: seq<Member>)
    requires i <= |t|
    ensures DecodeMembers(cfg, t, tok, i, d, max, acc) ==
      var (colon, c) := NextToken(cfg, t, i);
      var (first, f) := NextToken(cfg, t, c);
      if !tok.TStr? || colon != Colon then None
      else
        var r := DecodeValue(cfg, t, first, f, d, max);
        if r.None? then None else AfterMember(cfg, t, tok.s, r.value.0, r.value.1, d, max, acc)
  {
    hide NextToken, DecodeValue;
  }

  function AfterMember(cfg: Numbers, t: Text, key: Text, v: Value, j: nat, d: nat, max: nat, acc: seq<Member>)
    : Option<(Value, nat)>
    requires j <= |t|
  {
    var (sep, k) := NextToken(cfg, t, j);
    if sep == ObjEnd then Some((Obj(SetKey(acc, key, v)), k))
    else if sep != Comma then None
    else DecodeMembers(cfg, t, NextToken(cfg, t, k).0, NextToken(cfg, t, k).1, d, max, SetKey(acc, key, v))
  }

  lemma ContinuedNothing(r: Option<(Text, nat)>)
    ensures Continued([], r) == r
  {
    match r
    case None =>
    case Some((s, _)) => assert [] + s == s;
  }

  lemma PieceKinds(t: Text, i: nat)
    requires i <= |t|
    ensures NextPiece(t, i).Closing? <==> At(t, i) == '\"'
  {}

  /** The decoder as it runs computes Decode. */
  method DecodeText(cfg: Numbers, data: Text, max_depth: nat) returns (r: Option<Value>)
    ensures r == Decode(cfg, data, max_depth)
  {
    hide NextToken, DecodeArray, DecodeObject;
    if |data| >= 2 && (data[0] == '\0' || data[1] == '\0') { return None; }
    var parser := new Parser(cfg, data, max_depth);
    var token := parser.Next();
    var v := parser.ProcessValue(token);
    if v == None { return None; }
    token := parser.Next();
    if token != End { return None; }
    return v;
  }
}
