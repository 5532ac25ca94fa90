/** Whatever the decoder reads is a text of the grammar, read as what it stands for; with JsonReading,
    the texts that are read as strict JSON are exactly those (lua_cjson.c: json_process_value,
    json_parse_object_context, json_parse_array_context, json_decode). */
module JsonAcceptance {
  import opened Options
  import opened JsonText
  import opened JsonCodec
  import opened JsonTokens
  import opened JsonGrammar
  import opened JsonReading
  import JsonClosure
  import DecimalScan

  // ----- Strings -----

  lemma UnitOf(t: Text, i: nat, u: nat)
    requires HexAt(t, i + 2, u) && t[i] == '\\' && t[i + 1] == 'u'
    ensures i + 6 <= |t| && FourHex(t[i + 2..i + 6], u) && t[i..i + 6] == "\\u" + t[i + 2..i + 6]
  {
    hide HexIs;
    Slices(t, i, i + 2, i + 6);
    assert t[i..i + 2] == "\\u";
  }

  lemma PartOf(t: Text, i: nat) returns (p: Part)
    requires i <= |t| && NextPiece(t, i).Bytes?
    ensures LegalPart(p) && PartText(p) == t[i..i + NextPiece(t, i).len] && PartBytes(p) == NextPiece(t, i).bytes
  {
    hide Utf8, UnicodeEscape, Unescape;
    var c := At(t, i);
    if c != '\\' {
      p := Plain(c);
    } else if At(t, i + 1) == 'u' {
      p := EscapeOf(t, i);
    } else {
      p := ShortOf(t, i);
    }
  }

  lemma ShortOf(t: Text, i: nat) returns (p: Part)
    requires i < |t| && t[i] == '\\' && Unescape(At(t, i + 1)).Some?
    ensures LegalPart(p) && PartText(p) == t[i..i + 2] && PartBytes(p) == [Unescape(At(t, i + 1)).value]
  {
    var k := LetterOf(At(t, i + 1));
    ShortReads(k);
    p := Short(k);
  }

  lemma LetterOf(c: Byte) returns (k: Letter)
    requires Unescape(c).Some?
    ensures SHORT_LETTERS[k] == c && c != '\0'
  {
    k := if c == '\"' then 0 else if c == '\\' then 1 else if c == '/' then 2 else if c == 'b' then 3
      else if c == 'f' then 4 else if c == 'n' then 5 else if c == 'r' then 6 else 7;
  }

  lemma EscapeOf(t: Text, i: nat) returns (p: Part)
    requires i + 2 <= |t| && t[i] == '\\' && t[i + 1] == 'u' && UnicodeEscape(t, i).Some?
    ensures var (cp, len) := UnicodeEscape(t, i).value;
      LegalPart(p) && PartText(p) == t[i..i + len] && PartBytes(p) == Utf8(cp)
  {
    hide HexAt, Utf8, UnicodeEscape;
    EscapeMeaning(t, i);
    if u :| UnitAt(t, i, u) {
      UnitOf(t, i, u);
      p := Unit(u, t[i + 2..i + 6]);
    } else {
      var u, l :| PairAt(t, i, u, l);
      UnitOf(t, i, u);
      UnitOf(t, i + 6, l);
      Slices(t, i, i + 6, i + 12);
      p := Pair(u, t[i + 2..i + 6], l, t[i + 8..i + 12]);
    }
  }

  lemma {:induction false} PartsOf(t: Text, i: nat) returns (ps: seq<Part>)
    requires i <= |t| && Unquote(t, i).Some?
    ensures var (s, end) := Unquote(t, i).value;
      LegalParts(ps) && PartsText(ps) + "\"" == t[i..end] && PartsBytes(ps) == s
    decreases |t| - i
  {
    hide NextPiece, LegalPart, PartText, PartBytes;
    var piece := NextPiece(t, i);
    if piece.Closing? {
      ps := [];
      ClosingIs(t, i);
    } else {
      var p := PartOf(t, i);
      var rest := PartsOf(t, i + piece.len);
      ps := [p] + rest;
      var end := Unquote(t, i).value.1;
      Slices(t, i, i + piece.len, end);
      assert ps[0] == p && ps[1..] == rest;
      assert PartsText(ps) + "\"" == PartText(p) + (PartsText(rest) + "\"");
    }
  }

  lemma ClosingIs(t: Text, i: nat)
    requires i <= |t| && NextPiece(t, i).Closing?
    ensures i < |t| && t[i..i + 1] == "\""
  {}

  // ----- Tokens -----

  /** Where the token at i starts, the white space in front skipped. */
  lemma TokenStart(t: Text, i: nat) returns (j: nat)
    requires i <= |t|
    ensures i <= j <= |t| && AllSpace(t[i..j]) && NextToken(Strict, t, j) == NextToken(Strict, t, i)
    ensures j == SkipSpace(t, i) == SkipSpace(t, j)
  {
    j := SkipSpace(t, i);
    SkippedIsSpace(t, i);
    assert Spelled(t, i, t[i..j]);
    hide NextToken;
    SpaceSkipped(Strict, t, i, t[i..j]);
    SkipTwice(t, i);
  }

  lemma {:induction false} SkipTwice(t: Text, i: nat)
    requires i <= |t|
    ensures SkipSpace(t, SkipSpace(t, i)) == SkipSpace(t, i)
    decreases |t| - i
  {
    if i < |t| && t[i] in " \t\n\r" {
      SkipTwice(t, i + 1);
    }
  }

  /** A token's text, seen from its start. */
  ghost predicate TokenIs(t: Text, j: nat, tok: Token, k: nat)
    requires j <= |t|
  {
    match tok
    case End => At(t, j) == '\0'
    case Error => true
    case TNull => j + 4 == k <= |t| && t[j..k] == "null"
    case TBool(b) => j + (if b then 4 else 5) == k <= |t| && t[j..k] == if b then "true" else "false"
    case TNum(n) => j <= k <= |t| && t[j..k] == n && IsNumber(n)
    case TStr(s) => j < k <= |t| && t[j] == '\"' && Unquote(t, j + 1) == Some((s, k))
    case _ => j + 1 == k <= |t| && exists c: Byte :: t[j..k] == [c] && c in "{}[],:" && tok == Punctuation(c)
  }

  lemma TokenText(t: Text, j: nat)
    requires j <= |t| && SkipSpace(t, j) == j
    ensures var (tok, k) := NextToken(Strict, t, j); TokenIs(t, j, tok, k)
  {
    hide Unquote, NumberToken, IsNumber, SkipSpace;
    var c := At(t, j);
    if c == '-' || DecimalScan.IsDigit(c) {
      NumberIs(t, j);
      if NumberToken(Strict, t, j).0.TNum? {
        JsonClosure.NumberAlone(t, j);
      }
    } else if c in "{}[],:" {
      assert t[j..j + 1] == [c];
    }
  }

  lemma NumberIs(t: Text, j: nat)
    requires j < |t|
    ensures var (tok, k) := NumberToken(Strict, t, j); tok == Error || (j <= k <= |t| && tok == TNum(t[j..k]))
  {
    hide InvalidNumber, NumberEnd;
  }

  /** The white space in front of a punctuation mark, and the mark. */
  lemma MarkOf(t: Text, i: nat, c: Byte) returns (space: Text)
    requires i <= |t| && c in "{}[],:" && NextToken(Strict, t, i).0 == Punctuation(c)
    ensures AllSpace(space) && t[i..NextToken(Strict, t, i).1] == space + [c]
  {
    hide NextToken;
    var j := TokenStart(t, i);
    TokenText(t, j);
    var k := NextToken(Strict, t, i).1;
    space := t[i..j];
    OneMark(c);
    Slices(t, i, j, k);
  }

  /** No two marks are the same token. */
  lemma OneMark(c: Byte)
    requires c in "{}[],:"
    ensures forall c': Byte :: c' in "{}[],:" && Punctuation(c') == Punctuation(c) ==> c' == c
    ensures Punctuation(c) in {ObjBegin, ObjEnd, ArrBegin, ArrEnd, Comma, Colon}
  {}

  // ----- Trees -----

  lemma Regroup(a: Text, b: Text, c: Text)
    ensures (a + b) + c == a + (b + c)
  {}

  /** A value that was read is a text of the grammar with white space in front. */
  lemma {:induction false} FormOf(t: Text, i: nat, d: nat, max: nat) returns (before: Text, f: Form)
    requires i <= |t| && d <= max && ValueAt(Strict, t, i, d, max).Some?
    ensures AllSpace(before) && Legal(f) && d + FormDepth(f) <= max
    ensures var (v, k) := ValueAt(Strict, t, i, d, max).value;
      i <= k <= |t| && t[i..k] == before + FormText(f) && Meaning(f) == v
    decreases |t| - i, 2
  {
    hide NextToken, DecodeArray, DecodeObject, NumeralText, LegalNumeral, IsNumber;
    var j := TokenStart(t, i);
    TokenText(t, j);
    var (tok, k) := NextToken(Strict, t, i);
    before := t[i..j];
    Slices(t, i, j, k);
    match tok
    case TNull => f := FNull;
    case TBool(b) => f := FBool(b);
    case TNum(n) =>
      var m := NumeralOf(n);
      f := FNum(m);
    case TStr(s) =>
      var ps := StringOf(t, j, s, k);
      f := FStr(ps);
    case ArrBegin => before, f := ArrayOf(t, i, d, max);
    case ObjBegin => before, f := ObjectOf(t, i, d, max);
    case _ => assert false;
  }

  lemma StringOf(t: Text, j: nat, s: Text, k: nat) returns (ps: seq<Part>)
    requires j < k <= |t| && t[j] == '\"' && Unquote(t, j + 1) == Some((s, k))
    ensures LegalParts(ps) && t[j..k] == StringText(ps) && PartsBytes(ps) == s
  {
    hide Unquote, LegalParts, PartsText, PartsBytes;
    ps := PartsOf(t, j + 1);
    Slices(t, j, j + 1, k);
    assert t[j..j + 1] == "\"";
  }

  lemma {:induction false} ArrayOf(t: Text, i: nat, d: nat, max: nat) returns (before: Text, f: Form)
    requires i <= |t| && d <= max && NextToken(Strict, t, i).0 == ArrBegin && ValueAt(Strict, t, i, d, max).Some?
    ensures AllSpace(before) && Legal(f) && d + FormDepth(f) <= max
    ensures var (v, k) := ValueAt(Strict, t, i, d, max).value;
      i <= k <= |t| && t[i..k] == before + FormText(f) && Meaning(f) == v
    decreases |t| - i, 1
  {
    hide NextToken, ValueAt, DecodeItems, FormText, Meaning, FormDepth, Legal, AllSpace;
    before := MarkOf(t, i, '[');
    var i1 := NextToken(Strict, t, i).1;
    ArrayOpen(t, i, d, max);
    var (tok, j) := NextToken(Strict, t, i1);
    if tok == ArrEnd {
      var space := MarkOf(t, i1, ']');
      f := FArr(space, []);
      EmptyArray(space);
      Slices(t, i, i1, j);
      Regroup(before, "[", space + "]");
    } else {
      var items := ItemsOf(t, i1, d + 1, max, []);
      f := FArr([], items);
      FullArray(items);
      var k := ValueAt(Strict, t, i, d, max).value.1;
      Slices(t, i, i1, k);
      Regroup(before, "[", ItemsText(items));
      assert [] + ItemsMeaning(items) == ItemsMeaning(items);
    }
  }

  lemma ArrayOpen(t: Text, i: nat, d: nat, max: nat)
    requires i <= |t| && NextToken(Strict, t, i).0 == ArrBegin && ValueAt(Strict, t, i, d, max).Some?
    ensures var i1 := NextToken(Strict, t, i).1; var (tok, j) := NextToken(Strict, t, i1);
      && d + 1 <= max
      && ValueAt(Strict, t, i, d, max)
         == if tok == ArrEnd then Some((Obj([]), j)) else DecodeItems(Strict, t, tok, j, d + 1, max, [])
  {
    hide NextToken, DecodeItems;
    assert ValueAt(Strict, t, i, d, max) == DecodeArray(Strict, t, NextToken(Strict, t, i).1, d, max);
  }

  /** A value with the white space around it and the mark behind. */
  lemma Sewn(t: Text, i: nat, j: nat, n: nat, x: Spaced, c: Byte)
    requires i <= j <= n <= |t| && t[i..j] == x.before + FormText(x.form) && t[j..n] == x.after + [c]
    ensures t[i..n] == SpacedText(x) + [c]
  {
    hide FormText;
    Slices(t, i, j, n);
  }

  lemma {:induction false} ItemsOf(t: Text, i: nat, d: nat, max: nat, acc: seq<Value>) returns (items: seq<Spaced>)
    requires i <= |t| && d <= max
    requires var (tok, j) := NextToken(Strict, t, i); DecodeItems(Strict, t, tok, j, d, max, acc).Some?
    ensures items != [] && LegalItems(items) && d + ItemsFormDepth(items) <= max
    ensures var (tok, j) := NextToken(Strict, t, i); var (v, k) := DecodeItems(Strict, t, tok, j, d, max, acc).value;
      i <= k <= |t| && t[i..k] == ItemsText(items) && v == Arr(acc + ItemsMeaning(items))
    decreases |t| - i, 3
  {
    hide NextToken, ValueAt, DecodeItems, FormText, SpacedText, ItemsText, Meaning, ItemsMeaning, FormDepth,
      ItemsFormDepth, Legal, LegalItems, AllSpace;
    ItemsOpen(t, i, d, max, acc);
    var before, f := FormOf(t, i, d, max);
    var (v, j) := ValueAt(Strict, t, i, d, max).value;
    ItemsTurn(Strict, t, i, v, j, d, max, acc);
    var (sep, n) := NextToken(Strict, t, j);
    var after := MarkOf(t, j, if sep == ArrEnd then ']' else ',');
    var x := Spaced(before, f, after);
    Sewn(t, i, j, n, x, if sep == ArrEnd then ']' else ',');
    SpacedLegal(x);
    if sep == ArrEnd {
      items := [x];
      OneItem(x);
      assert acc + [v] == acc + ItemsMeaning(items);
    } else {
      var rest := ItemsOf(t, n, d, max, acc + [v]);
      items := [x] + rest;
      MoreItems(x, rest);
      var (next, m) := NextToken(Strict, t, n);
      var k := DecodeItems(Strict, t, next, m, d, max, acc + [v]).value.1;
      Slices(t, i, n, k);
      assert (acc + [v]) + ItemsMeaning(rest) == acc + ItemsMeaning(items);
    }
  }

  lemma ItemsOpen(t: Text, i: nat, d: nat, max: nat, acc: seq<Value>)
    requires i <= |t|
    requires var (tok, j) := NextToken(Strict, t, i); DecodeItems(Strict, t, tok, j, d, max, acc).Some?
    ensures ValueAt(Strict, t, i, d, max).Some?
    ensures var (v, j) := ValueAt(Strict, t, i, d, max).value; var (sep, n) := NextToken(Strict, t, j);
      && j <= |t| && (sep == ArrEnd || sep == Comma)
      && (sep == Comma ==>
            var (next, m) := NextToken(Strict, t, n); DecodeItems(Strict, t, next, m, d, max, acc + [v]).Some?)
  {
    hide NextToken, DecodeValue;
  }

  lemma {:induction false} ObjectOf(t: Text, i: nat, d: nat, max: nat) returns (before: Text, f: Form)
    requires i <= |t| && d <= max && NextToken(Strict, t, i).0 == ObjBegin && ValueAt(Strict, t, i, d, max).Some?
    ensures AllSpace(before) && Legal(f) && d + FormDepth(f) <= max
    ensures var (v, k) := ValueAt(Strict, t, i, d, max).value;
      i <= k <= |t| && t[i..k] == before + FormText(f) && Meaning(f) == v
    decreases |t| - i, 1
  {
    hide NextToken, ValueAt, DecodeMembers, FormText, Meaning, FormDepth, Legal, AllSpace;
    before := MarkOf(t, i, '{');
    var i1 := NextToken(Strict, t, i).1;
    ObjectOpen(t, i, d, max);
    var (tok, j) := NextToken(Strict, t, i1);
    if tok == ObjEnd {
      var space := MarkOf(t, i1, '}');
      f := FObj(space, []);
      EmptyObject(space);
      Slices(t, i, i1, j);
      Regroup(before, "{", space + "}");
    } else {
      var members := MembersOf(t, i1, d + 1, max, []);
      f := FObj([], members);
      FullObject(members);
      var k := ValueAt(Strict, t, i, d, max).value.1;
      Slices(t, i, i1, k);
      Regroup(before, "{", MembersText(members));
    }
  }

  lemma ObjectOpen(t: Text, i: nat, d: nat, max: nat)
    requires i <= |t| && NextToken(Strict, t, i).0 == ObjBegin && ValueAt(Strict, t, i, d, max).Some?
    ensures var i1 := NextToken(Strict, t, i).1; var (tok, j) := NextToken(Strict, t, i1);
      && d + 1 <= max
      && ValueAt(Strict, t, i, d, max)
         == if tok == ObjEnd then Some((Obj([]), j)) else DecodeMembers(Strict, t, tok, j, d + 1, max, [])
  {
    hide NextToken, DecodeMembers;
    assert ValueAt(Strict, t, i, d, max) == DecodeObject(Strict, t, NextToken(Strict, t, i).1, d, max);
  }

  lemma {:induction false} MembersOf(t: Text, i: nat, d: nat, max: nat, acc: seq<Member>) returns (members: seq<Entry>)
    requires i <= |t| && d <= max
    requires var (tok, j) := NextToken(Strict, t, i); DecodeMembers(Strict, t, tok, j, d, max, acc).Some?
    ensures members != [] && LegalMembers(members) && d + MembersFormDepth(members) <= max
    ensures var (tok, j) := NextToken(Strict, t, i); var (v, k) := DecodeMembers(Strict, t, tok, j, d, max, acc).value;
      i <= k <= |t| && t[i..k] == MembersText(members) && v == Obj(MembersMeaning(members, acc))
    decreases |t| - i, 3
  {
    hide NextToken, ValueAt, DecodeMembers, FormText, EntryText, MembersText, Meaning, MembersMeaning, FormDepth,
      MembersFormDepth, Legal, LegalParts, LegalEntry, LegalMembers, AllSpace, PartsBytes, SetKey;
    MembersOpen(t, i, d, max, acc);
    var (tok, j) := NextToken(Strict, t, i);
    var c := NextToken(Strict, t, j).1;
    var before, ps := KeyOf(t, i);
    var middle := MarkOf(t, j, ':');
    var front, f := FormOf(t, c, d, max);
    var (v, e) := ValueAt(Strict, t, c, d, max).value;
    MembersTurn(Strict, t, i, c, v, e, d, max, acc);
    var (sep, n) := NextToken(Strict, t, e);
    var mark: Byte := if sep == ObjEnd then '}' else ',';
    var after := MarkOf(t, e, mark);
    var m := Entry(before, ps, middle, Spaced(front, f, after));
    SewnEntry(t, i, j, c, e, n, m, mark);
    EntryLegal(m);
    var acc' := SetKey(acc, tok.s, v);
    if sep == ObjEnd {
      members := [m];
      OneMember(m, acc);
    } else {
      var rest := MembersOf(t, n, d, max, acc');
      members := [m] + rest;
      MoreMembers(m, rest, acc);
      var (next, o) := NextToken(Strict, t, n);
      var k := DecodeMembers(Strict, t, next, o, d, max, acc').value.1;
      Slices(t, i, n, k);
    }
  }

  /** A key with the white space in front. */
  lemma KeyOf(t: Text, i: nat) returns (before: Text, ps: seq<Part>)
    requires i <= |t| && NextToken(Strict, t, i).0.TStr?
    ensures AllSpace(before) && LegalParts(ps)
    ensures var (tok, k) := NextToken(Strict, t, i); t[i..k] == before + StringText(ps) && PartsBytes(ps) == tok.s
  {
    hide NextToken, LegalParts, PartsBytes, StringText;
    var j := TokenStart(t, i);
    TokenText(t, j);
    var (tok, k) := NextToken(Strict, t, i);
    before := t[i..j];
    ps := StringOf(t, j, tok.s, k);
    Slices(t, i, j, k);
  }

  lemma MembersOpen(t: Text, i: nat, d: nat, max: nat, acc: seq<Member>)
    requires i <= |t|
    requires var (tok, j) := NextToken(Strict, t, i); DecodeMembers(Strict, t, tok, j, d, max, acc).Some?
    ensures var (tok, j) := NextToken(Strict, t, i); var (colon, c) := NextToken(Strict, t, j);
      && tok.TStr? && colon == Colon && ValueAt(Strict, t, c, d, max).Some?
      && var (v, e) := ValueAt(Strict, t, c, d, max).value; var (sep, n) := NextToken(Strict, t, e);
        && e <= |t| && (sep == ObjEnd || sep == Comma)
        && (sep == Comma ==>
              var (next, o) := NextToken(Strict, t, n);
              DecodeMembers(Strict, t, next, o, d, max, SetKey(acc, tok.s, v)).Some?)
  {
    hide NextToken, DecodeValue;
  }

  lemma SewnEntry(t: Text, i: nat, j: nat, c: nat, e: nat, n: nat, m: Entry, mark: Byte)
    requires i <= j <= c <= e <= n <= |t|
    requires t[i..j] == m.before + StringText(m.key) && t[j..c] == m.middle + ":"
    requires t[c..e] == m.value.before + FormText(m.value.form) && t[e..n] == m.value.after + [mark]
    ensures t[i..n] == EntryText(m) + [mark]
  {
    hide StringText, FormText, SpacedText;
    Sewn(t, c, e, n, m.value, mark);
    Slices(t, i, j, n);
    Slices(t, j, c, n);
    FiveParts(m.before, StringText(m.key), m.middle, SpacedText(m.value), mark);
  }

  lemma FiveParts(a: Text, b: Text, c: Text, d: Text, mark: Byte)
    ensures (a + b) + ((c + ":") + (d + [mark])) == (a + (b + (c + (":" + d)))) + [mark]
  {}

  // ----- Whole texts -----

  /** What is read is a text of the grammar, up to the end or a zero byte. */
  lemma ReadIsGrammar(t: Text, max: nat) returns (s: Spaced)
    requires Decode(Strict, t, max).Some?
    ensures LooksLikeUtf8(t) && Begins(t, s) && FormDepth(s.form) <= max
    ensures Legal(s.form) && Decode(Strict, t, max) == Some(Meaning(s.form))
  {
    hide NextToken, DecodeValue, FormText, FormDepth, Legal, Meaning, AllSpace;
    var before, f := FormOf(t, 0, 0, max);
    var k := ValueAt(Strict, t, 0, 0, max).value.1;
    var j := TokenStart(t, k);
    TokenText(t, j);
    s := Spaced(before, f, t[k..j]);
    SpacedLegal(s);
    Slices(t, 0, k, j);
    assert t[..j] == SpacedText(s);
    Prefixed(t, j);
  }

  lemma Prefixed(t: Text, j: nat)
    requires j <= |t|
    ensures Spelled(t, 0, t[..j]) && |t[..j]| == j
  {}

  /** A text is read as a value of strict JSON exactly when it is a text of the grammar within the depth
      limit, up to its end or a zero byte, and has no zero byte among its first two; the value is what
      it stands for. */
  lemma AcceptsExactly(t: Text, max: nat, v: Value)
    ensures Decode(Strict, t, max) == Some(v) <==>
      LooksLikeUtf8(t)
      && exists s :: Begins(t, s) && FormDepth(s.form) <= max && Legal(s.form) && Meaning(s.form) == v
  {
    hide Decode, Begins, FormDepth, Legal, Meaning, LooksLikeUtf8;
    if Decode(Strict, t, max) == Some(v) {
      var s := ReadIsGrammar(t, max);
    }
    forall s | LooksLikeUtf8(t) && Begins(t, s) && FormDepth(s.form) <= max && Legal(s.form) && Meaning(s.form) == v
      ensures Decode(Strict, t, max) == Some(v)
    {
      TextReads(Strict, t, s, max);
    }
  }
}
