/** Decoding what was encoded gives the tree back: the encoder writes texts of the grammar (lua_cjson.c:
    json_append_string, json_encode, json_decode). */
module JsonRoundTrip {
  import opened Options
  import opened JsonText
  import opened JsonCodec
  import opened JsonTokens
  import opened JsonGrammar
  import opened JsonReading

  // ----- Strings -----

  /** Escaped are the quote, the backslash, the slash, the control characters and the byte 127: five of
      the control characters by a letter, the others by four digits. */
  lemma EscapesWhich(c: Byte)
    ensures Escape(c) == [c] <==> 32 <= c as int && c as int != 127 && c != '\"' && c != '\\' && c != '/'
    ensures (exists k: Letter :: Escape(c) == ['\\', SHORT_LETTERS[k]] && SHORT_BYTES[k] == c as int)
      <==> c == '\"' || c == '\\' || c == '/' || c as int in {8, 9, 10, 12, 13}
    ensures |Escape(c)| == 6 <==> (c as int < 32 && c as int !in {8, 9, 10, 12, 13}) || c as int == 127
    ensures |Escape(c)| == 6 ==>
      Escape(c) == "\\u00" + ["0123456789abcdef"[c as int / 16], "0123456789abcdef"[c as int % 16]]
  {
    if |Escape(c)| == 6 {
      HexDigitIs(c as int / 16);
      HexDigitIs(c as int % 16);
    }
    if |Escape(c)| == 2 {
      var k := EscapeLetter(c);
    }
  }

  lemma EscapeLetter(c: Byte) returns (k: Letter)
    requires |Escape(c)| == 2
    ensures Escape(c) == ['\\', SHORT_LETTERS[k]] && SHORT_BYTES[k] == c as int
  {
    var n := c as int;
    k := if n == 34 then 0 else if n == 92 then 1 else if n == 47 then 2 else if n == 8 then 3
      else if n == 12 then 4 else if n == 10 then 5 else if n == 13 then 6 else 7;
  }

  lemma EscapedPart(c: Byte) returns (p: Part)
    ensures LegalPart(p) && PartText(p) == Escape(c) && PartBytes(p) == [c]
  {
    if |Escape(c)| == 1 {
      p := Plain(c);
    } else if |Escape(c)| == 2 {
      var k := EscapeLetter(c);
      hide Escape;
      p := Short(k);
    } else {
      EscapedUnit(c);
      hide Escape, FourHex;
      p := Unit(c as int, Escape(c)[2..]);
    }
  }

  lemma EscapedUnit(c: Byte)
    requires |Escape(c)| > 2
    ensures FourHex(Escape(c)[2..], c as int) && Escape(c) == "\\u" + Escape(c)[2..] && c as int < 128
  {
    var e, n := Escape(c), c as int;
    HexDigitIs(n / 16);
    HexDigitIs(n % 16);
    HexDigitIs(0);
    assert e == "\\u00" + [HexDigit(n / 16), HexDigit(n % 16)];
    hide Escape, HexIs, HexDigit;
    var h := e[2..];
    assert |h| == 4 && h[0] == '0' == h[1] && h[2] == HexDigit(n / 16) && h[3] == HexDigit(n % 16);
    assert e[..2] == "\\u";
  }

  lemma HexDigitIs(d: int)
    requires 0 <= d < 16
    ensures HexIs(HexDigit(d), d) && HexDigit(d) == "0123456789abcdef"[d]
  {}

  lemma {:induction false} EscapedParts(s: Text) returns (ps: seq<Part>)
    ensures LegalParts(ps) && PartsText(ps) == EscapeAll(s) && PartsBytes(ps) == s
  {
    hide LegalPart, PartText, PartBytes, Escape;
    if s == [] {
      ps := [];
    } else {
      var p := EscapedPart(s[0]);
      var rest := EscapedParts(s[1..]);
      ps := [p] + rest;
      assert ps[0] == p && ps[1..] == rest && s == [s[0]] + s[1..];
    }
  }

  /** Unquoting reads back any byte string, and stops right behind the closing quote. */
  lemma QuoteRoundTrip(t: Text, i: nat, s: Text)
    requires Spelled(t, i, EscapeAll(s) + "\"")
    ensures Unquote(t, i) == Some((s, i + |EscapeAll(s)| + 1))
  {
    hide LegalParts, PartsText, PartsBytes, EscapeAll, Unquote;
    var ps := EscapedParts(s);
    PartsRead(t, i, ps);
  }

  // ----- Trees -----

  /** No white space anywhere. */
  ghost predicate Dense(f: Form)
    decreases f, 0
  {
    match f
    case FArr(space, items) => space == [] && DenseItems(items)
    case FObj(space, members) => space == [] && DenseMembers(members)
    case _ => true
  }

  ghost predicate DenseItems(items: seq<Spaced>)
    decreases items, 1
  {
    items == []
    || (items[0].before == [] && items[0].after == [] && Dense(items[0].form) && DenseItems(items[1..]))
  }

  ghost predicate DenseMembers(members: seq<Entry>)
    decreases members, 1
  {
    members == [] || (DenseEntry(members[0]) && DenseMembers(members[1..]))
  }

  ghost predicate DenseEntry(m: Entry)
    decreases m, 0
  {
    m.before == [] && m.middle == [] && m.value.before == [] && m.value.after == [] && Dense(m.value.form)
  }

  ghost predicate DistinctKeys(members: seq<Member>) {
    forall i, j :: 0 <= i < j < |members| ==> members[i].key != members[j].key
  }

  /** What the encoder writes for a tree is a text of the grammar without white space, which stands for
      that tree. */
  lemma {:induction false} Written(v: Value) returns (f: Form)
    requires Encodable(v)
    ensures Legal(f) && FormText(f) == Encode(v) && Meaning(f) == v && FormDepth(f) == Depth(v) && Dense(f)
    decreases v, 0
  {
    hide EscapeAll, IsNumber, LegalNumeral, NumeralText, LegalParts, PartsText, PartsBytes;
    match v
    case Null => f := FNull;
    case Bool(b) => f := FBool(b);
    case Num(n) =>
      var m := NumeralOf(n);
      f := FNum(m);
    case Str(s) =>
      var ps := EscapedParts(s);
      f := FStr(ps);
    case Arr(_) => f := WrittenArray(v);
    case Obj(_) => f := WrittenObject(v);
  }

  lemma {:induction false} WrittenArray(v: Value) returns (f: Form)
    requires v.Arr? && Encodable(v)
    ensures Legal(f) && FormText(f) == Encode(v) && Meaning(f) == v && FormDepth(f) == Depth(v) && Dense(f)
    decreases v.items, 2
  {
    ArrayEncoded(v);
    hide Legal, FormText, Meaning, FormDepth, ItemsText, Encode, EncodeItems, Depth, ItemsDepth;
    var its := WrittenItems(v.items);
    f := FArr([], its);
    FullArray(its);
  }

  lemma ArrayEncoded(v: Value)
    requires v.Arr?
    ensures Encode(v) == "[" + (EncodeItems(v.items) + "]") && Depth(v) == 1 + ItemsDepth(v.items)
  {
    hide EncodeItems, ItemsDepth;
  }

  lemma Nothing(members: seq<Member>)
    ensures [] + members == members
  {}

  lemma ObjectEncoded(v: Value)
    requires v.Obj? && Encodable(v)
    ensures (forall m :: m in v.members ==> Encodable(m.value)) && DistinctKeys(v.members)
    ensures Encode(v) == "{" + (EncodeMembers(v.members) + "}") && Depth(v) == 1 + MembersDepth(v.members)
    ensures v.members == [] ==> EncodeMembers(v.members) == "" && MembersDepth(v.members) == 0
  {
    if v.members != [] {
      hide EncodeMembers, MembersDepth;
    }
  }

  lemma {:induction false} WrittenObject(v: Value) returns (f: Form)
    requires v.Obj? && Encodable(v)
    ensures Legal(f) && FormText(f) == Encode(v) && Meaning(f) == v && FormDepth(f) == Depth(v) && Dense(f)
    decreases v.members, 2
  {
    ObjectEncoded(v);
    hide Encodable, DistinctKeys, Legal, FormText, Meaning, FormDepth, MembersText, Encode, EncodeMembers, Depth,
      MembersDepth;
    if v.members == [] {
      f := FObj([], []);
      EmptyObject([]);
    } else {
      Nothing(v.members);
      var ms := WrittenMembers(v.members, []);
      f := FObj([], ms);
      FullObject(ms);
    }
  }

  function Tight(f: Form): Spaced { Spaced([], f, []) }

  lemma TightText(f: Form)
    requires Legal(f)
    ensures LegalSpaced(Tight(f)) && SpacedText(Tight(f)) == FormText(f)
  {
    hide Legal, FormText;
    assert FormText(f) + [] == FormText(f) == [] + FormText(f);
  }

  lemma {:induction false} WrittenItems(items: seq<Value>) returns (its: seq<Spaced>)
    requires items != [] && forall x :: x in items ==> Encodable(x)
    ensures its != [] && LegalItems(its) && ItemsText(its) == EncodeItems(items) + "]" && ItemsMeaning(its) == items
    ensures ItemsFormDepth(its) == ItemsDepth(items) && DenseItems(its)
    decreases items, 1
  {
    hide FormText, Legal, LegalItems, SpacedText, LegalSpaced, ItemsText, Meaning, ItemsMeaning, FormDepth,
      ItemsFormDepth, Encode, Encodable, Depth;
    var f := Written(items[0]);
    var x := Tight(f);
    TightText(f);
    if |items| == 1 {
      its := [x];
      OneItem(x);
      assert items == [items[0]];
    } else {
      var rest := WrittenItems(items[1..]);
      its := [x] + rest;
      MoreItems(x, rest);
      Regroup(Encode(items[0]), EncodeItems(items[1..]), "]");
      assert items == [items[0]] + items[1..];
    }
  }

  lemma Regroup(e: Text, rest: Text, close: Text)
    ensures e + "," + (rest + close) == (e + "," + rest) + close
  {}

  lemma {:induction false} WrittenMembers(members: seq<Member>, acc: seq<Member>) returns (ms: seq<Entry>)
    requires members != [] && (forall m :: m in members ==> Encodable(m.value)) && DistinctKeys(acc + members)
    ensures ms != [] && LegalMembers(ms) && MembersText(ms) == EncodeMembers(members) + "}"
    ensures MembersMeaning(ms, acc) == acc + members && MembersFormDepth(ms) == MembersDepth(members)
    ensures DenseMembers(ms)
    decreases members, 1
  {
    hide FormText, Legal, LegalEntry, LegalMembers, EntryText, MembersText, Meaning, MembersMeaning, FormDepth,
      MembersFormDepth, EncodeMember, Encodable, Depth, LegalParts, PartsBytes, SetKey;
    var first := members[0];
    var m := WrittenMember(first);
    KeyIsNew(acc, members);
    SetNewKey(acc, first.key, first.value);
    assert Member(first.key, first.value) == first;
    if |members| == 1 {
      ms := [m];
      OneMember(m, acc);
      assert acc + [first] == acc + members;
    } else {
      assert (acc + [first]) + members[1..] == acc + members;
      var rest := WrittenMembers(members[1..], acc + [first]);
      ms := [m] + rest;
      MoreMembers(m, rest, acc);
      Regroup(EncodeMember(first), EncodeMembers(members[1..]), "}");
    }
  }

  lemma {:induction false} WrittenMember(m: Member) returns (e: Entry)
    requires Encodable(m.value)
    ensures LegalEntry(e) && LegalParts(e.key) && Legal(e.value.form) && EntryText(e) == EncodeMember(m)
    ensures PartsBytes(e.key) == m.key && Meaning(e.value.form) == m.value && FormDepth(e.value.form) == Depth(m.value)
    ensures DenseEntry(e)
    decreases m, 0
  {
    hide FormText, Legal, LegalSpaced, SpacedText, Meaning, FormDepth, Encode, Encodable, Depth, LegalParts, PartsText,
      PartsBytes, EscapeAll;
    var f := Written(m.value);
    var ps := EscapedParts(m.key);
    TightText(f);
    e := Entry([], ps, [], Tight(f));
    var text := StringText(ps);
    assert [] + (text + ([] + (":" + FormText(f)))) == text + ":" + FormText(f);
  }

  /** A key that is not there yet is appended. */
  lemma {:induction false} SetNewKey(acc: seq<Member>, k: Text, v: Value)
    requires forall m :: m in acc ==> m.key != k
    ensures SetKey(acc, k, v) == acc + [Member(k, v)]
  {
    if acc != [] {
      SetNewKey(acc[1..], k, v);
      assert acc == [acc[0]] + acc[1..];
    }
  }

  lemma KeyIsNew(acc: seq<Member>, members: seq<Member>)
    requires members != [] && DistinctKeys(acc + members)
    ensures forall m :: m in acc ==> m.key != members[0].key
  {
    forall m | m in acc ensures m.key != members[0].key {
      var i :| 0 <= i < |acc| && acc[i] == m;
      assert (acc + members)[i] == m && (acc + members)[|acc|] == members[0];
    }
  }

  // ----- Decoding it -----

  /** An encoded tree, wherever it stands before a delimiter, decodes to itself and nothing more of
      the text is read. */
  lemma ValueRoundTrip(cfg: Numbers, t: Text, i: nat, v: Value, d: nat, max: nat)
    requires Encodable(v) && d + Depth(v) <= max
    requires Spelled(t, i, Encode(v)) && Delimiter(At(t, i + |Encode(v)|))
    ensures ValueAt(cfg, t, i, d, max) == Some((v, i + |Encode(v)|))
    ensures NextToken(cfg, t, i).0 !in {End, Error, ArrEnd, ObjEnd}
  {
    hide *;
    var f := Written(v);
    FormReads(cfg, t, i, f, d, max);
  }

  /** Decoding the encoding of a tree within the depth limit gives that tree. */
  lemma RoundTrip(cfg: Numbers, v: Value, max: nat)
    requires Encodable(v) && Depth(v) <= max
    ensures Decode(cfg, Encode(v), max) == Some(v)
  {
    hide Encodable, Legal, FormText, Encode, Meaning, Depth, FormDepth, Decode, LegalSpaced, SpacedText;
    var f := Written(v);
    TightText(f);
    GrammarReads(cfg, Tight(f), max);
  }
}
