/** The encoder as it runs, appending to one buffer (lua_cjson.c: json_append_string,
    json_append_array, json_append_object, json_append_data, json_encode). */
module JsonEncoder {
  import opened Options
  import opened JsonText
  import opened JsonCodec
  import opened StringBuffer

  /** EscapeAll from position i on. */
  ghost function EscapesFrom(s: Text, i: nat): Text
    requires i <= |s|
    decreases |s| - i
  {
    if i == |s| then [] else Escape(s[i]) + EscapesFrom(s, i + 1)
  }

  lemma {:induction false} EscapesFromIs(s: Text, i: nat)
    requires i <= |s|
    ensures EscapesFrom(s, i) == EscapeAll(s[i..])
    decreases |s| - i
  {
    if i < |s| {
      EscapesFromIs(s, i + 1);
      assert s[i..][1..] == s[i + 1..];
    }
  }

  lemma Moved(done: Text, step: Text, rest: Text)
    ensures (done + step) + rest == done + (step + rest)
  {}

  /** One character of a string; there is room for the longest escape. */
  method AppendEscaped(json: Strbuf, c: Byte)
    requires json.Valid() && 6 <= json.EmptyLength()
    modifies json, json.buf
    ensures json.Valid() && json.buf == old(json.buf)
    ensures json.Contents() == old(json.Contents()) + Escape(c)
    ensures json.length <= old(json.length) + 6
  {
    var escaped := Escape(c);
    if escaped != [c] {
      json.AppendString(escaped);
    } else {
      json.AppendCharUnsafe(c);
    }
    assert |json.Contents()| == |old(json.Contents())| + |escaped|;
  }

  /** Room for six bytes a character and the quotes is asked for once; after that no append has to
      look, and none of them moves the buffer. */
  method AppendJsonString(json: Strbuf, s: Text)
    requires json.Valid()
    modifies json, json.buf
    ensures json.Valid() && (json.buf == old(json.buf) || fresh(json.buf))
    ensures json.Contents() == old(json.Contents()) + Quote(s)
  {
    hide Escape, EscapeAll;
    json.EnsureEmptyLength(|s| * 6 + 2);
    AppendInRoom(json, s);
  }

  method AppendInRoom(json: Strbuf, s: Text)
    requires json.Valid() && |s| * 6 + 2 <= json.EmptyLength()
    modifies json, json.buf
    ensures json.Valid() && json.buf == old(json.buf)
    ensures json.Contents() == old(json.Contents()) + Quote(s)
  {
    hide Escape;
    ghost var before := json.Contents();
    json.AppendCharUnsafe('\"');
    ghost var all := EscapesFrom(s, 0);
    assert json.Contents() + all == before + ("\"" + all);
    for i := 0 to |s|
      invariant json.Valid() && json.buf == old(json.buf)
      invariant (|s| - i) * 6 + 1 <= json.EmptyLength()
      invariant json.Contents() + EscapesFrom(s, i) == before + ("\"" + all)
    {
      Moved(json.Contents(), Escape(s[i]), EscapesFrom(s, i + 1));
      AppendEscaped(json, s[i]);
    }
    assert json.Contents() + EscapesFrom(s, |s|) == json.Contents();
    json.AppendCharUnsafe('\"');
    EscapesFromIs(s, 0);
    assert s[0..] == s;
    Moved(before, "\"" + all, "\"");
  }

  function Comma(i: nat): Text { if i > 0 then "," else "" }

  method AppendComma(json: Strbuf, i: nat)
    requires json.Valid()
    modifies json, json.buf
    ensures json.Valid() && (json.buf == old(json.buf) || fresh(json.buf))
    ensures json.Contents() == old(json.Contents()) + Comma(i)
  {
    if i > 0 {
      json.AppendChar(',');
    }
  }

  /** What the array loop still has to write before element i. */
  ghost function ItemsFrom(items: seq<Value>, i: nat): Text
    requires i <= |items|
    decreases |items| - i
  {
    if i == |items| then "" else (Comma(i) + Encode(items[i])) + ItemsFrom(items, i + 1)
  }

  lemma {:induction false} ItemsFromIs(items: seq<Value>, i: nat)
    requires i <= |items|
    ensures ItemsFrom(items, i) == if 0 < i < |items| then "," + EncodeItems(items[i..]) else EncodeItems(items[i..])
    decreases |items| - i
  {
    hide Encode;
    if i < |items| {
      ItemsFromIs(items, i + 1);
      assert items[i..][1..] == items[i + 1..];
    }
  }

  ghost function MembersFrom(members: seq<Member>, i: nat): Text
    requires i <= |members|
    decreases |members| - i
  {
    if i == |members| then "" else (Comma(i) + EncodeMember(members[i])) + MembersFrom(members, i + 1)
  }

  lemma {:induction false} MembersFromIs(members: seq<Member>, i: nat)
    requires i <= |members|
    ensures MembersFrom(members, i)
         == if 0 < i < |members| then "," + EncodeMembers(members[i..]) else EncodeMembers(members[i..])
    decreases |members| - i
  {
    hide EncodeMember;
    if i < |members| {
      MembersFromIs(members, i + 1);
      assert members[i..][1..] == members[i + 1..];
    }
  }

  lemma ItemsDeeper(items: seq<Value>, i: nat)
    requires i < |items|
    ensures ItemsDepth(items[i..]) == Max(Depth(items[i]), ItemsDepth(items[i + 1..]))
  {
    assert items[i..][1..] == items[i + 1..];
  }

  lemma MembersDeeper(members: seq<Member>, i: nat)
    requires i < |members|
    ensures MembersDepth(members[i..]) == Max(Depth(members[i].value), MembersDepth(members[i + 1..]))
  {
    assert members[i..][1..] == members[i + 1..];
  }

  /** Room for the longest number is asked for once, and the formatter writes there without looking. */
  method AppendNumber(json: Strbuf, n: Text)
    requires json.Valid() && |n| < NUMBER_SIZE
    modifies json, json.buf
    ensures json.Valid() && (json.buf == old(json.buf) || fresh(json.buf))
    ensures json.Contents() == old(json.Contents()) + n && 32 <= json.EmptyLength() + |n|
  {
    json.EnsureEmptyLength(NUMBER_SIZE);
    json.AppendMemUnsafe(n);
  }

  /** Fails exactly when the tables nest too deep; otherwise the encoding has been appended. */
  method AppendData(json: Strbuf, v: Value, depth: nat, max: nat) returns (ok: bool)
    requires json.Valid() && depth <= max && ShortNumbers(v)
    modifies json, json.buf
    ensures json.Valid() && (json.buf == old(json.buf) || fresh(json.buf))
    ensures ok <==> depth + Depth(v) <= max
    ensures ok ==> json.Contents() == old(json.Contents()) + Encode(v)
    decreases v, 1
  {
    match v
    case Str(s) => AppendJsonString(json, s); ok := true;
    case Num(n) => AppendNumber(json, n); ok := true;
    case Bool(b) => json.AppendMem(if b then "true" else "false"); ok := true;
    case Null => json.AppendMem("null"); ok := true;
    case Arr(items) =>
      if depth + 1 > max { return false; }
      ok := AppendArray(json, items, depth + 1, max);
    case Obj(members) =>
      if depth + 1 > max { return false; }
      ok := AppendObject(json, members, depth + 1, max);
  }

  method AppendArray(json: Strbuf, items: seq<Value>, depth: nat, max: nat) returns (ok: bool)
    requires json.Valid() && depth <= max && (forall x :: x in items ==> ShortNumbers(x))
    modifies json, json.buf
    ensures json.Valid() && (json.buf == old(json.buf) || fresh(json.buf))
    ensures ok <==> depth + ItemsDepth(items) <= max
    ensures ok ==> json.Contents() == old(json.Contents()) + ("[" + EncodeItems(items) + "]")
    decreases items, 2
  {
    hide Encode, EncodeItems, ItemsDepth, Depth;
    ghost var before := json.Contents();
    json.AppendChar('[');
    ghost var all := ItemsFrom(items, 0);
    assert items[0..] == items;
    Moved(before, "[", all);
    for i := 0 to |items|
      invariant json.Valid() && (json.buf == old(json.buf) || fresh(json.buf))
      invariant depth + ItemsDepth(items) <= max <==> depth + ItemsDepth(items[i..]) <= max
      invariant json.Contents() + ItemsFrom(items, i) == before + ("[" + all)
    {
      ItemsDeeper(items, i);
      Moved(json.Contents(), Comma(i) + Encode(items[i]), ItemsFrom(items, i + 1));
      ok := AppendItem(json, items, i, depth, max);
      if !ok { return; }
    }
    assert json.Contents() + ItemsFrom(items, |items|) == json.Contents();
    json.AppendChar(']');
    ok := true;
    assert depth + ItemsDepth(items) <= max by { NothingLeft(items, []); }
    ItemsFromIs(items, 0);
    Moved(before, "[" + all, "]");
  }

  lemma NothingLeft(items: seq<Value>, members: seq<Member>)
    ensures ItemsDepth(items[|items|..]) == 0 && MembersDepth(members[|members|..]) == 0
  {}

  method AppendItem(json: Strbuf, items: seq<Value>, i: nat, depth: nat, max: nat) returns (ok: bool)
    requires json.Valid() && depth <= max && i < |items| && ShortNumbers(items[i])
    modifies json, json.buf
    ensures json.Valid() && (json.buf == old(json.buf) || fresh(json.buf))
    ensures ok <==> depth + Depth(items[i]) <= max
    ensures ok ==> json.Contents() == old(json.Contents()) + (Comma(i) + Encode(items[i]))
    decreases items, 1
  {
    hide Encode, Depth, Comma;
    ghost var before := json.Contents();
    AppendComma(json, i);
    ok := AppendData(json, items[i], depth, max);
    Moved(before, Comma(i), Encode(items[i]));
  }

  method AppendObject(json: Strbuf, members: seq<Member>, depth: nat, max: nat) returns (ok: bool)
    requires json.Valid() && depth <= max && (forall m :: m in members ==> ShortNumbers(m.value))
    modifies json, json.buf
    ensures json.Valid() && (json.buf == old(json.buf) || fresh(json.buf))
    ensures ok <==> depth + MembersDepth(members) <= max
    ensures ok ==> json.Contents() == old(json.Contents()) + ("{" + EncodeMembers(members) + "}")
    decreases members, 2
  {
    hide EncodeMember, EncodeMembers, MembersDepth, Depth;
    ghost var before := json.Contents();
    json.AppendChar('{');
    ghost var all := MembersFrom(members, 0);
    assert members[0..] == members;
    Moved(before, "{", all);
    for i := 0 to |members|
      invariant json.Valid() && (json.buf == old(json.buf) || fresh(json.buf))
      invariant depth + MembersDepth(members) <= max <==> depth + MembersDepth(members[i..]) <= max
      invariant json.Contents() + MembersFrom(members, i) == before + ("{" + all)
    {
      MembersDeeper(members, i);
      Moved(json.Contents(), Comma(i) + EncodeMember(members[i]), MembersFrom(members, i + 1));
      ok := AppendMember(json, members, i, depth, max);
      if !ok { return; }
    }
    assert json.Contents() + MembersFrom(members, |members|) == json.Contents();
    json.AppendChar('}');
    ok := true;
    assert depth + MembersDepth(members) <= max by { NothingLeft([], members); }
    MembersFromIs(members, 0);
    Moved(before, "{" + all, "}");
  }

  method AppendMember(json: Strbuf, members: seq<Member>, i: nat, depth: nat, max: nat) returns (ok: bool)
    requires json.Valid() && depth <= max && i < |members| && ShortNumbers(members[i].value)
    modifies json, json.buf
    ensures json.Valid() && (json.buf == old(json.buf) || fresh(json.buf))
    ensures ok <==> depth + Depth(members[i].value) <= max
    ensures ok ==> json.Contents() == old(json.Contents()) + (Comma(i) + EncodeMember(members[i]))
    decreases members, 1
  {
    hide Encode, Depth, Comma, Quote;
    var m := members[i];
    ghost var before := json.Contents();
    AppendComma(json, i);
    AppendJsonString(json, m.key);
    json.AppendChar(':');
    Moved(before + Comma(i), Quote(m.key), ":");
    ok := AppendData(json, m.value, depth, max);
    Moved(before + Comma(i), Quote(m.key) + ":", Encode(m.value));
    Moved(before, Comma(i), EncodeMember(m));
  }

  /** The text of a tree, from the buffer that earlier calls left behind. */
  method EncodeTree(json: Strbuf, v: Value, max: nat) returns (text: Option<Text>)
    requires json.Valid() && ShortNumbers(v)
    modifies json, json.buf
    ensures json.Valid() && (json.buf == old(json.buf) || fresh(json.buf))
    ensures text == if Depth(v) <= max then Some(Encode(v)) else None
  {
    json.Reset();
    var ok := AppendData(json, v, 0, max);
    assert [] + Encode(v) == Encode(v);
    text := if ok then Some(json.buf[..json.length]) else None;
  }
}
