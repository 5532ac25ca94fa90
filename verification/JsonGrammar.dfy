/** The texts of JSON as trees, independent of how they are read: what a tree is spelled as and what it
    stands for (RFC 4627 section 2). The decoder takes more than the RFC has: raw control characters in
    strings, numbers such as "-.5" and "5.", and values that are no table as whole texts. It takes
    less in one case: an escaped surrogate has to be one of a pair. */
module JsonGrammar {
  import opened Options
  import opened JsonText
  import opened JsonCodec
  import opened JsonTokens
  import DecimalScan

  // ----- Strings -----

  /** What a letter behind a backslash stands for. */
  const SHORT_LETTERS: Text := "\"\\/bfnrt"

  const SHORT_BYTES: seq<nat> := [34, 92, 47, 8, 12, 10, 13, 9]

  type Letter = k: nat | k < 8

  /** One character: raw, one of the short escapes, a code unit with its four digits, or two of them
      for a surrogate pair. */
  datatype Part =
    | Plain(c: Byte)
    | Short(k: Letter)
    | Unit(u: nat, hex: Text)
    | Pair(u: nat, high: Text, l: nat, low: Text)

  ghost predicate FourHex(h: Text, u: nat) { |h| == 4 && HexAt(h, 0, u) }

  ghost predicate LegalPart(p: Part) {
    match p
    case Plain(c) => c != '\"' && c != '\\' && c != '\0'
    case Short(_) => true
    case Unit(u, h) => FourHex(h, u) && !HighSurrogate(u) && !LowSurrogate(u)
    case Pair(u, h, l, h') => FourHex(h, u) && FourHex(h', l) && HighSurrogate(u) && LowSurrogate(l)
  }

  function PartText(p: Part): Text {
    match p
    case Plain(c) => [c]
    case Short(k) => ['\\', SHORT_LETTERS[k]]
    case Unit(_, h) => "\\u" + h
    case Pair(_, h, _, h') => "\\u" + h + ("\\u" + h')
  }

  ghost function PartBytes(p: Part): Text
    requires LegalPart(p)
  {
    match p
    case Plain(c) => [c]
    case Short(k) => [ToByte(SHORT_BYTES[k])]
    case Unit(u, _) => Utf8(u)
    case Pair(u, _, l, _) => Utf8(Paired(u, l))
  }

  ghost predicate LegalParts(ps: seq<Part>) { ps == [] || (LegalPart(ps[0]) && LegalParts(ps[1..])) }

  function PartsText(ps: seq<Part>): Text {
    if ps == [] then "" else PartText(ps[0]) + PartsText(ps[1..])
  }

  ghost function PartsBytes(ps: seq<Part>): Text
    requires LegalParts(ps)
  {
    if ps == [] then [] else PartBytes(ps[0]) + PartsBytes(ps[1..])
  }

  function StringText(ps: seq<Part>): Text { "\"" + (PartsText(ps) + "\"") }

  // ----- Numbers -----

  /** A sign, digits, a point with digits, and an exponent. */
  datatype Numeral = Numeral(minus: bool, ip: Text, point: bool, fp: Text, exponent: Text)

  ghost predicate Digits(s: Text) { forall i :: 0 <= i < |s| ==> DecimalScan.IsDigit(s[i]) }

  /** A letter, a sign or none, and digits. */
  ghost predicate IsExponent(e: Text) {
    |e| >= 2 && (e[0] == 'e' || e[0] == 'E')
    && if e[1] == '+' || e[1] == '-' then |e| >= 3 && Digits(e[2..]) else Digits(e[1..])
  }

  ghost predicate LegalNumeral(n: Numeral) {
    && Digits(n.ip) && Digits(n.fp) && (n.ip != [] || n.minus) && (n.ip != [] || n.fp != [])
    && (|n.ip| > 1 ==> n.ip[0] != '0')
    && (!n.point ==> n.fp == []) && (n.exponent == [] || IsExponent(n.exponent))
  }

  function Sign(minus: bool): Text { if minus then "-" else "" }

  function Fraction(n: Numeral): Text { if n.point then "." + n.fp else "" }

  function NumeralText(n: Numeral): Text { Sign(n.minus) + (n.ip + (Fraction(n) + n.exponent)) }

  // ----- Trees -----

  datatype Form =
    | FNull
    | FBool(b: bool)
    | FNum(n: Numeral)
    | FStr(parts: seq<Part>)
    | FArr(space: Text, items: seq<Spaced>)
    | FObj(space: Text, members: seq<Entry>)

  /** A value with white space around it. */
  datatype Spaced = Spaced(before: Text, form: Form, after: Text)

  datatype Entry = Entry(before: Text, key: seq<Part>, middle: Text, value: Spaced)

  ghost predicate Legal(f: Form)
    decreases f, 0
  {
    match f
    case FNum(n) => LegalNumeral(n)
    case FStr(ps) => LegalParts(ps)
    case FArr(space, items) => AllSpace(space) && LegalItems(items)
    case FObj(space, members) => AllSpace(space) && LegalMembers(members)
    case _ => true
  }

  ghost predicate LegalSpaced(s: Spaced)
    decreases s, 1
  {
    AllSpace(s.before) && AllSpace(s.after) && Legal(s.form)
  }

  ghost predicate LegalEntry(m: Entry)
    decreases m, 2
  {
    AllSpace(m.before) && AllSpace(m.middle) && LegalParts(m.key) && LegalSpaced(m.value)
  }

  ghost predicate LegalItems(items: seq<Spaced>)
    decreases items, 2
  {
    items == [] || (LegalSpaced(items[0]) && LegalItems(items[1..]))
  }

  ghost predicate LegalMembers(members: seq<Entry>)
    decreases members, 3
  {
    members == [] || (LegalEntry(members[0]) && LegalMembers(members[1..]))
  }

  function FormText(f: Form): Text
    decreases f, 0
  {
    match f
    case FNull => "null"
    case FBool(b) => if b then "true" else "false"
    case FNum(n) => NumeralText(n)
    case FStr(ps) => StringText(ps)
    case FArr(space, items) => if items == [] then "[" + (space + "]") else "[" + ItemsText(items)
    case FObj(space, members) => if members == [] then "{" + (space + "}") else "{" + MembersText(members)
  }

  function SpacedText(s: Spaced): Text
    decreases s, 1
  {
    s.before + (FormText(s.form) + s.after)
  }

  /** Items with commas between them and the bracket behind. */
  function ItemsText(items: seq<Spaced>): Text
    decreases items, 2
  {
    if items == [] then "]"
    else SpacedText(items[0]) + if |items| == 1 then "]" else "," + ItemsText(items[1..])
  }

  function EntryText(m: Entry): Text
    decreases m, 2
  {
    m.before + (StringText(m.key) + (m.middle + (":" + SpacedText(m.value))))
  }

  function MembersText(members: seq<Entry>): Text
    decreases members, 3
  {
    if members == [] then "}"
    else EntryText(members[0]) + if |members| == 1 then "}" else "," + MembersText(members[1..])
  }

  /** How many tables are nested at most. */
  function FormDepth(f: Form): nat
    decreases f, 0
  {
    match f
    case FArr(_, items) => 1 + ItemsFormDepth(items)
    case FObj(_, members) => 1 + MembersFormDepth(members)
    case _ => 0
  }

  function ItemsFormDepth(items: seq<Spaced>): nat
    decreases items, 1
  {
    if items == [] then 0 else Max(FormDepth(items[0].form), ItemsFormDepth(items[1..]))
  }

  function MembersFormDepth(members: seq<Entry>): nat
    decreases members, 1
  {
    if members == [] then 0 else Max(FormDepth(members[0].value.form), MembersFormDepth(members[1..]))
  }

  /** What a text stands for: an empty table is an object, and of equal keys the last one counts. */
  ghost function Meaning(f: Form): Value
    requires Legal(f)
    decreases f, 0
  {
    match f
    case FNull => Null
    case FBool(b) => Bool(b)
    case FNum(n) => Num(NumeralText(n))
    case FStr(ps) => Str(PartsBytes(ps))
    case FArr(_, items) => if items == [] then Obj([]) else Arr(ItemsMeaning(items))
    case FObj(_, members) => Obj(MembersMeaning(members, []))
  }

  ghost function ItemsMeaning(items: seq<Spaced>): (r: seq<Value>)
    requires LegalItems(items)
    ensures |r| == |items|
    decreases items, 1
  {
    if items == [] then []
    else
      assert LegalSpaced(items[0]);
      [Meaning(items[0].form)] + ItemsMeaning(items[1..])
  }

  ghost function MembersMeaning(members: seq<Entry>, acc: seq<Member>): seq<Member>
    requires LegalMembers(members)
    decreases members, 1
  {
    if members == [] then acc
    else
      var m := members[0];
      assert LegalEntry(m) && LegalSpaced(m.value);
      MembersMeaning(members[1..], SetKey(acc, PartsBytes(m.key), Meaning(m.value.form)))
  }

  // ----- Trees made of parts -----

  lemma EmptyArray(space: Text)
    requires AllSpace(space)
    ensures var f := FArr(space, []);
      Legal(f) && FormText(f) == "[" + (space + "]") && FormDepth(f) == 1 && Meaning(f) == Obj([])
  {
    hide AllSpace;
  }

  lemma FullArray(items: seq<Spaced>)
    requires items != [] && LegalItems(items)
    ensures var f := FArr([], items);
      && Legal(f) && FormText(f) == "[" + ItemsText(items) && FormDepth(f) == 1 + ItemsFormDepth(items)
      && Meaning(f) == Arr(ItemsMeaning(items))
  {
    hide LegalItems, ItemsText, ItemsFormDepth, ItemsMeaning;
  }

  lemma SpacedLegal(x: Spaced)
    requires AllSpace(x.before) && AllSpace(x.after) && Legal(x.form)
    ensures LegalSpaced(x)
  {
    hide AllSpace, Legal;
  }

  lemma OneItem(x: Spaced)
    requires LegalSpaced(x) && Legal(x.form)
    ensures LegalItems([x]) && ItemsText([x]) == SpacedText(x) + "]" && ItemsMeaning([x]) == [Meaning(x.form)]
    ensures ItemsFormDepth([x]) == FormDepth(x.form)
  {
    hide LegalSpaced, Legal, SpacedText, Meaning, FormDepth;
    var items := [x];
    assert items[0] == x && items[1..] == [];
  }

  lemma MoreItems(x: Spaced, rest: seq<Spaced>)
    requires LegalSpaced(x) && Legal(x.form) && rest != [] && LegalItems(rest)
    ensures var items := [x] + rest;
      && LegalItems(items) && ItemsText(items) == SpacedText(x) + "," + ItemsText(rest)
      && ItemsMeaning(items) == [Meaning(x.form)] + ItemsMeaning(rest)
      && ItemsFormDepth(items) == Max(FormDepth(x.form), ItemsFormDepth(rest))
  {
    hide LegalSpaced, Legal, SpacedText, Meaning, FormDepth;
    var items := [x] + rest;
    assert items[0] == x && items[1..] == rest;
  }

  lemma EmptyObject(space: Text)
    requires AllSpace(space)
    ensures var f := FObj(space, []);
      Legal(f) && FormText(f) == "{" + (space + "}") && FormDepth(f) == 1 && Meaning(f) == Obj([])
  {
    hide AllSpace;
  }

  lemma FullObject(members: seq<Entry>)
    requires members != [] && LegalMembers(members)
    ensures var f := FObj([], members);
      && Legal(f) && FormText(f) == "{" + MembersText(members) && FormDepth(f) == 1 + MembersFormDepth(members)
      && Meaning(f) == Obj(MembersMeaning(members, []))
  {
    hide LegalMembers, MembersText, MembersFormDepth, MembersMeaning;
  }

  lemma EntryLegal(m: Entry)
    requires AllSpace(m.before) && AllSpace(m.middle) && LegalParts(m.key)
    requires AllSpace(m.value.before) && AllSpace(m.value.after) && Legal(m.value.form)
    ensures LegalEntry(m) && LegalSpaced(m.value)
  {
    hide AllSpace, Legal, LegalParts;
  }

  lemma OneMember(m: Entry, acc: seq<Member>)
    requires LegalEntry(m) && LegalParts(m.key) && Legal(m.value.form)
    ensures LegalMembers([m]) && MembersText([m]) == EntryText(m) + "}"
    ensures MembersMeaning([m], acc) == SetKey(acc, PartsBytes(m.key), Meaning(m.value.form))
    ensures MembersFormDepth([m]) == FormDepth(m.value.form)
  {
    hide LegalEntry, LegalParts, Legal, EntryText, Meaning, FormDepth, PartsBytes, SetKey;
    var members := [m];
    assert members[0] == m && members[1..] == [];
  }

  lemma MoreMembers(m: Entry, rest: seq<Entry>, acc: seq<Member>)
    requires LegalEntry(m) && LegalParts(m.key) && Legal(m.value.form) && rest != [] && LegalMembers(rest)
    ensures var members := [m] + rest;
      && LegalMembers(members) && MembersText(members) == EntryText(m) + "," + MembersText(rest)
      && MembersMeaning(members, acc)
         == MembersMeaning(rest, SetKey(acc, PartsBytes(m.key), Meaning(m.value.form)))
      && MembersFormDepth(members) == Max(FormDepth(m.value.form), MembersFormDepth(rest))
  {
    hide LegalEntry, LegalParts, Legal, EntryText, Meaning, FormDepth, PartsBytes, SetKey;
    var members := [m] + rest;
    assert members[0] == m && members[1..] == rest;
  }

  // ----- Equal keys -----

  /** What the last member with a key stands for. */
  ghost function LastValue(members: seq<Entry>, k: Text): Option<Value>
    requires LegalMembers(members)
    decreases |members|
  {
    if members == [] then None
    else
      assert LegalEntry(members[0]) && LegalSpaced(members[0].value);
      match LastValue(members[1..], k)
      case Some(v) => Some(v)
      case None =>
        if PartsBytes(members[0].key) == k then Some(Meaning(members[0].value.form)) else None
  }

  function Lookup(ms: seq<Member>, k: Text): Option<Value> {
    if ms == [] then None else if ms[0].key == k then Some(ms[0].value) else Lookup(ms[1..], k)
  }

  lemma {:induction false} LookupSet(ms: seq<Member>, k: Text, v: Value, k': Text)
    ensures Lookup(SetKey(ms, k, v), k') == if k' == k then Some(v) else Lookup(ms, k')
  {
    if ms != [] {
      LookupSet(ms[1..], k, v, k');
    }
  }

  /** Of members with the same key the last one counts. */
  lemma {:induction false} LastCounts(members: seq<Entry>, acc: seq<Member>, k: Text)
    requires LegalMembers(members)
    ensures Lookup(MembersMeaning(members, acc), k) ==
      match LastValue(members, k) case Some(v) => Some(v) case None => Lookup(acc, k)
    decreases |members|
  {
    hide Meaning, PartsBytes, SetKey, Lookup;
    if members != [] {
      var m := members[0];
      assert LegalEntry(m) && LegalSpaced(m.value);
      LookupSet(acc, PartsBytes(m.key), Meaning(m.value.form), k);
      LastCounts(members[1..], SetKey(acc, PartsBytes(m.key), Meaning(m.value.form)), k);
    }
  }
}
