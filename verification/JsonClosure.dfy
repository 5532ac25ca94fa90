/** Whatever the decoder accepts can be encoded again, and then decodes to the same tree
    (lua_cjson.c: json_process_value, json_next_number_token). */
module JsonClosure {
  import opened Options
  import opened JsonText
  import opened JsonCodec
  import opened JsonTokens
  import opened JsonRoundTrip
  import DecimalScan

  // ----- A number cut out of its text -----

  lemma {:induction false} RunOfPart(n: Text, k: nat, t: Text, i: nat)
    requires k <= |n| && Spelled(t, i, n)
    ensures DecimalScan.Run(n, k) == if DecimalScan.Run(t, i + k) <= i + |n| then DecimalScan.Run(t, i + k) - i else |n|
    decreases |n| - k
  {
    if k < |n| {
      assert t[i + k] == n[k];
      RunOfPart(n, k + 1, t, i);
    }
  }

  lemma PartAt(n: Text, k: nat, t: Text, i: nat)
    requires Spelled(t, i, n)
    ensures DecimalScan.At(n, k) == if k < |n| then DecimalScan.At(t, i + k) else '\0'
  {}

  lemma EndsAlike(n: Text, p: nat, t: Text, i: nat)
    requires p <= |n| && Spelled(t, i, n)
    requires DecimalScan.Parse(t, i + p).Literal? && DecimalScan.Parse(t, i + p).end == i + |n|
    ensures DecimalScan.Parse(n, p).Literal? && DecimalScan.Parse(n, p).end == |n|
  {
    hide DecimalScan.DigitsIn, DecimalScan.Run, DecimalScan.ParseExponent, Spelled;
    var q := DecimalScan.Run(t, i + p);
    RunOfPart(n, p, t, i);
    ExponentAfter(t, q);
    PartAt(n, q - i, t, i);
    if DecimalScan.At(t, q) == '.' {
      var r := DecimalScan.Run(t, q + 1);
      ExponentAfter(t, r);
      RunOfPart(n, q + 1 - i, t, i);
      ExponentAlike(n, r - i, t, i);
    } else {
      ExponentAlike(n, q - i, t, i);
    }
  }

  lemma ExponentAlike(n: Text, r: nat, t: Text, i: nat)
    requires r <= |n| && Spelled(t, i, n) && DecimalScan.ParseExponent(t, i + r).1 == i + |n|
    ensures DecimalScan.ParseExponent(n, r).1 == |n|
  {
    hide DecimalScan.DigitsIn, DecimalScan.Run, Spelled;
    PartAt(n, r, t, i);
    PartAt(n, r + 1, t, i);
    if r < |n| && DecimalScan.At(t, i + r) in "eE" {
      var a := if DecimalScan.At(t, i + r + 1) in "+-" then r + 2 else r + 1;
      RunOfPart(n, a, t, i);
    }
  }

  lemma {:induction false} LettersAlike(n: Text, k: nat, t: Text, i: nat, w: string)
    requires k <= |n| && Spelled(t, i, n) && SameLetters(n, k, w)
    ensures SameLetters(t, i + k, w)
    decreases |w|
  {
    if w != "" {
      LettersAlike(n, k + 1, t, i, w[1..]);
    }
  }

  /** The text of a number token is a number by itself. */
  lemma NumberAlone(t: Text, i: nat)
    requires i < |t| && (t[i] == '-' || DecimalScan.IsDigit(t[i])) && NumberToken(Strict, t, i).0.TNum?
    ensures IsNumber(NumberToken(Strict, t, i).0.n)
  {
    hide DecimalScan.Parse, SameLetters;
    NumberStaysInside(t, i);
    var n := t[i..NumberEnd(t, i)];
    var p := if t[i] == '-' then 1 else 0;
    ParseEnds(t, i + p);
    EndsAlike(n, p, t, i);
    if p < |n| && SameLetters(n, p, "inf") {
      LettersAlike(n, p, t, i, "inf");
    }
    if p < |n| && SameLetters(n, p, "nan") {
      LettersAlike(n, p, t, i, "nan");
    }
  }

  lemma ParseEnds(t: Text, p: nat)
    requires DecimalScan.Parse(t, p).Literal?
    ensures p < DecimalScan.Parse(t, p).end
  {
    hide DecimalScan.DigitsIn, DecimalScan.Run;
  }

  // ----- Trees -----

  ghost predicate Sound(tok: Token) { tok.TNum? ==> IsNumber(tok.n) }

  lemma TokenSound(t: Text, i: nat)
    requires i <= |t|
    ensures Sound(NextToken(Strict, t, i).0)
  {
    hide Unquote, IsNumber, NumberToken;
    var j := SkipSpace(t, i);
    if NextToken(Strict, t, i).0.TNum? {
      NumberAlone(t, j);
    }
  }

  /** A tree that can be encoded inside d tables. */
  ghost predicate Fits(v: Value, d: nat, max: nat) { Encodable(v) && d + Depth(v) <= max }

  ghost predicate ItemsFit(items: seq<Value>, d: nat, max: nat) {
    d <= max && forall x :: x in items ==> Fits(x, d, max)
  }

  ghost predicate MembersFit(members: seq<Member>, d: nat, max: nat) {
    d <= max && DistinctKeys(members) && forall m :: m in members ==> Fits(m.value, d, max)
  }

  lemma {:induction false} ItemsDepthFits(items: seq<Value>, d: nat, max: nat)
    requires ItemsFit(items, d, max)
    ensures d + ItemsDepth(items) <= max
  {
    if items != [] {
      assert Fits(items[0], d, max);
      ItemsDepthFits(items[1..], d, max);
    }
  }

  lemma {:induction false} MembersDepthFits(members: seq<Member>, d: nat, max: nat)
    requires d <= max && forall m :: m in members ==> Fits(m.value, d, max)
    ensures d + MembersDepth(members) <= max
  {
    if members != [] {
      MembersDepthFits(members[1..], d, max);
    }
  }

  /** Setting a key keeps the keys apart. */
  lemma {:induction false} SetKeyFits(members: seq<Member>, k: Text, v: Value, d: nat, max: nat)
    requires MembersFit(members, d, max) && Fits(v, d, max)
    ensures MembersFit(SetKey(members, k, v), d, max)
    ensures forall m :: m in SetKey(members, k, v) ==> m.key == k || exists m' :: m' in members && m'.key == m.key
  {
    hide Fits;
    if members != [] {
      var first, rest := members[0], members[1..];
      assert members == [first] + rest;
      if first.key == k {
        assert SetKey(members, k, v) == [Member(k, v)] + rest;
      } else {
        SetKeyFits(rest, k, v, d, max);
        assert SetKey(members, k, v) == [first] + SetKey(rest, k, v);
        forall m | m in rest ensures m.key != first.key { OtherKey(members, m); }
        PutInFront(first, SetKey(rest, k, v), d, max);
      }
    }
  }

  lemma OtherKey(members: seq<Member>, m: Member)
    requires DistinctKeys(members) && members != [] && m in members[1..]
    ensures m.key != members[0].key
  {
    var i :| 0 <= i < |members| - 1 && members[1..][i] == m;
    assert members[i + 1] == m;
  }

  lemma PutInFront(first: Member, rest: seq<Member>, d: nat, max: nat)
    requires MembersFit(rest, d, max) && Fits(first.value, d, max) && forall m :: m in rest ==> m.key != first.key
    ensures MembersFit([first] + rest, d, max)
  {
    hide Fits;
    var all := [first] + rest;
    forall i, j | 0 <= i < j < |all| ensures all[i].key != all[j].key {
      assert all[j] == rest[j - 1];
      if i > 0 { assert all[i] == rest[i - 1]; }
    }
  }

  ghost predicate Closed(r: Option<(Value, nat)>, d: nat, max: nat) { r.Some? ==> Fits(r.value.0, d, max) }

  lemma {:induction false} ValueClosed(t: Text, tok: Token, i: nat, d: nat, max: nat)
    requires i <= |t| && Sound(tok) && d <= max
    ensures Closed(DecodeValue(Strict, t, tok, i, d, max), d, max)
    decreases |t| - i, 1
  {
    hide IsNumber, NextToken;
    if tok.ObjBegin? && d + 1 <= max {
      TokenSound(t, i);
      var (first, j) := NextToken(Strict, t, i);
      if first != ObjEnd && first != End && first != Error {
        MembersClosed(t, first, j, d + 1, max, []);
      }
    } else if tok.ArrBegin? && d + 1 <= max {
      TokenSound(t, i);
      var (first, j) := NextToken(Strict, t, i);
      if first != ArrEnd && first != End && first != Error {
        ItemsClosed(t, first, j, d + 1, max, []);
      }
    }
  }

  lemma {:induction false} ItemsClosed(t: Text, tok: Token, i: nat, d: nat, max: nat, acc: seq<Value>)
    requires i <= |t| && Sound(tok) && 0 < d && ItemsFit(acc, d, max)
    ensures Closed(DecodeItems(Strict, t, tok, i, d, max, acc), d - 1, max)
    decreases |t| - i, 2
  {
    hide IsNumber, NextToken, Fits, DecodeValue;
    ValueClosed(t, tok, i, d, max);
    var r := DecodeValue(Strict, t, tok, i, d, max);
    if r.Some? {
      var (v, j) := r.value;
      var (sep, k) := NextToken(Strict, t, j);
      var items := acc + [v];
      if sep == ArrEnd {
        ArrayFits(items, d, max);
      } else if sep == Comma {
        TokenSound(t, k);
        ItemsClosed(t, NextToken(Strict, t, k).0, NextToken(Strict, t, k).1, d, max, items);
      }
    }
  }

  lemma ArrayFits(items: seq<Value>, d: nat, max: nat)
    requires 0 < d && items != [] && ItemsFit(items, d, max)
    ensures Fits(Arr(items), d - 1, max)
  {
    ItemsDepthFits(items, d, max);
  }

  lemma ObjectFits(members: seq<Member>, d: nat, max: nat)
    requires 0 < d && MembersFit(members, d, max)
    ensures Fits(Obj(members), d - 1, max)
  {
    MembersDepthFits(members, d, max);
  }

  lemma {:induction false} MembersClosed(t: Text, tok: Token, i: nat, d: nat, max: nat, acc: seq<Member>)
    requires i <= |t| && Sound(tok) && 0 < d && MembersFit(acc, d, max)
    ensures Closed(DecodeMembers(Strict, t, tok, i, d, max, acc), d - 1, max)
    decreases |t| - i, 2
  {
    hide IsNumber, NextToken, Fits, DecodeValue, MembersFit;
    var (colon, c) := NextToken(Strict, t, i);
    if tok.TStr? && colon == Colon {
      var (first, f) := NextToken(Strict, t, c);
      TokenSound(t, c);
      assert d <= max by { DepthLeft(acc, d, max); }
      ValueClosed(t, first, f, d, max);
      var r := DecodeValue(Strict, t, first, f, d, max);
      if r.Some? {
        var (v, j) := r.value;
        var (sep, k) := NextToken(Strict, t, j);
        SetKeyFits(acc, tok.s, v, d, max);
        var members := SetKey(acc, tok.s, v);
        if sep == ObjEnd {
          ObjectFits(members, d, max);
        } else if sep == Comma {
          TokenSound(t, k);
          MembersClosed(t, NextToken(Strict, t, k).0, NextToken(Strict, t, k).1, d, max, members);
        }
      }
    }
  }

  lemma DepthLeft(members: seq<Member>, d: nat, max: nat)
    requires MembersFit(members, d, max)
    ensures d <= max
  {}

  /** A tree that was decoded from any text survives being encoded and decoded again. */
  lemma DecodedRoundTrip(cfg: Numbers, t: Text, max: nat, v: Value)
    requires Decode(Strict, t, max) == Some(v)
    ensures Encodable(v) && Depth(v) <= max && Decode(cfg, Encode(v), max) == Some(v)
  {
    hide NextToken, DecodeValue, Encode, Encodable;
    var (tok, i) := NextToken(Strict, t, 0);
    TokenSound(t, 0);
    ValueClosed(t, tok, i, 0, max);
    RoundTrip(cfg, v, max);
  }

  // ----- The two settings -----

  /** A token of strict JSON is the same token when more forms are read. */
  lemma SameToken(cfg: Numbers, t: Text, i: nat)
    requires i <= |t| && NextToken(Strict, t, i).0 != Error
    ensures NextToken(cfg, t, i) == NextToken(Strict, t, i)
  {
    hide Unquote, SameLetters, NumberEnd, DecimalScan.Parse;
    var j := SkipSpace(t, i);
    if At(t, j) == '-' || DecimalScan.IsDigit(At(t, j)) {
      SameNumber(cfg, t, j);
    }
  }

  lemma SameNumber(cfg: Numbers, t: Text, i: nat)
    requires i < |t| && NumberToken(Strict, t, i).0 != Error
    ensures NumberToken(cfg, t, i) == NumberToken(Strict, t, i)
  {
    hide SameLetters, DecimalScan.Parse;
  }

  lemma {:induction false} SameValue(cfg: Numbers, t: Text, tok: Token, i: nat, d: nat, max: nat)
    requires i <= |t| && DecodeValue(Strict, t, tok, i, d, max).Some?
    ensures DecodeValue(cfg, t, tok, i, d, max) == DecodeValue(Strict, t, tok, i, d, max)
    decreases |t| - i, 1
  {
    hide NextToken;
    if tok.ObjBegin? {
      SameToken(cfg, t, i);
      var (first, j) := NextToken(Strict, t, i);
      if first != ObjEnd {
        SameMembers(cfg, t, first, j, d + 1, max, []);
      }
    } else if tok.ArrBegin? {
      SameToken(cfg, t, i);
      var (first, j) := NextToken(Strict, t, i);
      if first != ArrEnd {
        SameItems(cfg, t, first, j, d + 1, max, []);
      }
    }
  }

  lemma {:induction false} SameItems(cfg: Numbers, t: Text, tok: Token, i: nat, d: nat, max: nat, acc: seq<Value>)
    requires i <= |t| && DecodeItems(Strict, t, tok, i, d, max, acc).Some?
    ensures DecodeItems(cfg, t, tok, i, d, max, acc) == DecodeItems(Strict, t, tok, i, d, max, acc)
    decreases |t| - i, 2
  {
    hide NextToken, DecodeValue;
    SameValue(cfg, t, tok, i, d, max);
    var (v, j) := DecodeValue(Strict, t, tok, i, d, max).value;
    SameToken(cfg, t, j);
    var (sep, k) := NextToken(Strict, t, j);
    if sep == Comma {
      var (next, n) := NextToken(Strict, t, k);
      if next == Error {
        NoValue(t, n, d, max);
      }
      SameToken(cfg, t, k);
      SameItems(cfg, t, next, n, d, max, acc + [v]);
    }
  }

  lemma NoValue(t: Text, i: nat, d: nat, max: nat)
    requires i <= |t|
    ensures DecodeValue(Strict, t, Error, i, d, max) == None
  {}

  lemma {:induction false} SameMembers(cfg: Numbers, t: Text, tok: Token, i: nat, d: nat, max: nat, acc: seq<Member>)
    requires i <= |t| && DecodeMembers(Strict, t, tok, i, d, max, acc).Some?
    ensures DecodeMembers(cfg, t, tok, i, d, max, acc) == DecodeMembers(Strict, t, tok, i, d, max, acc)
    decreases |t| - i, 2
  {
    hide NextToken, DecodeValue;
    SameToken(cfg, t, i);
    var c := NextToken(Strict, t, i).1;
    var (first, f) := NextToken(Strict, t, c);
    if first == Error {
      NoValue(t, f, d, max);
    }
    SameToken(cfg, t, c);
    SameValue(cfg, t, first, f, d, max);
    var (v, j) := DecodeValue(Strict, t, first, f, d, max).value;
    SameToken(cfg, t, j);
    var (sep, k) := NextToken(Strict, t, j);
    if sep == Comma {
      SameToken(cfg, t, k);
      SameMembers(cfg, t, NextToken(Strict, t, k).0, NextToken(Strict, t, k).1, d, max, SetKey(acc, tok.s, v));
    }
  }

  /** Reading more number forms changes nothing about the texts that are read without them. */
  lemma LenientReadsMore(cfg: Numbers, t: Text, max: nat)
    requires Decode(Strict, t, max).Some?
    ensures Decode(cfg, t, max) == Decode(Strict, t, max)
  {
    hide NextToken, DecodeValue;
    var (tok, i) := NextToken(Strict, t, 0);
    if tok == Error {
      NoValue(t, i, 0, max);
    }
    SameToken(cfg, t, 0);
    SameValue(cfg, t, tok, i, 0, max);
    SameToken(cfg, t, DecodeValue(Strict, t, tok, i, 0, max).value.1);
  }
}
