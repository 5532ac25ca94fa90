/** The moves as a rule book has them, by steps on the board and by counting the pieces in the way; they
    are the moves of ChessRules (GameLogic.cpp: IsWalkLegality). */
module ChessMoves {
  import opened Options
  import opened ChessRules

  ghost predicate Stands(items: seq<Item>, x: int, y: int) {
    exists k :: 0 <= k < |items| && items[k].x == x && items[k].y == y
  }

  /** One step along a file or a rank. */
  predicate Straight(x: int, y: int, xt: int, yt: int) {
    (xt == x && (yt == y + 1 || yt == y - 1)) || (yt == y && (xt == x + 1 || xt == x - 1))
  }

  predicate Diagonal(x: int, y: int, xt: int, yt: int) {
    (xt == x + 1 || xt == x - 1) && (yt == y + 1 || yt == y - 1)
  }

  /** Strictly between two points of one file or rank. */
  predicate Between(p: Item, x: nat, y: nat, xt: nat, yt: nat) {
    || (p.x == x == xt && (y < p.y < yt || yt < p.y < y))
    || (p.y == y == yt && (x < p.x < xt || xt < p.x < x))
  }

  ghost function InTheWay(items: seq<Item>, x: nat, y: nat, xt: nat, yt: nat): set<nat> {
    set k | 0 <= k < |items| && Between(items[k], x, y, xt, yt)
  }

  predicate SameLine(x: nat, y: nat, xt: nat, yt: nat) { (x == xt) != (y == yt) }

  predicate Palace(s: Side, x: nat, y: nat) {
    (x == 3 || x == 4 || x == 5) && if s == Black then y == 7 || y == 8 || y == 9 else y == 0 || y == 1 || y == 2
  }

  /** One step straight to an empty point, and from there one step diagonally outwards. */
  ghost predicate HorseRule(items: seq<Item>, x: nat, y: nat, xt: nat, yt: nat) {
    exists mx: int, my: int ::
      Straight(x, y, mx, my) && !Stands(items, mx, my) && Diagonal(mx, my, xt, yt) && xt != x && yt != y
  }

  /** One step diagonally to an empty point and on in the same direction, on the side's own half. */
  ghost predicate ElephantRule(items: seq<Item>, s: Side, x: nat, y: nat, xt: nat, yt: nat) {
    (if s == Black then yt >= 5 else yt <= 4)
    && exists mx: int, my: int ::
         Diagonal(x, y, mx, my) && !Stands(items, mx, my) && xt == mx + (mx - x) && yt == my + (my - y)
  }

  /** A step in the palace; or to the other general, nothing between. */
  ghost predicate GeneralRule(items: seq<Item>, s: Side, x: nat, y: nat, xt: nat, yt: nat) {
    if exists k :: 0 <= k < |items| && On(items[k], xt, yt) && items[k].chess == General then
      xt == x && yt != y && |InTheWay(items, x, y, xt, yt)| == 0
    else Straight(x, y, xt, yt) && Palace(s, xt, yt)
  }

  /** Along a line: over nothing to an empty point, over exactly one piece to take one. */
  ghost predicate CannonRule(items: seq<Item>, x: nat, y: nat, xt: nat, yt: nat) {
    SameLine(x, y, xt, yt) && |InTheWay(items, x, y, xt, yt)| == if Stands(items, xt, yt) then 1 else 0
  }

  ghost predicate RookRule(items: seq<Item>, x: nat, y: nat, xt: nat, yt: nat) {
    SameLine(x, y, xt, yt) && |InTheWay(items, x, y, xt, yt)| == 0
  }

  /** One step forwards; across the river also one to the side. */
  predicate SoldierRule(s: Side, x: nat, y: nat, xt: nat, yt: nat) {
    var forward := if s == Black then y - 1 else y + 1;
    var crossed := if s == Black then y <= 4 else y >= 5;
    (xt == x && yt == forward) || (crossed && yt == y && (xt == x + 1 || xt == x - 1))
  }

  /** A piece on the board may go to a point of the board without a piece of its own side, by the rule
      of its kind. */
  ghost predicate Allowed(items: seq<Item>, j: nat, xt: nat, yt: nat)
    requires j < |items|
  {
    var it := items[j];
    && it.x < 9 && it.y < 10 && xt < 9 && yt < 10
    && (forall k :: 0 <= k < |items| && On(items[k], xt, yt) ==> items[k].color != it.color)
    && match it.chess
       case General => GeneralRule(items, it.color, it.x, it.y, xt, yt)
       case Kavass => Diagonal(it.x, it.y, xt, yt) && Palace(it.color, xt, yt)
       case Elephant => ElephantRule(items, it.color, it.x, it.y, xt, yt)
       case Horse => HorseRule(items, it.x, it.y, xt, yt)
       case Rook => RookRule(items, it.x, it.y, xt, yt)
       case Cannon => CannonRule(items, it.x, it.y, xt, yt)
       case Soldier => SoldierRule(it.color, it.x, it.y, xt, yt)
       case NoChess => false
  }

  // ----- They are the moves -----

  lemma StandsIs(items: seq<Item>, x: nat, y: nat)
    ensures Empty(items, x, y) <==> !Stands(items, x, y)
    ensures At(items, x, y).None? <==> !Stands(items, x, y)
  {}

  lemma HorseAgrees(items: seq<Item>, x: nat, y: nat, xt: nat, yt: nat)
    ensures HorseRule(items, x, y, xt, yt) <==>
      || (Gap(x, xt) == 1 && Gap(y, yt) == 2 && Empty(items, x, (y + yt) / 2))
      || (Gap(x, xt) == 2 && Gap(y, yt) == 1 && Empty(items, (x + xt) / 2, y))
  {
    hide Stands, Empty;
    StandsIs(items, x, (y + yt) / 2);
    StandsIs(items, (x + xt) / 2, y);
    if Gap(x, xt) == 1 && Gap(y, yt) == 2 && Empty(items, x, (y + yt) / 2) {
      assert Straight(x, y, x, (y + yt) / 2);
    }
    if Gap(x, xt) == 2 && Gap(y, yt) == 1 && Empty(items, (x + xt) / 2, y) {
      assert Straight(x, y, (x + xt) / 2, y);
    }
  }

  lemma ElephantAgrees(items: seq<Item>, s: Side, x: nat, y: nat, xt: nat, yt: nat)
    ensures ElephantRule(items, s, x, y, xt, yt) <==>
      Gap(x, xt) == 2 && Gap(y, yt) == 2 && HomeHalf(s, yt) && Empty(items, (x + xt) / 2, (y + yt) / 2)
  {
    hide Stands, Empty;
    StandsIs(items, (x + xt) / 2, (y + yt) / 2);
    if Gap(x, xt) == 2 && Gap(y, yt) == 2 {
      assert Diagonal(x, y, (x + xt) / 2, (y + yt) / 2);
    }
  }

  /** A piece between stands some steps from the source towards the target. */
  lemma StepOf(p: Item, x: nat, y: nat, xt: nat, yt: nat) returns (k: nat)
    requires Between(p, x, y, xt, yt)
    ensures 0 < k < Distance(x, y, xt, yt) && p.x == Along(x, xt, k) && p.y == Along(y, yt, k)
  {
    k := Gap(x, p.x) + Gap(y, p.y);
  }

  lemma PieceOf(items: seq<Item>, x: nat, y: nat, xt: nat, yt: nat, k: nat) returns (i: nat)
    requires Aligned(x, y, xt, yt) && 0 < k < Distance(x, y, xt, yt) && Taken(items, x, y, xt, yt, k)
    ensures i in InTheWay(items, x, y, xt, yt) && items[i].x == Along(x, xt, k) && items[i].y == Along(y, yt, k)
  {
    i := At(items, Along(x, xt, k), Along(y, yt, k)).value;
  }

  lemma TakenThere(items: seq<Item>, x: nat, y: nat, xt: nat, yt: nat, i: nat) returns (k: nat)
    requires i in InTheWay(items, x, y, xt, yt)
    ensures 0 < k < Distance(x, y, xt, yt) && Taken(items, x, y, xt, yt, k)
    ensures items[i].x == Along(x, xt, k) && items[i].y == Along(y, yt, k)
  {
    k := StepOf(items[i], x, y, xt, yt);
  }

  lemma ClearIs(items: seq<Item>, x: nat, y: nat, xt: nat, yt: nat)
    requires Aligned(x, y, xt, yt)
    ensures Clear(items, x, y, xt, yt) <==> |InTheWay(items, x, y, xt, yt)| == 0
  {
    hide Taken, InTheWay, Along;
    var way := InTheWay(items, x, y, xt, yt);
    if way != {} {
      var i :| i in way;
      var k := TakenThere(items, x, y, xt, yt, i);
      assert |way| > 0;
    }
    if !Clear(items, x, y, xt, yt) {
      var k :| 0 < k < Distance(x, y, xt, yt) && Taken(items, x, y, xt, yt, k);
      var i := PieceOf(items, x, y, xt, yt, k);
    }
  }

  lemma OnePiece(items: seq<Item>, x: nat, y: nat, xt: nat, yt: nat)
    requires Sound(items) && Aligned(x, y, xt, yt) && x < 9 && y < 10 && xt < 9 && yt < 10
    ensures OneScreen(items, x, y, xt, yt) <==> |InTheWay(items, x, y, xt, yt)| == 1
  {
    hide Taken, InTheWay, Along, Sound;
    var way := InTheWay(items, x, y, xt, yt);
    if OneScreen(items, x, y, xt, yt) {
      var k :| 0 < k < Distance(x, y, xt, yt) && Taken(items, x, y, xt, yt, k)
        && forall n :: 0 < n < Distance(x, y, xt, yt) && n != k ==> !Taken(items, x, y, xt, yt, n);
      var i := PieceOf(items, x, y, xt, yt, k);
      forall i' | i' in way ensures i' == i {
        var n := TakenThere(items, x, y, xt, yt, i');
        SamePiece(items, x, y, xt, yt, i, i');
      }
      assert way == {i};
    }
    if |way| == 1 {
      var i :| i in way;
      var k := TakenThere(items, x, y, xt, yt, i);
      forall n | 0 < n < Distance(x, y, xt, yt) && n != k ensures !Taken(items, x, y, xt, yt, n) {
        if Taken(items, x, y, xt, yt, n) {
          var i' := PieceOf(items, x, y, xt, yt, n);
          OnlyOne(way, i, i');
          StepsDiffer(x, y, xt, yt, k, n);
        }
      }
    }
  }

  lemma SamePiece(items: seq<Item>, x: nat, y: nat, xt: nat, yt: nat, i: nat, i': nat)
    requires Sound(items) && i in InTheWay(items, x, y, xt, yt) && i' in InTheWay(items, x, y, xt, yt)
    requires x < 9 && y < 10 && xt < 9 && yt < 10 && items[i].x == items[i'].x && items[i].y == items[i'].y
    ensures i == i'
  {}

  lemma OnlyOne(s: set<nat>, a: nat, b: nat)
    requires |s| == 1 && a in s && b in s
    ensures a == b
  {
    var others := s - {a};
    assert |others| == 0;
    assert b !in others;
  }

  lemma StepsDiffer(x: nat, y: nat, xt: nat, yt: nat, k: nat, n: nat)
    requires Aligned(x, y, xt, yt) && k != n
    ensures Along(x, xt, k) != Along(x, xt, n) || Along(y, yt, k) != Along(y, yt, n)
  {}

  lemma SoldierAgrees(s: Side, x: nat, y: nat, xt: nat, yt: nat)
    requires xt != x || yt != y
    ensures SoldierRule(s, x, y, xt, yt) <==>
      if HomeHalf(s, y) then xt == x && yt as int == if s == Black then y - 1 else y + 1
      else Gap(x, xt) + Gap(y, yt) <= 1 && if s == Black then yt <= y else yt >= y
  {}

  lemma GeneralAgrees(items: seq<Item>, s: Side, x: nat, y: nat, xt: nat, yt: nat)
    requires Sound(items) && xt < 9 && yt < 10 && (xt != x || yt != y)
    ensures GeneralRule(items, s, x, y, xt, yt) <==>
      if At(items, xt, yt).Some? && items[At(items, xt, yt).value].chess == General then
        x == xt && Clear(items, x, y, xt, yt)
      else Gap(x, xt) + Gap(y, yt) <= 1 && InPalace(s, xt, yt)
  {
    hide InTheWay, Clear, At, Fixed;
    if x == xt { ClearIs(items, x, y, xt, yt); }
    if At(items, xt, yt).Some? {
      var t := At(items, xt, yt).value;
      assert forall k :: 0 <= k < |items| && On(items[k], xt, yt) ==> k == t;
    }
  }

  lemma CannonAgrees(items: seq<Item>, x: nat, y: nat, xt: nat, yt: nat)
    requires Sound(items) && x < 9 && y < 10 && xt < 9 && yt < 10
    ensures CannonRule(items, x, y, xt, yt) <==>
      Aligned(x, y, xt, yt)
      && if Empty(items, xt, yt) then Clear(items, x, y, xt, yt) else OneScreen(items, x, y, xt, yt)
    ensures RookRule(items, x, y, xt, yt) <==> Aligned(x, y, xt, yt) && Clear(items, x, y, xt, yt)
  {
    hide InTheWay, Clear, OneScreen, Sound, Empty, Stands;
    StandsIs(items, xt, yt);
    if Aligned(x, y, xt, yt) {
      ClearIs(items, x, y, xt, yt);
      OnePiece(items, x, y, xt, yt);
    }
  }

  /** In every position the moves are those the rule book allows. */
  lemma RulesAgree(items: seq<Item>, j: nat, xt: nat, yt: nat)
    requires Sound(items) && j < 32
    ensures |items| == 32 && (MayGo(items, j, xt, yt) <==> Allowed(items, j, xt, yt))
  {
    hide At, Clear, OneScreen, Empty, Fixed, HorseRule, ElephantRule, GeneralRule, CannonRule, RookRule, SoldierRule;
    TargetFree(items, j, xt, yt);
    var it := items[j];
    if CanMove(items, j, xt, yt) {
      NotItself(items, j, xt, yt);
      HorseAgrees(items, it.x, it.y, xt, yt);
      ElephantAgrees(items, it.color, it.x, it.y, xt, yt);
      GeneralAgrees(items, it.color, it.x, it.y, xt, yt);
      CannonAgrees(items, it.x, it.y, xt, yt);
      SoldierAgrees(it.color, it.x, it.y, xt, yt);
    }
  }

  lemma TargetFree(items: seq<Item>, j: nat, xt: nat, yt: nat)
    requires Sound(items) && j < 32
    ensures |items| == 32
    ensures CanMove(items, j, xt, yt) <==>
      items[j].x < 9 && items[j].y < 10 && xt < 9 && yt < 10
      && forall k :: 0 <= k < |items| && On(items[k], xt, yt) ==> items[k].color != items[j].color
  {
    hide At;
    if xt < 9 && yt < 10 && At(items, xt, yt).Some? {
      var t := At(items, xt, yt).value;
      assert forall k :: 0 <= k < |items| && On(items[k], xt, yt) ==> k == t;
    }
  }

  lemma NotItself(items: seq<Item>, j: nat, xt: nat, yt: nat)
    requires Sound(items) && CanMove(items, j, xt, yt)
    ensures xt != items[j].x || yt != items[j].y
  {
    hide At;
    assert On(items[j], items[j].x, items[j].y);
    assert At(items, items[j].x, items[j].y) == Some(j);
  }
}
