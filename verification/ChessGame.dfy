/** The chess game as it is kept: the piece list, the board that points into it, the log and the
    counters (GameLogic.h, GameLogic.cpp). */
module ChessGame {
  import opened Options
  import opened ChessRules
  import ChessMoves

  type Ref = Option<nat>

  function Cell(x: nat, y: nat): nat { 10 * x + y }

  /** Board and pieces are inverse to each other, as far as the first n pieces go. */
  ghost predicate Agree(items: seq<Item>, n: nat, board: seq<Ref>) {
    && |board| == 90 && n <= |items|
    && (forall c :: 0 <= c < 90 && board[c].Some? ==>
          board[c].value < n && InField(items[board[c].value])
          && Cell(items[board[c].value].x, items[board[c].value].y) == c)
    && forall j :: 0 <= j < n && Live(items[j]) ==> InField(items[j]) && board[Cell(items[j].x, items[j].y)] == Some(j)
  }

  predicate InField(it: Item) { it.x < 9 && it.y < 10 }

  /** The board says what stands on a point. */
  lemma BoardIsAt(items: seq<Item>, board: seq<Ref>, x: nat, y: nat)
    requires Agree(items, |items|, board) && x < 9 && y < 10
    ensures board[Cell(x, y)] == At(items, x, y)
  {
    hide At;
    AtIsThere(items, x, y);
    var r := At(items, x, y);
    if board[Cell(x, y)].Some? {
      assert On(items[board[Cell(x, y)].value], x, y);
    }
  }

  /** The pieces determine the board. */
  lemma OneBoard(items: seq<Item>, a: seq<Ref>, b: seq<Ref>)
    requires Agree(items, |items|, a) && Agree(items, |items|, b)
    ensures a == b
  {
    forall c | 0 <= c < 90 ensures a[c] == b[c] {
      assert a[c].Some? ==> b[Cell(items[a[c].value].x, items[a[c].value].y)] == a[c];
      assert b[c].Some? ==> a[Cell(items[b[c].value].x, items[b[c].value].y)] == b[c];
    }
  }

  // ----- The piece each side moved last, as the log has it when the sides take turns -----

  function Turn(n: nat): Side { if n % 2 == 0 then Black else White }

  function LatelyOf(log: seq<Manual>): seq<Ref> {
    var n := |log|;
    var none: seq<Ref> := [None, None];
    var one := if n >= 1 then none[(n - 1) % 2 := Some(Slot(Turn(n - 1), log[n - 1].id))] else none;
    if n >= 2 then one[n % 2 := Some(Slot(Turn(n), log[n - 2].id))] else one
  }

  /** When the right side moves, the record follows the log. */
  lemma LatelyStep(log: seq<Manual>, m: Manual)
    requires m.color == Turn(|log|)
    ensures LatelyOf(log + [m]) == LatelyOf(log)[Row(m.color) := Some(Slot(m.color, m.id))]
  {
    var n := |log|;
    assert (log + [m])[n] == m && (n >= 1 ==> (log + [m])[n - 1] == log[n - 1]);
  }

  /** The piece each side really moved last. */
  function LatestOf(log: seq<Manual>): (r: seq<Ref>)
    ensures |r| == 2
  {
    if log == [] then [None, None]
    else
      var m := log[|log| - 1];
      LatestOf(log[..|log| - 1])[Row(m.color) := Some(Slot(m.color, m.id))]
  }

  lemma LatestStep(log: seq<Manual>, m: Manual)
    ensures LatestOf(log + [m]) == LatestOf(log)[Row(m.color) := Some(Slot(m.color, m.id))]
  {
    assert (log + [m])[..|log|] == log;
  }

  ghost predicate InTurns(log: seq<Manual>) { forall i :: 0 <= i < |log| ==> log[i].color == Turn(i) }

  /** When the sides take turns, black first, the log's record is the true one. */
  lemma {:induction false} TurnsKeepLately(log: seq<Manual>)
    requires InTurns(log)
    ensures LatelyOf(log) == LatestOf(log)
  {
    if log != [] {
      var n := |log| - 1;
      TurnsKeepLately(log[..n]);
      LatelyStep(log[..n], log[n]);
      assert log == log[..n] + [log[n]];
    }
  }

  /** An entry names the piece that the side whose turn it was really moved last. */
  ghost predicate NamesLatest(log: seq<Manual>, i: nat)
    requires i < |log|
  {
    LatestOf(log)[Row(Turn(i))] == Some(Slot(Turn(i), log[i].id))
  }

  ghost predicate LastTwoNameLatest(log: seq<Manual>) {
    forall i: nat :: |log| - 2 <= i < |log| ==> NamesLatest(log, i)
  }

  ghost predicate LastTwoInTurns(log: seq<Manual>) {
    forall i: nat :: |log| - 2 <= i < |log| ==> log[i].color == Turn(i)
  }

  /** The log's record is the true one just when its last two entries name the pieces that were moved
      last. */
  lemma LatelyIsLatest(log: seq<Manual>)
    ensures LatelyOf(log) == LatestOf(log) <==> LastTwoNameLatest(log)
  {
    var n := |log|;
    LatelyRows(log);
    if n == 1 {
      LatestStep(log[..0], log[0]);
      assert log == log[..0] + [log[0]];
    }
    hide LatelyOf, LatestOf;
    if LastTwoNameLatest(log) {
      assert n > 0 ==> NamesLatest(log, n - 1);
      assert n > 1 ==> NamesLatest(log, n - 2);
    }
  }

  lemma LatelyRows(log: seq<Manual>)
    ensures |LatelyOf(log)| == 2 && (log == [] ==> LatelyOf(log) == LatestOf(log))
    ensures forall i: nat :: |log| - 2 <= i < |log| ==> LatelyOf(log)[Row(Turn(i))] == Some(Slot(Turn(i), log[i].id))
    ensures |log| == 1 ==> LatelyOf(log)[Row(White)] == None
  {}

  /** It is enough that the last two entries are in turn, whatever came before. */
  lemma LastTwoSuffice(log: seq<Manual>)
    requires LastTwoInTurns(log)
    ensures LastTwoNameLatest(log)
  {
    hide LatestOf, Slot;
    var n := |log|;
    if n > 0 { LastIsLatest(log); }
    if n > 1 { LastIsLatest(log[..n - 1]); }
  }

  lemma LastIsLatest(log: seq<Manual>)
    requires log != []
    ensures var n := |log| - 1; var m := log[n];
      && LatestOf(log)[Row(m.color)] == Some(Slot(m.color, m.id))
      && forall c :: c != m.color ==> LatestOf(log)[Row(c)] == LatestOf(log[..n])[Row(c)]
  {
    var n := |log| - 1;
    LatestStep(log[..n], log[n]);
    assert log == log[..n] + [log[n]];
    hide LatestOf, Slot;
  }

  class Game {
    const items: array<Item>
    const board: array<Ref>
    const steps: array<nat>
    const lately: array<Ref>
    var log: seq<Manual>
    /** The moves that were made and not taken back. */
    ghost var run: seq<Step>

    ghost predicate Shape() {
      items.Length == 32 && board.Length == 90 && steps.Length == 2 && lately.Length == 2
    }

    ghost predicate Valid()
      reads this, items, board, steps
    {
      && Shape() && PossibleRun(run)
      && items[..] == After(run).items && log == After(run).log && steps[..] == After(run).steps
      && Agree(items[..], 32, board[..])
    }

    constructor ()
      ensures Shape() && log == [] && lately[..] == [None, None]
      ensures fresh(items) && fresh(board) && fresh(steps) && fresh(lately)
    {
      items := new Item[32](_ => Item(0, 0, Black, NoChess, 0));
      board := new Ref[90](_ => None);
      steps := new nat[2](_ => 0);
      lately := new Ref[2](_ => None);
      log := [];
      run := [];
    }

    /** Puts a piece in the list and on the board. */
    method PlaceItem(j: nat, it: Item)
      requires Shape() && j < 32 && it == StartItem(j) && Agree(items[..], j, board[..])
      requires forall k :: 0 <= k < j ==> items[k] == StartItem(k)
      modifies items, board
      ensures Agree(items[..], j + 1, board[..]) && forall k :: 0 <= k < j + 1 ==> items[k] == StartItem(k)
    {
      items[j] := it;
      board[Cell(it.x, it.y)] := Some(j);
      forall k | 0 <= k < j ensures !On(it, items[k].x, items[k].y) {
        StartApart(k, j);
      }
    }

    /** Sets one side up: back row, soldiers, cannons. */
    method PlaceSide(user: nat)
      requires Shape() && user < 2 && Agree(items[..], 16 * user, board[..])
      requires forall k :: 0 <= k < 16 * user ==> items[k] == StartItem(k)
      modifies items, board
      ensures Agree(items[..], 16 * user + 16, board[..])
      ensures forall k :: 0 <= k < 16 * user + 16 ==> items[k] == StartItem(k)
    {
      hide Agree;
      var color := if user == 0 then Black else White;
      var y := if user == 0 then 9 else 0;
      for i := 0 to 9
        invariant Agree(items[..], 16 * user + i, board[..])
        invariant forall k :: 0 <= k < 16 * user + i ==> items[k] == StartItem(k)
      {
        PlaceItem(16 * user + i, Item(i, y, color, BackRow(i), i));
      }
      y := if user == 0 then 6 else 3;
      for i := 0 to 5
        invariant Agree(items[..], 16 * user + 9 + i, board[..])
        invariant forall k :: 0 <= k < 16 * user + 9 + i ==> items[k] == StartItem(k)
      {
        PlaceItem(16 * user + 9 + i, Item(2 * i, y, color, Soldier, 9 + i));
      }
      y := if user == 0 then 7 else 2;
      for i := 0 to 2
        invariant Agree(items[..], 16 * user + 14 + i, board[..])
        invariant forall k :: 0 <= k < 16 * user + 14 + i ==> items[k] == StartItem(k)
      {
        PlaceItem(16 * user + 14 + i, Item(1 + 6 * i, y, color, Cannon, 14 + i));
      }
    }

    /** Sets the game up for both sides; the record of the latest pieces stays. */
    method ResetChessBoard()
      requires Shape()
      modifies this`log, this`run, items, board, steps
      ensures Valid() && run == []
    {
      hide StartItem;
      log := [];
      run := [];
      forall c | 0 <= c < 90 { board[c] := None; }
      PlaceSide(0);
      PlaceSide(1);
      steps[0], steps[1] := 0, 0;
      assert items[..] == Start().items;
    }

    /** Rebuilds the board from the pieces, and the record of the latest pieces from the log. */
    method UpdateChessBoard()
      requires Shape() && Sound(items[..])
      modifies board, lately
      ensures Agree(items[..], 32, board[..]) && lately[..] == LatelyOf(log)
    {
      forall c | 0 <= c < 90 { board[c] := None; }
      for j := 0 to 32
        invariant Agree(items[..], j, board[..])
      {
        if items[j].x != 255 && items[j].y != 255 {
          assert OnBoard(items[..]);
          forall k | 0 <= k < j && Live(items[k]) ensures !On(items[j], items[k].x, items[k].y) {
            assert !On(items[..][j], items[..][k].x, items[..][k].y);
          }
          board[Cell(items[j].x, items[j].y)] := Some(j);
        }
      }
      UpdateLately();
    }

    method UpdateLately()
      requires Shape()
      modifies lately
      ensures lately[..] == LatelyOf(log)
    {
      lately[0], lately[1] := None, None;
      var n := |log|;
      if n >= 1 {
        var i := (n - 1) % 2;
        lately[i] := Some(16 * i + log[n - 1].id);
      }
      if n >= 2 {
        var i := n % 2;
        lately[i] := Some(16 * i + log[n - 2].id);
      }
    }

    /** Moves a piece, captures what stands on the target, logs the move, and counts it. */
    method MoveChess(xs: nat, ys: nat, xt: nat, yt: nat)
      requires Valid() && xs < 9 && ys < 10 && board[Cell(xs, ys)].Some?
      requires CanMove(items[..], board[Cell(xs, ys)].value, xt, yt)
      modifies this`log, this`run, items, board, steps, lately
      ensures Valid() && run == old(run) + [Step(old(board[Cell(xs, ys)]).value, xt, yt)]
      ensures
        var id := old(board[Cell(xs, ys)]);
        lately[..] == old(lately[..])[Row(Mover(old(items[..]), id)) := id]
      ensures old(lately[..]) == LatelyOf(old(log))
              && Mover(old(items[..]), old(board[Cell(xs, ys)])) == Turn(|old(log)|) ==>
        lately[..] == LatelyOf(log)
      ensures old(lately[..]) == LatestOf(old(log)) ==> lately[..] == LatestOf(log)
    {
      hide Sound, Agree, LatelyOf, LatestOf, PossibleRun, After;
      var source, target := board[Cell(xs, ys)].value, board[Cell(xt, yt)];
      ghost var before := items[..];
      BoardIsAt(before, board[..], xs, ys);
      BoardIsAt(before, board[..], xt, yt);
      RunSound(run);
      OneOn(before, source);
      KnowsItself(before, source);
      ghost var s := Step(source, xt, yt);
      RunGrows(run, s);
      var m := Manual(items[source].id, items[source].color, items[source].chess, xs, ys, xt, yt, 0, NoChess);
      if target.Some? {
        items[target.value] := items[target.value].(x := 255, y := 255);
        m := m.(uniteID := items[target.value].id, uniteChess := items[target.value].chess);
      }
      if m.color == Turn(|log|) { LatelyStep(log, m); }
      LatestStep(log, m);
      log := log + [m];
      var c := Row(items[source].color);
      steps[c] := Up(steps[c]);
      lately[c] := Some(source);
      items[source] := items[source].(x := xt, y := yt);
      board[Cell(xs, ys)] := None;
      board[Cell(xt, yt)] := Some(source);
      run := run + [s];
      assert items[..] == Moved(before, source, xt, yt);
      StillAgree(before, old(board[..]), source, xt, yt);
    }

    /** Takes back the last moves, captures included, and rebuilds the board. */
    method RegretChess(count: nat)
      requires Valid() && count <= |log| % 0x10000
      modifies this`log, this`run, items, board, steps, lately
      ensures Valid() && run == old(run)[..|old(run)| - count]
      ensures lately[..] == LatelyOf(log)
    {
      hide Agree, Sound, PossibleRun, After, Undone;
      var n := |log|;
      assert n % 0x10000 <= n == |run|;
      assert run[..n] == run;
      for i := 0 to count
        invariant log == old(log) && run == old(run) && PossibleRun(run[..n - i])
        invariant items[..] == After(run[..n - i]).items && steps[..] == After(run[..n - i]).steps
      {
        LogPrefix(run, n - i);
        LogPrefix(run, n - i - 1);
        assert run[..n - i - 1] == Front(run[..n - i]);
        MoveUndone(run[..n - i]);
        TakeBack(log[n - i - 1]);
      }
      LogPrefix(run, n - count);
      log := log[..n - count];
      run := run[..n - count];
      RunSound(run);
      UpdateChessBoard();
    }

    /** Takes one entry of the log back. */
    method TakeBack(m: Manual)
      requires Shape() && m.id < 16 && m.uniteID < 16
      modifies items, steps
      ensures items[..] == Undone(old(items[..]), m)
      ensures steps[..] == old(steps[..])[Row(m.color) := Down(old(steps[Row(m.color)]))]
    {
      var me := Row(m.color);
      var source := 16 * me + m.id;
      steps[me] := Down(steps[me]);
      items[source] := items[source].(chess := m.chess, x := m.xs, y := m.ys);
      if m.uniteChess != NoChess {
        var target := 16 * ((me + 1) % 2) + m.uniteID;
        items[target] := items[target].(x := m.xt, y := m.yt);
      }
    }

    /** Whether something stands strictly between two points on a line. */
    method ObstructAnalyse(xs: nat, ys: nat, xt: nat, yt: nat) returns (obstructed: bool)
      requires Shape() && Agree(items[..], 32, board[..])
      requires xs < 9 && ys < 10 && xt < 9 && yt < 10 && Aligned(xs, ys, xt, yt)
      ensures obstructed <==> !Clear(items[..], xs, ys, xt, yt)
    {
      hide Agree, At;
      var x, y, k := xs, ys, 0;
      while true
        invariant 0 <= k < Distance(xs, ys, xt, yt) && x == Along(xs, xt, k) && y == Along(ys, yt, k)
        invariant forall n :: 0 < n <= k ==> !Taken(items[..], xs, ys, xt, yt, n)
        decreases Distance(xs, ys, xt, yt) - k
      {
        x := if xt == x then x else if xt > x then x + 1 else x - 1;
        y := if yt == y then y else if yt > y then y + 1 else y - 1;
        k := k + 1;
        if x == xt && y == yt { return false; }
        BoardIsAt(items[..], board[..], x, y);
        if board[Cell(x, y)] != None {
          assert Taken(items[..], xs, ys, xt, yt, k);
          return true;
        }
      }
    }

    /** Whether exactly one piece stands strictly between two points on a line. */
    method Emplacement(xs: nat, ys: nat, xt: nat, yt: nat) returns (one: bool)
      requires Shape() && Agree(items[..], 32, board[..])
      requires xs < 9 && ys < 10 && xt < 9 && yt < 10 && Aligned(xs, ys, xt, yt)
      ensures one <==> OneScreen(items[..], xs, ys, xt, yt)
    {
      hide Agree, At, Taken;
      var x, y, k := xs, ys, 0;
      one := false;
      ghost var screen := 0;
      while true
        invariant 0 <= k < Distance(xs, ys, xt, yt) && x == Along(xs, xt, k) && y == Along(ys, yt, k)
        invariant one ==> 0 < screen <= k && Taken(items[..], xs, ys, xt, yt, screen)
        invariant forall n :: 0 < n <= k && !(one && n == screen) ==> !Taken(items[..], xs, ys, xt, yt, n)
        decreases Distance(xs, ys, xt, yt) - k
      {
        x := if xt == x then x else if xt > x then x + 1 else x - 1;
        y := if yt == y then y else if yt > y then y + 1 else y - 1;
        k := k + 1;
        if x == xt && y == yt { return; }
        BoardIsAt(items[..], board[..], x, y);
        TakenIs(items[..], xs, ys, xt, yt, k);
        if board[Cell(x, y)] != None {
          if one { return false; }
          one := true;
          screen := k;
        }
      }
    }

    /** The rules: whether a piece on the board may go to a point. */
    method IsWalkLegality(j: nat, xt: nat, yt: nat) returns (legal: bool)
      requires Shape() && Sound(items[..]) && Agree(items[..], 32, board[..])
      requires j < 32 && Live(items[j]) && xt < 9 && yt < 10
      ensures legal <==> MayGo(items[..], j, xt, yt)
      ensures legal <==> ChessMoves.Allowed(items[..], j, xt, yt)
    {
      legal := DecideWalk(j, xt, yt);
      ChessMoves.RulesAgree(items[..], j, xt, yt);
    }

    method DecideWalk(j: nat, xt: nat, yt: nat) returns (legal: bool)
      requires Shape() && Sound(items[..]) && Agree(items[..], 32, board[..])
      requires j < 32 && Live(items[j]) && xt < 9 && yt < 10
      ensures legal <==> MayGo(items[..], j, xt, yt)
    {
      hide Agree, At, Clear, OneScreen, Taken, Sound, Empty;
      var it, target := items[j], board[Cell(xt, yt)];
      assert items[..][j] == it;
      BoardIsAt(items[..], board[..], xt, yt);
      AtIsThere(items[..], xt, yt);
      OneOn(items[..], j);
      BoardIsAt(items[..], board[..], it.x, it.y);
      if target.Some? && items[target.value].color == it.color { return false; }
      var dx, dy := Gap(it.x, xt), Gap(it.y, yt);
      assert dx + dy > 0;
      assert Empty(items[..], xt, yt) <==> target == None by { EmptyIs(items[..], xt, yt); }
      match it.chess
      case General =>
        if target.Some? && items[target.value].chess == General {
          if it.x != xt { return false; }
          var obstructed := ObstructAnalyse(it.x, it.y, xt, yt);
          return !obstructed;
        }
        if xt < 3 || xt > 5 { return false; }
        if dx > 1 || dy > 1 { return false; }
        if dx == 1 && dy == 1 { return false; }
        if it.color == Black && yt < 7 { return false; }
        if it.color == White && yt > 2 { return false; }
        return true;
      case Kavass =>
        if dx != 1 || dy != 1 { return false; }
        if xt < 3 || xt > 5 { return false; }
        if it.color == Black && yt < 7 { return false; }
        if it.color == White && yt > 2 { return false; }
        return true;
      case Elephant =>
        if dx != 2 || dy != 2 { return false; }
        if it.color == Black && yt < 5 { return false; }
        if it.color == White && yt > 4 { return false; }
        legal := IsFree((it.x + xt) / 2, (it.y + yt) / 2);
        return;
      case Horse =>
        if (dx != 1 || dy != 2) && (dx != 2 || dy != 1) { return false; }
        var x := if dx == 1 then it.x else (it.x + xt) / 2;
        var y := if dy == 1 then it.y else (it.y + yt) / 2;
        legal := IsFree(x, y);
        return;
      case Rook =>
        if it.x != xt && it.y != yt { return false; }
        var obstructed := ObstructAnalyse(it.x, it.y, xt, yt);
        return !obstructed;
      case Cannon =>
        if it.x != xt && it.y != yt { return false; }
        if target != None {
          legal := Emplacement(it.x, it.y, xt, yt);
          return;
        }
        var obstructed := ObstructAnalyse(it.x, it.y, xt, yt);
        return !obstructed;
      case Soldier =>
        legal := SoldierSteps(it, xt, yt);
        return;
      case NoChess =>
        return false;
    }

    method IsFree(x: nat, y: nat) returns (free: bool)
      requires Shape() && Agree(items[..], 32, board[..]) && x < 9 && y < 10
      ensures free <==> Empty(items[..], x, y)
    {
      hide Agree, At;
      BoardIsAt(items[..], board[..], x, y);
      return board[Cell(x, y)] == None;
    }

    /** A soldier goes forward, and sideways once it has crossed. */
    method SoldierSteps(it: Item, xt: nat, yt: nat) returns (legal: bool)
      requires InField(it) && xt < 9 && yt < 10 && (xt != it.x || yt != it.y)
      ensures legal <==>
        if HomeHalf(it.color, it.y) then xt == it.x && yt as int == if it.color == Black then it.y - 1 else it.y + 1
        else Gap(it.x, xt) + Gap(it.y, yt) <= 1 && if it.color == Black then yt <= it.y else yt >= it.y
    {
      var dx, dy := Gap(it.x, xt), Gap(it.y, yt);
      if it.color == Black {
        if it.y >= 5 {
          return it.x == xt && it.y - 1 == yt;
        }
        if yt > it.y { return false; }
      } else {
        if it.y <= 4 {
          return it.x == xt && it.y + 1 == yt;
        }
        if yt < it.y { return false; }
      }
      if dx > 1 || dy > 1 { return false; }
      return dx == 0 || dy == 0;
    }

    /** Whether an enemy piece may go to the point where a piece stands. */
    method IsChessDanger(xt: nat, yt: nat) returns (danger: bool)
      requires Shape() && Sound(items[..]) && Agree(items[..], 32, board[..]) && xt < 9 && yt < 10
      ensures danger <==> board[Cell(xt, yt)].Some? && exists j :: 0 <= j < 32 && MayGo(items[..], j, xt, yt)
    {
      hide Agree, Goes, Apart;
      var target := board[Cell(xt, yt)];
      if target == None { return false; }
      BoardIsAt(items[..], board[..], xt, yt);
      var enemy := if items[target.value].color == Black then 1 else 0;
      for i := 0 to 16
        invariant forall j :: 16 * enemy <= j < 16 * enemy + i ==> !MayGo(items[..], j, xt, yt)
      {
        var j := 16 * enemy + i;
        if items[j].x == 255 || items[j].y == 255 { continue; }
        var legal := IsWalkLegality(j, xt, yt);
        if legal { return true; }
      }
      return false;
    }

    /** Whether a side's general has been captured. */
    method IsGameFinish(color: Side) returns (finished: bool)
      requires Shape() && Sound(items[..])
      ensures finished <==> !Live(items[Slot(color, 4)])
    {
      var king := items[(if color == Black then 0 else 16) + 4];
      assert OnBoard(items[..]) && items[..][Slot(color, 4)] == king;
      return king.x == 255 && king.y == 255;
    }

    /** Whether a side's general stands in danger while both are on the board. */
    method IsKingDanger(color: Side) returns (danger: bool)
      requires Shape() && Sound(items[..]) && Agree(items[..], 32, board[..])
      ensures danger <==>
        && Live(items[Slot(Other(color), 4)]) && Live(items[Slot(color, 4)])
        && exists j :: 0 <= j < 32 && MayGo(items[..], j, items[Slot(color, 4)].x, items[Slot(color, 4)].y)
    {
      var king := items[(if color == Black then 16 else 0) + 4];
      if king.x == 255 || king.y == 255 { return false; }
      king := items[(if color == Black then 0 else 16) + 4];
      if king.x == 255 || king.y == 255 { return false; }
      assert OnBoard(items[..]) && items[..][Slot(color, 4)] == king;
      danger := IsChessDanger(king.x, king.y);
    }
  }

  lemma EmptyIs(items: seq<Item>, x: nat, y: nat)
    ensures Empty(items, x, y) <==> At(items, x, y).None?
  {
    hide At;
  }

  lemma TakenIs(items: seq<Item>, xs: nat, ys: nat, xt: nat, yt: nat, k: nat)
    requires Along(xs, xt, k) >= 0 && Along(ys, yt, k) >= 0
    ensures Taken(items, xs, ys, xt, yt, k) <==> At(items, Along(xs, xt, k), Along(ys, yt, k)).Some?
  {}

  /** A live piece is what stands where it stands. */
  lemma OneOn(items: seq<Item>, j: nat)
    requires Sound(items) && j < 32 && Live(items[j])
    ensures At(items, items[j].x, items[j].y) == Some(j) && InField(items[j])
  {
    hide At;
    AtIsThere(items, items[j].x, items[j].y);
  }

  /** The log and the pieces of a shorter run are those before the later moves. */
  lemma {:induction false} LogPrefix(run: seq<Step>, n: nat)
    requires PossibleRun(run) && n <= |run|
    ensures PossibleRun(run[..n]) && After(run[..n]).log == After(run).log[..n]
    decreases |run|
  {
    if n < |run| {
      LogPrefix(Front(run), n);
      assert Front(run)[..n] == run[..n];
    } else {
      assert run[..n] == run;
    }
  }

  lemma {:induction false} StepsSmall(run: seq<Step>)
    requires PossibleRun(run)
    ensures After(run).steps[0] < 0x10000 && After(run).steps[1] < 0x10000
    decreases |run|
  {
    if run != [] {
      StepsSmall(Front(run));
    }
  }

  /** Taking the last move back leads to the game before it. */
  lemma MoveUndone(run: seq<Step>)
    requires PossibleRun(run) && run != []
    ensures var g, before, m := After(run), After(Front(run)), Last(After(run).log);
      && m.id < 16 && m.uniteID < 16 && Undone(g.items, m) == before.items
      && g.steps[Row(m.color) := Down(g.steps[Row(m.color)])] == before.steps
  {
    hide Sound, CanMove, Play, Undone;
    RunSound(Front(run));
    StepsSmall(Front(run));
    PlayUndone(After(Front(run)), Last(run));
  }

  lemma PlayUndone(g: ChessRules.Game, s: Step)
    requires Sound(g.items) && CanMove(g.items, s.j, s.xt, s.yt)
    requires |g.steps| == 2 && g.steps[0] < 0x10000 && g.steps[1] < 0x10000
    ensures var after := Play(g, s); var m := Last(after.log);
      && m.id < 16 && m.uniteID < 16 && |after.items| == 32 && |after.steps| == 2
      && Undone(after.items, m) == g.items
      && after.steps[Row(m.color) := Down(after.steps[Row(m.color)])] == g.steps
  {
    hide Apart, Moved, Entry, Undone, At;
    MovedPieces(g.items, s.j, s.xt, s.yt);
    UndoMove(g.items, s.j, s.xt, s.yt);
    CountUndone(g.steps, Row(g.items[s.j].color));
  }

  lemma CountUndone(steps: seq<nat>, c: nat)
    requires |steps| == 2 && c < 2 && steps[0] < 0x10000 && steps[1] < 0x10000
    ensures var up := steps[c := Up(steps[c])]; up[c := Down(up[c])] == steps
  {
    DownUp(steps[c]);
  }

  /** A game with the same run behind it is the same game: pieces, board, log and counters. */
  twostate lemma SameRunSameGame(g: Game)
    requires old(g.Valid()) && g.Valid() && g.run == old(g.run)
    ensures g.items[..] == old(g.items[..]) && g.board[..] == old(g.board[..])
    ensures g.log == old(g.log) && g.steps[..] == old(g.steps[..])
  {
    hide Agree;
    OneBoard(g.items[..], g.board[..], old(g.board[..]));
  }

  lemma KnowsItself(items: seq<Item>, j: nat)
    requires Sound(items) && j < 32
    ensures |items| == 32 && Slot(items[j].color, items[j].id) == j
  {}

  /** The side of the piece a reference names. */
  ghost function Mover(items: seq<Item>, r: Ref): Side
    requires r.Some? && r.value < |items|
  {
    items[r.value].color
  }

  lemma RunGrows(run: seq<Step>, s: Step)
    requires PossibleRun(run) && CanMove(After(run).items, s.j, s.xt, s.yt)
    ensures PossibleRun(run + [s]) && After(run + [s]) == Play(After(run), s)
  {
    assert Front(run + [s]) == run && Last(run + [s]) == s;
  }

  lemma StillAgree(items: seq<Item>, board: seq<Ref>, j: nat, xt: nat, yt: nat)
    requires Sound(items) && Agree(items, 32, board) && CanMove(items, j, xt, yt)
    ensures Cell(items[j].x, items[j].y) < 90 && Cell(xt, yt) < 90
      && Agree(Moved(items, j, xt, yt), 32, board[Cell(items[j].x, items[j].y) := None][Cell(xt, yt) := Some(j)])
  {
    hide At, Apart, Moved;
    MovedPieces(items, j, xt, yt);
    AtIsThere(items, xt, yt);
  }

  /** The next move of a longer run is possible now, and starts from where its piece stands. */
  lemma NextMove(run: seq<Step>, n: nat, board: seq<Ref>)
    requires PossibleRun(run) && n < |run|
    ensures PossibleRun(run[..n]) && run[n].j < 32
    ensures Agree(After(run[..n]).items, 32, board) ==>
      var items, s := After(run[..n]).items, run[n];
      CanMove(items, s.j, s.xt, s.yt) && InField(items[s.j]) && board[Cell(items[s.j].x, items[s.j].y)] == Some(s.j)
  {
    hide Sound, CanMove, After, Agree, At;
    LogPrefix(run, n);
    LogPrefix(run, n + 1);
    assert Front(run[..n + 1]) == run[..n] && Last(run[..n + 1]) == run[n];
    RunSound(run[..n]);
    ReadyToMove(After(run[..n]).items, run[n], board);
  }

  lemma ReadyToMove(items: seq<Item>, s: Step, board: seq<Ref>)
    requires Sound(items) && CanMove(items, s.j, s.xt, s.yt)
    ensures s.j < 32
    ensures Agree(items, 32, board) ==>
      InField(items[s.j]) && board[Cell(items[s.j].x, items[s.j].y)] == Some(s.j)
  {
    hide At;
    OneOn(items, s.j);
    if Agree(items, 32, board) {
      BoardIsAt(items, board, items[s.j].x, items[s.j].y);
    }
  }

  /** Any moves that are played and then all taken back leave the game as it was: pieces, board, log,
      counters, and the record of the latest pieces if that was the log's. */
  method PlayAndTakeBack(g: Game, moves: seq<Step>)
    requires g.Valid() && PossibleRun(g.run + moves) && |moves| <= (|g.log| + |moves|) % 0x10000
    modifies g`log, g`run, g.items, g.board, g.steps, g.lately
    ensures g.Valid() && g.run == old(g.run)
    ensures g.items[..] == old(g.items[..]) && g.board[..] == old(g.board[..])
    ensures g.log == old(g.log) && g.steps[..] == old(g.steps[..])
    ensures g.lately[..] == old(g.lately[..]) <==> old(g.lately[..]) == LatelyOf(old(g.log))
  {
    hide Agree, PossibleRun, After, CanMove, LatelyOf;
    ghost var all, n := g.run + moves, |g.run|;
    assert all[..n] == g.run;
    for i := 0 to |moves|
      invariant g.Valid() && g.run == all[..n + i]
    {
      NextMove(all, n + i, g.board[..]);
      var it := g.items[moves[i].j];
      g.MoveChess(it.x, it.y, moves[i].xt, moves[i].yt);
      assert all[..n + i] + [all[n + i]] == all[..n + i + 1];
    }
    assert all[..n + |moves|] == all && all[..n] == old(g.run);
    g.RegretChess(|moves|);
    SameBoard(g.items[..], g.board[..], old(g.board[..]));
  }

  /** Any moves played from a reset of a fresh object: the record is the piece each side moved last. */
  method PlayFresh(moves: seq<Step>) returns (g: Game)
    requires PossibleRun(moves)
    ensures fresh(g) && fresh(g.items) && fresh(g.board) && fresh(g.steps) && fresh(g.lately)
    ensures g.Valid() && g.run == moves && g.lately[..] == LatestOf(g.log)
  {
    hide Agree, PossibleRun, After, CanMove, LatelyOf;
    g := new Game();
    g.ResetChessBoard();
    assert g.lately[..] == LatestOf(g.log);
    hide LatestOf;
    assert moves[..0] == [];
    for i := 0 to |moves|
      invariant g.Valid() && g.run == moves[..i] && g.lately[..] == LatestOf(g.log)
    {
      NextMove(moves, i, g.board[..]);
      var it := g.items[moves[i].j];
      g.MoveChess(it.x, it.y, moves[i].xt, moves[i].yt);
      assert moves[..i] + [moves[i]] == moves[..i + 1];
    }
    assert moves[..|moves|] == moves;
  }

  /** Taking back restores the record, too, just when the last two entries of the log that is left name
      the pieces that were moved last; they do when they are in turn. */
  method PlayThenRegret(moves: seq<Step>, count: nat) returns (g: Game, short: Game)
    requires PossibleRun(moves) && count <= |moves| % 0x10000
    ensures g.Valid() && short.Valid() && g.run == short.run == moves[..|moves| - count]
    ensures short.lately[..] == LatestOf(short.log)
    ensures g.log == short.log
    ensures g.lately[..] == LatelyOf(g.log)
    ensures g.lately[..] == short.lately[..] <==> LastTwoNameLatest(g.log)
    ensures LastTwoInTurns(g.log) || InTurns(After(moves).log) ==> g.lately[..] == short.lately[..]
  {
    hide Agree, PossibleRun, CanMove, LatelyOf, LatestOf, After, LastTwoNameLatest, LastTwoInTurns;
    assert |moves| % 0x10000 <= |moves|;
    g := PlayFresh(moves);
    g.RegretChess(count);
    LogPrefix(moves, |moves| - count);
    short := PlayFresh(moves[..|moves| - count]);
    LatelyIsLatest(g.log);
    if LastTwoInTurns(g.log) {
      LastTwoSuffice(g.log);
    }
    if InTurns(After(moves).log) {
      TurnsKeepLately(g.log);
    }
  }

  /** A black soldier and then another one. */
  function TwoBlackMoves(): seq<Step> { [Step(9, 0, 5), Step(10, 2, 5)] }

  lemma NobodyAt(items: seq<Item>, x: nat, y: nat)
    requires forall j :: 0 <= j < |items| ==> !On(items[j], x, y)
    ensures At(items, x, y) == None
  {}

  /** The moves are legal as far as the pieces go: whose turn it is, is not asked. */
  lemma TwoBlackMovesLegal()
    ensures LegalRun(TwoBlackMoves())
    ensures var log := After(TwoBlackMoves()).log;
      log[0].color == log[1].color == Black && log[0].id == 9 && log[1].id == 10
  {
    hide At;
    var none: seq<Step> := [];
    var s1, s2 := Step(9, 0, 5), Step(10, 2, 5);
    var start := Start().items;
    assert forall j :: 0 <= j < 32 ==> start[j] == StartItem(j);
    NobodyAt(start, 0, 5);
    assert Front([s1]) == none && Last([s1]) == s1;
    assert MayGo(start, 9, 0, 5);
    assert LegalRun(none) && PossibleRun([s1]);
    assert LegalRun([s1]);
    var after := After([s1]).items;
    assert after == start[9 := start[9].(x := 0, y := 5)];
    NobodyAt(after, 2, 5);
    assert Front(TwoBlackMoves()) == [s1] && Last(TwoBlackMoves()) == s2;
    assert MayGo(after, 10, 2, 5);
  }

  /** When one side moves twice, even taking nothing back replaces the record by a wrong one. */
  method OutOfTurn() returns (g: Game, before: seq<Ref>)
    ensures g.Valid() && g.run == TwoBlackMoves()
    ensures before == LatestOf(g.log) == [Some(10), None]
    ensures g.lately[..] == LatelyOf(g.log) == [Some(9), Some(26)]
  {
    hide Agree, PossibleRun, CanMove, LatelyOf, LatestOf, After, LegalRun, At;
    TwoBlackMovesLegal();
    assert PossibleRun(TwoBlackMoves()) by { LegalIsPossible(TwoBlackMoves()); }
    g := PlayFresh(TwoBlackMoves());
    TwoEntries(g.log);
    before := g.lately[..];
    g.RegretChess(0);
    assert g.run == TwoBlackMoves();
    TwoEntries(g.log);
  }

  lemma TwoEntries(log: seq<Manual>)
    requires |log| == 2 && log[0].color == Black && log[1].color == Black
    ensures LatestOf(log)[0] == Some(log[1].id) && LatestOf(log)[1] == None
    ensures |LatelyOf(log)| == 2 && LatelyOf(log)[0] == Some(log[0].id) && LatelyOf(log)[1] == Some(16 + log[1].id)
  {
    var one := log[..1];
    LatestStep(one, log[1]);
    assert log == one + [log[1]];
    LatestStep(one[..0], log[0]);
    assert one == one[..0] + [log[0]];
  }

  lemma LegalIsPossible(run: seq<Step>)
    requires LegalRun(run)
    ensures PossibleRun(run)
  {}

  lemma SameBoard(items: seq<Item>, a: seq<Ref>, b: seq<Ref>)
    requires |items| == 32 && Agree(items, 32, a) && Agree(items, 32, b)
    ensures a == b
  {
    OneBoard(items, a, b);
  }
}
