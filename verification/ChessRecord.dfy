/** What the set-up looks like, and what log and counters of a game say about its moves (GameLogic.cpp:
    ResetChessBorad, MoveChess, GetStepCount). */
module ChessRecord {
  import opened ChessRules

  // ----- The set-up -----

  /** The board with White above, a letter for each kind of piece: rook, horse, elephant, kavass,
      general, cannon, soldier. */
  const PICTURE: seq<string> := [
    "RHEKGKEHR",
    ".........",
    ".C.....C.",
    "S.S.S.S.S",
    ".........",
    ".........",
    "S.S.S.S.S",
    ".C.....C.",
    ".........",
    "RHEKGKEHR"]

  function Letter(c: Chess): char {
    match c
    case General => 'G'
    case Kavass => 'K'
    case Elephant => 'E'
    case Horse => 'H'
    case Rook => 'R'
    case Cannon => 'C'
    case Soldier => 'S'
    case NoChess => '.'
  }

  function Drawn(x: nat, y: nat): char
    requires x < 9 && y < 10
  {
    assert |PICTURE[y]| == 9;
    PICTURE[y][x]
  }

  /** The pieces stand as drawn, White's in the first five rows. */
  lemma StartPicture(x: nat, y: nat)
    requires x < 9 && y < 10
    ensures match At(Start().items, x, y)
      case None => Drawn(x, y) == '.'
      case Some(j) =>
        var it := Start().items[j];
        && Drawn(x, y) == Letter(it.chess) != '.' && it.color == (if y < 5 then White else Black)
        && j == Slot(it.color, it.id)
  {
    hide At;
    if Drawn(x, y) != '.' {
      var j := DrawnStands(x, y);
      assert On(Start().items[j], x, y);
    }
    if At(Start().items, x, y).Some? {
      StandsDrawn(At(Start().items, x, y).value);
    }
  }

  lemma StandsDrawn(j: nat)
    requires j < 32
    ensures var it := StartItem(j);
      && it.x < 9 && it.y < 10 && Drawn(it.x, it.y) == Letter(it.chess) != '.'
      && it.color == (if it.y < 5 then White else Black) && j == Slot(it.color, it.id)
  {}

  lemma DrawnStands(x: nat, y: nat) returns (j: nat)
    requires x < 9 && y < 10 && Drawn(x, y) != '.'
    ensures j < 32 && On(StartItem(j), x, y)
  {
    j := if y == 0 || y == 9 then x else if y == 3 || y == 6 then 9 + x / 2 else 14 + x / 6;
    if y < 5 { j := j + 16; }
  }

  // ----- Counters -----

  function MovesBy(log: seq<Manual>, s: Side): nat {
    if log == [] then 0 else MovesBy(log[..|log| - 1], s) + if log[|log| - 1].color == s then 1 else 0
  }

  /** A side's counter is the number of its moves in the log, in 16 bits. */
  lemma {:induction false} StepsCounted(run: seq<Step>, s: Side)
    requires PossibleRun(run)
    ensures After(run).steps[if s == Black then 0 else 1] == MovesBy(After(run).log, s) % 0x10000
  {
    hide Play, Start, At, MovesBy;
    if run == [] {
      NoMoves(s);
    } else {
      StepsCounted(Front(run), s);
      PlayCounts(After(Front(run)), Last(run), s);
      hide After;
      WrapOne(MovesBy(After(Front(run)).log, s));
    }
  }

  lemma NoMoves(s: Side)
    ensures Start().steps == [0, 0] && MovesBy(Start().log, s) == 0
  {}

  lemma PlayCounts(g: Game, m: Step, s: Side)
    requires m.j < |g.items| && |g.steps| == 2
    ensures var after, c, mine := Play(g, m), if s == Black then 0 else 1, g.items[m.j].color == s;
      && MovesBy(after.log, s) == MovesBy(g.log, s) + (if mine then 1 else 0)
      && after.steps[c] == if mine then (g.steps[c] + 1) % 0x10000 else g.steps[c]
  {
    hide Moved, At;
    var e := Entry(g.items, m.j, m.xt, m.yt);
    assert (g.log + [e])[..|g.log|] == g.log;
  }

  lemma WrapOne(n: nat)
    ensures (n % 0x10000 + 1) % 0x10000 == (n + 1) % 0x10000
  {}

  // ----- The log -----

  /** Each entry of the log names the piece that was moved, where it stood and where it went, and what
      was taken there. */
  lemma {:induction false} LogTells(run: seq<Step>, n: nat)
    requires PossibleRun(run) && n < |run|
    ensures PossibleRun(run[..n]) && run[n].j < 32
    ensures var items, s, m := After(run[..n]).items, run[n], After(run).log[n];
      && (m.id, m.color, m.chess) == (items[s.j].id, items[s.j].color, items[s.j].chess)
      && (m.xs, m.ys) == (items[s.j].x, items[s.j].y) && (m.xt, m.yt) == (s.xt, s.yt)
      && match At(items, s.xt, s.yt)
         case None => m.uniteChess == NoChess
         case Some(t) => m.uniteID == items[t].id && m.uniteChess == items[t].chess && items[t].color != m.color
    decreases |run|
  {
    if n == |run| - 1 {
      assert run[..n] == Front(run);
    } else {
      LogTells(Front(run), n);
      assert Front(run)[..n] == run[..n];
    }
  }
}
