/** Chinese chess: pieces, moves and what a run of legal moves keeps (GameLogic.cpp). */
module ChessRules {
  import opened Options

  datatype Side = Black | White

  datatype Chess = NoChess | General | Kavass | Elephant | Horse | Rook | Cannon | Soldier

  /** A piece; captured ones stand at 255, 255. */
  datatype Item = Item(x: nat, y: nat, color: Side, chess: Chess, id: nat)

  /** An entry of the log. */
  datatype Manual = Manual(
    id: nat, color: Side, chess: Chess,
    xs: nat, ys: nat, xt: nat, yt: nat,
    uniteID: nat, uniteChess: Chess)

  function Row(s: Side): nat { if s == Black then 0 else 1 }

  function Other(s: Side): Side { if s == Black then White else Black }

  /** Where a side's piece is kept in the list of 32. */
  function Slot(s: Side, id: nat): nat { 16 * Row(s) + id }

  predicate Live(it: Item) { it.x != 255 && it.y != 255 }

  predicate On(it: Item, x: nat, y: nat) { it.x == x && it.y == y }

  /** Which of the first k pieces stands on a point. */
  function Search(items: seq<Item>, k: nat, x: nat, y: nat): (r: Option<nat>)
    requires k <= |items|
    ensures r.Some? ==> r.value < k && On(items[r.value], x, y)
    ensures r.None? ==> forall j :: 0 <= j < k ==> !On(items[j], x, y)
  {
    if k == 0 then None
    else if On(items[k - 1], x, y) then Some(k - 1)
    else Search(items, k - 1, x, y)
  }

  function At(items: seq<Item>, x: nat, y: nat): (r: Option<nat>)
    ensures r.Some? ==> r.value < |items| && On(items[r.value], x, y)
    ensures r.None? ==> forall j :: 0 <= j < |items| ==> !On(items[j], x, y)
  {
    Search(items, |items|, x, y)
  }

  // ----- How the pieces go -----

  function Gap(a: nat, b: nat): nat { if a > b then a - b else b - a }

  /** Goes k steps from a towards b. */
  function Along(a: nat, b: nat, k: nat): int {
    if a == b then a else if a < b then a + k else a - k
  }

  predicate Aligned(xs: nat, ys: nat, xt: nat, yt: nat) { (xs == xt || ys == yt) && (xs != xt || ys != yt) }

  function Distance(xs: nat, ys: nat, xt: nat, yt: nat): nat { Gap(xs, xt) + Gap(ys, yt) }

  /** The point k steps from the source towards the target is taken. */
  ghost predicate Taken(items: seq<Item>, xs: nat, ys: nat, xt: nat, yt: nat, k: nat) {
    Along(xs, xt, k) >= 0 && Along(ys, yt, k) >= 0 && At(items, Along(xs, xt, k), Along(ys, yt, k)).Some?
  }

  /** Nothing stands strictly between. */
  ghost predicate Clear(items: seq<Item>, xs: nat, ys: nat, xt: nat, yt: nat) {
    forall k :: 0 < k < Distance(xs, ys, xt, yt) ==> !Taken(items, xs, ys, xt, yt, k)
  }

  /** Exactly one piece stands strictly between. */
  ghost predicate OneScreen(items: seq<Item>, xs: nat, ys: nat, xt: nat, yt: nat) {
    exists k :: 0 < k < Distance(xs, ys, xt, yt) && Taken(items, xs, ys, xt, yt, k)
      && forall n :: 0 < n < Distance(xs, ys, xt, yt) && n != k ==> !Taken(items, xs, ys, xt, yt, n)
  }

  predicate InPalace(s: Side, x: nat, y: nat) { 3 <= x <= 5 && if s == Black then y >= 7 else y <= 2 }

  predicate HomeHalf(s: Side, y: nat) { if s == Black then y >= 5 else y <= 4 }

  predicate Empty(items: seq<Item>, x: nat, y: nat) { At(items, x, y).None? }

  /** The steps of each kind of piece from (xs, ys) to (xt, yt). */
  ghost predicate Goes(items: seq<Item>, it: Item, xt: nat, yt: nat) {
    var dx, dy := Gap(it.x, xt), Gap(it.y, yt);
    match it.chess
    case General =>
      if At(items, xt, yt).Some? && items[At(items, xt, yt).value].chess == General then
        it.x == xt && Clear(items, it.x, it.y, xt, yt)
      else dx + dy <= 1 && InPalace(it.color, xt, yt)
    case Kavass => dx == 1 && dy == 1 && InPalace(it.color, xt, yt)
    case Elephant =>
      dx == 2 && dy == 2 && HomeHalf(it.color, yt) && Empty(items, (it.x + xt) / 2, (it.y + yt) / 2)
    case Horse =>
      || (dx == 1 && dy == 2 && Empty(items, it.x, (it.y + yt) / 2))
      || (dx == 2 && dy == 1 && Empty(items, (it.x + xt) / 2, it.y))
    case Rook => Aligned(it.x, it.y, xt, yt) && Clear(items, it.x, it.y, xt, yt)
    case Cannon =>
      && Aligned(it.x, it.y, xt, yt)
      && if Empty(items, xt, yt) then Clear(items, it.x, it.y, xt, yt) else OneScreen(items, it.x, it.y, xt, yt)
    case Soldier =>
      if HomeHalf(it.color, it.y) then
        xt == it.x && yt == if it.color == Black then it.y - 1 else it.y + 1
      else
        dx + dy <= 1 && if it.color == Black then yt <= it.y else yt >= it.y
    case NoChess => false
  }

  /** A piece of the list and a point of the board with no piece of the same side on it. */
  ghost predicate CanMove(items: seq<Item>, j: nat, xt: nat, yt: nat) {
    && j < |items| && Live(items[j]) && xt < 9 && yt < 10
    && (At(items, xt, yt).Some? ==> items[At(items, xt, yt).value].color != items[j].color)
  }

  ghost predicate MayGo(items: seq<Item>, j: nat, xt: nat, yt: nat) {
    CanMove(items, j, xt, yt) && Goes(items, items[j], xt, yt)
  }

  // ----- Games -----

  datatype Game = Game(items: seq<Item>, log: seq<Manual>, steps: seq<nat>)

  function BackRow(id: nat): Chess {
    if id == 4 then General
    else if id == 3 || id == 5 then Kavass
    else if id == 2 || id == 6 then Elephant
    else if id == 1 || id == 7 then Horse
    else Rook
  }

  function KindOf(id: nat): Chess { if id < 9 then BackRow(id) else if id < 14 then Soldier else Cannon }

  function StartX(id: nat): nat { if id < 9 then id else if id < 14 then 2 * (id - 9) else 1 + 6 * (id - 14) }

  function StartY(s: Side, id: nat): nat
    requires id < 16
  {
    var y := if id < 9 then 0 else if id < 14 then 3 else 2;
    if s == White then y else 9 - y
  }

  function SideOf(j: nat): Side { if j < 16 then Black else White }

  function IdOf(j: nat): nat
    requires j < 32
  {
    if j < 16 then j else j - 16
  }

  function StartItem(j: nat): Item
    requires j < 32
  {
    Item(StartX(IdOf(j)), StartY(SideOf(j), IdOf(j)), SideOf(j), KindOf(IdOf(j)), IdOf(j))
  }

  function Start(): Game { Game(seq(32, j requires 0 <= j < 32 => StartItem(j)), [], [0, 0]) }

  /** The step counters have 16 bits. */
  function Up(n: nat): nat { (n + 1) % 0x10000 }

  function Down(n: nat): nat { (n + 0xFFFF) % 0x10000 }

  function Entry(items: seq<Item>, j: nat, xt: nat, yt: nat): Manual
    requires j < |items|
  {
    var it := items[j];
    match At(items, xt, yt)
    case None => Manual(it.id, it.color, it.chess, it.x, it.y, xt, yt, 0, NoChess)
    case Some(t) => Manual(it.id, it.color, it.chess, it.x, it.y, xt, yt, items[t].id, items[t].chess)
  }

  function Captured(it: Item): Item { it.(x := 255, y := 255) }

  function Moved(items: seq<Item>, j: nat, xt: nat, yt: nat): seq<Item>
    requires j < |items|
  {
    var taken := match At(items, xt, yt) case None => items case Some(t) => items[t := Captured(items[t])];
    taken[j := taken[j].(x := xt, y := yt)]
  }

  datatype Step = Step(j: nat, xt: nat, yt: nat)

  function Play(g: Game, s: Step): Game
    requires s.j < |g.items| && |g.steps| == 2
  {
    var c := Row(g.items[s.j].color);
    Game(Moved(g.items, s.j, s.xt, s.yt), g.log + [Entry(g.items, s.j, s.xt, s.yt)], g.steps[c := Up(g.steps[c])])
  }

  // ----- What every position keeps -----

  ghost predicate Fixed(items: seq<Item>) {
    |items| == 32 && forall j :: 0 <= j < 32 ==>
      items[j].color == SideOf(j) && items[j].id == IdOf(j) && items[j].chess == KindOf(IdOf(j))
  }

  ghost predicate OnBoard(items: seq<Item>) {
    forall j :: 0 <= j < |items| ==> (items[j].x < 9 && items[j].y < 10) || (items[j].x == 255 && items[j].y == 255)
  }

  ghost predicate Apart(items: seq<Item>) {
    forall i, j :: 0 <= i < j < |items| && Live(items[i]) ==> !On(items[j], items[i].x, items[i].y)
  }

  ghost predicate KavassPoint(s: Side, x: nat, y: nat) {
    var r := if s == Black then 9 - y else y;
    (r == 0 && (x == 3 || x == 5)) || (r == 1 && x == 4) || (r == 2 && (x == 3 || x == 5))
  }

  ghost predicate ElephantPoint(s: Side, x: nat, y: nat) {
    var r := if s == Black then 9 - y else y;
    (r == 0 && (x == 2 || x == 6)) || (r == 2 && (x == 0 || x == 4 || x == 8)) || (r == 4 && (x == 2 || x == 6))
  }

  /** Where each kind of piece can be. */
  ghost predicate Confined(items: seq<Item>, j: nat)
    requires |items| == 32 && j < 32
  {
    var it := items[j];
    Live(it) ==>
      && (it.chess == Kavass ==> KavassPoint(it.color, it.x, it.y))
      && (it.chess == Elephant ==> ElephantPoint(it.color, it.x, it.y))
      && (it.chess == Soldier && HomeHalf(it.color, it.y) ==> it.x == StartX(it.id))
      && (it.chess == Soldier ==> if it.color == Black then it.y <= 6 else it.y >= 3)
      && (it.chess == General ==> InPalace(it.color, it.x, it.y) || !Live(items[Slot(Other(it.color), 4)]))
  }

  ghost predicate Sound(items: seq<Item>) { Fixed(items) && OnBoard(items) && Apart(items) }

  ghost predicate AllConfined(items: seq<Item>)
    requires |items| == 32
  {
    forall j :: 0 <= j < 32 ==> Confined(items, j)
  }

  lemma StartIsSound()
    ensures Sound(Start().items) && AllConfined(Start().items)
  {
    var items := Start().items;
    forall j | 0 <= j < 32 ensures items[j] == StartItem(j) && Confined(items, j) {}
    forall i, j | 0 <= i < j < 32 ensures !On(items[j], items[i].x, items[i].y) {
      StartApart(i, j);
    }
  }

  lemma StartApart(i: nat, j: nat)
    requires i < j < 32
    ensures !On(StartItem(j), StartItem(i).x, StartItem(i).y)
  {}

  /** The moved piece, the captured one, and the others. */
  lemma MovedPieces(items: seq<Item>, j: nat, xt: nat, yt: nat)
    requires CanMove(items, j, xt, yt)
    ensures var after, t := Moved(items, j, xt, yt), At(items, xt, yt);
      && |after| == |items| && after[j] == items[j].(x := xt, y := yt)
      && (t.Some? ==> t.value != j && after[t.value] == Captured(items[t.value]))
      && forall i :: 0 <= i < |items| && i != j && t != Some(i) ==> after[i] == items[i]
  {}

  /** A move keeps the pieces themselves, keeps them on the board, and keeps them apart. */
  lemma MoveKeepsSound(items: seq<Item>, j: nat, xt: nat, yt: nat)
    requires Sound(items) && CanMove(items, j, xt, yt)
    ensures Sound(Moved(items, j, xt, yt))
  {
    hide At;
    var after := Moved(items, j, xt, yt);
    MovedPieces(items, j, xt, yt);
    forall a, b | 0 <= a < b < 32 && Live(after[a]) ensures !On(after[b], after[a].x, after[a].y) {
      assert Live(items[a]) ==> !On(items[b], items[a].x, items[a].y);
      AtIsThere(items, xt, yt);
    }
  }

  /** A legal move leaves every piece where its kind belongs. */
  lemma MoveKeepsConfined(items: seq<Item>, j: nat, xt: nat, yt: nat)
    requires Sound(items) && AllConfined(items) && MayGo(items, j, xt, yt)
    ensures |Moved(items, j, xt, yt)| == 32 && AllConfined(Moved(items, j, xt, yt))
  {
    hide Goes, Confined, At;
    var after := Moved(items, j, xt, yt);
    MovedPieces(items, j, xt, yt);
    forall i: nat | i < 32 ensures Confined(after, i) {
      if i == j {
        MoverConfined(items, j, xt, yt);
      } else {
        StillConfined(items, after, i);
      }
    }
  }

  lemma AtIsThere(items: seq<Item>, x: nat, y: nat)
    ensures At(items, x, y).None? ==> forall j :: 0 <= j < |items| ==> !On(items[j], x, y)
    ensures At(items, x, y).Some? ==> At(items, x, y).value < |items| && On(items[At(items, x, y).value], x, y)
  {}

  /** A piece that did not move stays confined; captures only loosen what binds the generals. */
  lemma StillConfined(items: seq<Item>, after: seq<Item>, i: nat)
    requires |items| == |after| == 32 && i < 32 && Confined(items, i)
    requires after[i] == items[i] || after[i] == Captured(items[i])
    requires forall k :: 0 <= k < 32 && !Live(items[k]) ==> !Live(after[k])
    ensures Confined(after, i)
  {}

  lemma MoverConfined(items: seq<Item>, j: nat, xt: nat, yt: nat)
    requires Sound(items) && AllConfined(items) && MayGo(items, j, xt, yt)
    ensures |Moved(items, j, xt, yt)| == 32 && Confined(Moved(items, j, xt, yt), j)
  {
    hide At, Clear, OneScreen, Taken, Empty, Moved;
    MovedPieces(items, j, xt, yt);
    assert Confined(items, j);
    var it := items[j];
    match it.chess
    case General =>
      AtIsThere(items, xt, yt);
      assert Slot(SideOf(j), 4) == j;
    case Kavass =>
    case Elephant =>
    case Soldier =>
    case _ =>
  }

  // ----- Runs -----

  function Front<T>(s: seq<T>): seq<T>
    requires s != []
  {
    s[..|s| - 1]
  }

  function Last<T>(s: seq<T>): T
    requires s != []
  {
    s[|s| - 1]
  }

  ghost predicate PossibleRun(run: seq<Step>)
    decreases |run|, 0
  {
    run != [] ==> PossibleRun(Front(run)) && CanMove(After(Front(run)).items, Last(run).j, Last(run).xt, Last(run).yt)
  }

  /** The game after a run of moves. */
  ghost function After(run: seq<Step>): (g: Game)
    requires PossibleRun(run)
    ensures |g.items| == 32 && |g.steps| == 2 && |g.log| == |run|
    decreases |run|, 1
  {
    if run == [] then Start() else Play(After(Front(run)), Last(run))
  }

  ghost predicate LegalRun(run: seq<Step>)
    decreases |run|
  {
    && PossibleRun(run)
    && (run != [] ==> LegalRun(Front(run)) && MayGo(After(Front(run)).items, Last(run).j, Last(run).xt, Last(run).yt))
  }

  lemma {:induction false} RunSound(run: seq<Step>)
    requires PossibleRun(run)
    ensures Sound(After(run).items)
    decreases |run|
  {
    hide Sound, CanMove;
    if run == [] {
      StartIsSound();
    } else {
      RunSound(Front(run));
      MoveKeepsSound(After(Front(run)).items, Last(run).j, Last(run).xt, Last(run).yt);
    }
  }

  /** After any run of legal moves every piece is where its kind belongs. */
  lemma {:induction false} RunConfined(run: seq<Step>)
    requires LegalRun(run)
    ensures AllConfined(After(run).items)
    decreases |run|
  {
    hide Sound, CanMove, MayGo, AllConfined;
    if run == [] {
      StartIsSound();
    } else {
      RunSound(Front(run));
      RunConfined(Front(run));
      MoveKeepsConfined(After(Front(run)).items, Last(run).j, Last(run).xt, Last(run).yt);
    }
  }

  // ----- Taking moves back -----

  /** What taking back the move of one log entry does to the pieces. */
  function Undone(items: seq<Item>, m: Manual): seq<Item>
    requires |items| == 32 && m.id < 16 && m.uniteID < 16
  {
    var j := Slot(m.color, m.id);
    var back := items[j := items[j].(chess := m.chess, x := m.xs, y := m.ys)];
    var t := Slot(Other(m.color), m.uniteID);
    if m.uniteChess == NoChess then back else back[t := back[t].(x := m.xt, y := m.yt)]
  }

  /** Taking back a move restores every piece. */
  lemma UndoMove(items: seq<Item>, j: nat, xt: nat, yt: nat)
    requires Sound(items) && CanMove(items, j, xt, yt)
    ensures var m := Entry(items, j, xt, yt);
      m.id < 16 && m.uniteID < 16 && m.color == items[j].color && Undone(Moved(items, j, xt, yt), m) == items
  {
    hide Apart, OnBoard;
    MovedPieces(items, j, xt, yt);
    var m, after := Entry(items, j, xt, yt), Moved(items, j, xt, yt);
    assert Slot(m.color, m.id) == j;
    var back := Undone(after, m);
    forall i | 0 <= i < 32 ensures back[i] == items[i] {}
  }

  /** And only then: a piece that was captured by its own side is not put back. */
  lemma UndoExactly(items: seq<Item>, j: nat, xt: nat, yt: nat)
    requires Sound(items) && j < 32 && Live(items[j]) && xt < 9 && yt < 10 && At(items, xt, yt) != Some(j)
    ensures var m := Entry(items, j, xt, yt);
      && m.id < 16 && m.uniteID < 16 && |Moved(items, j, xt, yt)| == 32
      && (Undone(Moved(items, j, xt, yt), m) == items <==> CanMove(items, j, xt, yt))
  {
    hide Apart, At;
    AtIsThere(items, xt, yt);
    if CanMove(items, j, xt, yt) {
      UndoMove(items, j, xt, yt);
    } else {
      var t, m := At(items, xt, yt).value, Entry(items, j, xt, yt);
      assert Moved(items, j, xt, yt)[t] == Captured(items[t]);
      assert Undone(Moved(items, j, xt, yt), m)[t] == Captured(items[t]);
    }
  }

  lemma DownUp(n: nat)
    requires n < 0x10000
    ensures Down(Up(n)) == n
  {}
}
