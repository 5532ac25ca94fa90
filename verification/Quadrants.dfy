/** Closed rectangles and how a quadtree divides them (rect.hpp; quad_tree.hpp: create_sub_nodes). */
module Quadrants {

  datatype Rect = Rect(x: real, y: real, width: real, height: real) {
    function Right(): real { x + width }
    function Top(): real { y + height }
    function MidX(): real { x + width / 2.0 }
    function MidY(): real { y + height / 2.0 }

    predicate Empty() { width <= 0.0 || height <= 0.0 }

    predicate Contains(r: Rect) {
      x <= r.x && y <= r.y && r.Right() <= Right() && r.Top() <= Top()
    }

    /** The point is inside or on the border. */
    predicate Holds(px: real, py: real) {
      x <= px <= Right() && y <= py <= Top()
    }

    predicate Intersects(r: Rect) {
      !(Right() < r.x || r.Right() < x || Top() < r.y || r.Top() < y)
    }
  }

  /** Left top, left bottom, right top, right bottom. */
  function Quarter(b: Rect, i: nat): Rect
    requires i < 4
  {
    Rect(if i < 2 then b.x else b.MidX(), if i % 2 == 0 then b.MidY() else b.y, b.width / 2.0, b.height / 2.0)
  }

  /** Whether a rectangle is large enough to be divided. */
  predicate Splits(b: Rect, min_radius: nat) {
    b.width * b.height > (min_radius * min_radius) as real
  }

  lemma SplitsIs(b: Rect, min_radius: nat)
    ensures Splits(b, min_radius) <==> b.width * b.height > (min_radius * min_radius) as real
  {}

  function Measure(b: Rect): (m: nat) {
    if b.width * b.height > 0.0 then (b.width * b.height).Floor else 0
  }

  lemma AtLeastOne(min_radius: nat)
    requires min_radius >= 1
    ensures (min_radius * min_radius) as real >= 1.0
  {
    var m := min_radius * min_radius;
    assert m >= 1 by { Grows(min_radius); }
  }

  lemma Grows(n: nat)
    requires n >= 1
    ensures n * n >= 1
  {}

  lemma QuarterArea(w: real, h: real)
    ensures (w / 2.0) * (h / 2.0) == w * h / 4.0
  {}

  /** Dividing ends: a quarter has a quarter of the area. */
  lemma QuarterSmaller(b: Rect, i: nat, min_radius: nat)
    requires i < 4 && min_radius >= 1 && Splits(b, min_radius)
    ensures Measure(Quarter(b, i)) < Measure(b)
    ensures Quarter(b, i).width * Quarter(b, i).height == b.width * b.height / 4.0
  {
    AtLeastOne(min_radius);
    QuarterArea(b.width, b.height);
    var a := b.width * b.height;
    assert a > 1.0;
    assert (a / 4.0).Floor < a.Floor;
  }

  lemma Positive(w: real, h: real)
    requires w >= 0.0 && h >= 0.0 && w * h > 0.0
    ensures w > 0.0 && h > 0.0
  {}

  /** A rectangle with a point in it that is large enough to be divided is not degenerate. */
  lemma SplitIsProper(b: Rect, min_radius: nat, px: real, py: real)
    requires min_radius >= 1 && Splits(b, min_radius) && b.Holds(px, py)
    ensures b.width > 0.0 && b.height > 0.0
  {
    AtLeastOne(min_radius);
    Positive(b.width, b.height);
  }

  /** The quarters cover the rectangle. */
  lemma QuartersCover(b: Rect, px: real, py: real)
    requires b.Holds(px, py)
    ensures exists i: nat :: i < 4 && Quarter(b, i).Holds(px, py)
    ensures forall i: nat :: i < 4 ==> (b.width >= 0.0 && b.height >= 0.0 ==> b.Contains(Quarter(b, i)))
  {
    var i: nat := (if px <= b.MidX() then 0 else 2) + (if py >= b.MidY() then 0 else 1);
    assert Quarter(b, i).Holds(px, py);
  }

  /** Two quarters share no more than a border. */
  lemma QuartersApart(b: Rect, i: nat, j: nat, r: Rect)
    requires i < 4 && j < 4 && !r.Empty()
    requires Quarter(b, i).Contains(r) && Quarter(b, j).Contains(r)
    ensures i == j
  {}

  /** The first quarter, in the order they are tried, that has the point in it. */
  function FirstQuarter(b: Rect, px: real, py: real): (i: nat)
    requires b.Holds(px, py)
    ensures i < 4 && Quarter(b, i).Holds(px, py)
    ensures forall k: nat :: k < i ==> !Quarter(b, k).Holds(px, py)
  {
    QuartersCover(b, px, py);
    if Quarter(b, 0).Holds(px, py) then 0
    else if Quarter(b, 1).Holds(px, py) then 1
    else if Quarter(b, 2).Holds(px, py) then 2
    else 3
  }

  /** The smallest rectangle a point belongs to when the first matching quarter is always taken. */
  function Home(b: Rect, min_radius: nat, px: real, py: real): (h: Rect)
    requires min_radius >= 1 && b.Holds(px, py)
    ensures h.Holds(px, py) && !Splits(h, min_radius)
    ensures b.Contains(h) && (b.Empty() || !h.Empty())
    decreases Measure(b)
  {
    if !Splits(b, min_radius) then b
    else
      var i := FirstQuarter(b, px, py);
      QuarterSmaller(b, i, min_radius);
      SplitIsProper(b, min_radius, px, py);
      Home(Quarter(b, i), min_radius, px, py)
  }

  /** The first quarter with the point in it leads home. */
  lemma HomeOfChild(b: Rect, min_radius: nat, i: nat, px: real, py: real)
    requires min_radius >= 1 && Splits(b, min_radius) && b.Holds(px, py)
    requires i < 4 && Quarter(b, i).Holds(px, py) && forall k: nat :: k < i ==> !Quarter(b, k).Holds(px, py)
    ensures Measure(Quarter(b, i)) < Measure(b)
    ensures Home(b, min_radius, px, py) == Home(Quarter(b, i), min_radius, px, py)
  {
    assert i == FirstQuarter(b, px, py);
    QuarterSmaller(b, i, min_radius);
  }

  lemma FirstQuarterIs(b: Rect, px: real, py: real)
    requires b.Holds(px, py)
    ensures var i := FirstQuarter(b, px, py);
      i < 4 && Quarter(b, i).Holds(px, py) && forall k: nat :: k < i ==> !Quarter(b, k).Holds(px, py)
  {}

  lemma HomeInside(b: Rect, min_radius: nat, px: real, py: real)
    requires min_radius >= 1 && b.Holds(px, py)
    ensures var h := Home(b, min_radius, px, py);
      h.Holds(px, py) && !Splits(h, min_radius) && b.Contains(h) && (b.Empty() || !h.Empty())
  {}

  /** A point strictly inside q; where q reaches the border of the whole, that border belongs to it. */
  ghost predicate Inner(whole: Rect, q: Rect, px: real, py: real) {
    && q.Holds(px, py)
    && (q.x < px || q.x <= whole.x) && (px < q.Right() || whole.Right() <= q.Right())
    && (q.y < py || q.y <= whole.y) && (py < q.Top() || whole.Top() <= q.Top())
  }

  /** Only one quarter can have in it both a rectangle and a point strictly inside that. */
  lemma InnerQuarter(whole: Rect, b: Rect, i: nat, j: nat, q: Rect, px: real, py: real)
    requires i < 4 && j < 4 && !b.Empty() && whole.Contains(b)
    requires Quarter(b, i).Contains(q) && Quarter(b, j).Holds(px, py) && Inner(whole, q, px, py)
    ensures i == j
  {}
}
