/** Where the quadtree and a flat map of points part: an update along a border two quarters share
    (quad_tree.hpp: update, query). */
module BorderExample {
  import opened Quadrants
  import opened QuadTrees
  import opened AreaOfInterest

  type Point = (real, real)

  predicate At(b: Rect, p: Point) { b.Holds(p.0, p.1) }

  /** A field divided once, a point in the right top quarter alone, one in the left top quarter, and
      one on the border between the two. */
  ghost predicate BorderCase(rect: Rect, min_radius: nat, a: Point, b: Point, c: Point) {
    && min_radius >= 1 && !rect.Empty() && Splits(rect, min_radius) && !Splits(Quarter(rect, 2), min_radius)
    && At(Quarter(rect, 2), a) && rect.MidX() < a.0
    && At(Quarter(rect, 0), b) && At(Quarter(rect, 0), c) && At(Quarter(rect, 2), c)
  }

  /** For instance the field of 64 by 64 with smallest radius 32. */
  lemma SomeBorderCase()
    ensures BorderCase(Rect(0.0, 0.0, 64.0, 64.0), 32, (48.0, 48.0), (10.0, 48.0), (32.0, 48.0))
  {
    var rect := Rect(0.0, 0.0, 64.0, 64.0);
    assert Quarter(rect, 0) == Rect(0.0, 32.0, 32.0, 32.0) && Quarter(rect, 2) == Rect(32.0, 32.0, 32.0, 32.0);
  }

  lemma BorderHomes(rect: Rect, min_radius: nat, a: Point, b: Point, c: Point)
    requires BorderCase(rect, min_radius, a, b, c)
    ensures At(rect, a) && Home(rect, min_radius, a.0, a.1) == Quarter(rect, 2)
    ensures At(rect, b) && Home(rect, min_radius, b.0, b.1) == Quarter(rect, 0)
    ensures At(rect, c) && Home(Quarter(rect, 2), min_radius, c.0, c.1) == Quarter(rect, 2)
  {
    assert !Splits(Quarter(rect, 0), min_radius);
    HomeOfChild(rect, min_radius, 2, a.0, a.1);
    HomeOfChild(rect, min_radius, 0, b.0, b.1);
  }

  lemma QuarterIsChild(all: set<Node>, root: Node, n: Node, i: nat)
    requires WellFormed(all, root) && n in all && i < 4 && !root.bounds.Empty()
    requires n.bounds == Quarter(root.bounds, i)
    ensures n.parent == root && n.slot == i
  {
    assert Linked(n, all, root) && n != root;
    var p := n.parent;
    assert Linked(p, all, root) && Child(p, n.slot, n);
    assert p.bounds.width == root.bounds.width;
    if p != root {
      assert Linked(p.parent, all, root) && Child(p.parent, p.slot, p);
      InsideRoot(all, root, p.parent);
    }
  }

  lemma LeftBlocks(all: set<Node>, root: Node, right: Node, left: Node, c: Point)
    requires WellFormed(all, root) && right in all && left in all && left.contents != map[]
    requires right.parent == root && right.slot == 2 && left.parent == root && left.slot == 0
    requires At(left.bounds, c)
    ensures Hidden(all, root, right, AtPoint(c.0, c.1))
  {
    assert Linked(left, all, root) && Linked(right, all, root) && Child(root, 0, left);
    assert TurnsTo(all, root.nodes[0], AtPoint(c.0, c.1));
    assert Blocked(all, right, AtPoint(c.0, c.1));
  }

  /** Object 1 stays in the right quarter when it moves to the border; the left one is not empty. */
  lemma BorderShadow(all: set<Node>, root: Node, items: map<Id, Object>)
    requires Indexed(all, root, items) && !root.bounds.Empty()
    requires 1 in items && items[1].p != null && items[1].p.bounds == Quarter(root.bounds, 2)
    requires 2 in items && items[2].p != null && items[2].p.bounds == Quarter(root.bounds, 0)
    requires Quarter(root.bounds, 0).Holds(items[1].x, items[1].y)
    ensures Shadowed(all, root, items[1])
  {
    hide Home, Splits, WellFormed, Quarter, Linked, Hidden;
    assert Placed(all, 1, items[1]) && Placed(all, 2, items[2]);
    QuarterIsChild(all, root, items[1].p, 2);
    QuarterIsChild(all, root, items[2].p, 0);
    LeftBlocks(all, root, items[1].p, items[2].p, (items[1].x, items[1].y));
  }

  /** Two objects in neighbouring quarters. */
  method TwoQuarters(rect: Rect, min_radius: nat, a: Point, b: Point, ghost c: Point) returns (tree: QuadTree)
    requires BorderCase(rect, min_radius, a, b, c)
    ensures tree.Valid() && fresh(tree) && fresh(tree.all) && fresh(tree.items.Values)
    ensures tree.rect == rect && tree.min_radius == min_radius
    ensures 1 in tree.items && tree.items[1].p != null && tree.items[1].p.bounds == Quarter(rect, 2)
    ensures 2 in tree.items && tree.items[2].p != null && tree.items[2].p.bounds == Quarter(rect, 0)
  {
    hide Home, Indexed, Quarter, Splits, BorderCase, QuadTree.Valid;
    BorderHomes(rect, min_radius, a, b, c);
    MinOne(rect, min_radius, a, b, c);
    tree := new QuadTree(rect, min_radius);
    tree.Insert(1, a.0, a.1);
    assert tree.Model()[1] == a && tree.AtHome(tree.items[1]);
    tree.Insert(2, b.0, b.1);
    assert tree.Model()[2] == b && tree.AtHome(tree.items[2]);
    assert tree.Model()[1] == a && tree.AtHome(tree.items[1]);
  }

  lemma MinOne(rect: Rect, min_radius: nat, a: Point, b: Point, c: Point)
    requires BorderCase(rect, min_radius, a, b, c)
    ensures min_radius >= 1 && !rect.Empty() && At(Quarter(rect, 0), c) && At(Quarter(rect, 2), c)
  {}

  /** The query at the very point of an object misses it. */
  method BorderMiss(rect: Rect, min_radius: nat, a: Point, b: Point, c: Point) returns (tree: QuadTree, out: seq<Id>)
    requires BorderCase(rect, min_radius, a, b, c)
    ensures tree.Valid() && 1 in tree.Model() && tree.Model()[1] == c
    ensures 1 !in out && forall id :: id in out <==> Found(tree.all, tree.items, tree.root, AtPoint(c.0, c.1), id)
  {
    hide Home, Indexed, Found, Inner, Shadowed, Quarter, Splits, BorderCase;
    tree := TwoQuarters(rect, min_radius, a, b, c);
    BorderHomes(rect, min_radius, a, b, c);
    MinOne(rect, min_radius, a, b, c);
    tree.Update(1, c.0, c.1);
    assert tree.Model()[1] == c;
    BorderShadow(tree.all, tree.root, tree.items);
    out := tree.Query(AtPoint(c.0, c.1));
    ShadowedNotFound(tree.all, tree.root, tree.items, 1);
  }

  lemma ShadowedNotFound(all: set<Node>, root: Node, items: map<Id, Object>, id: Id)
    requires id in items && Shadowed(all, root, items[id])
    ensures !Found(all, items, root, AtPoint(items[id].x, items[id].y), id)
  {}

  // ----- The view of one object -----

  /** The view of an object at a is within the right top quarter and has the border point in it. */
  ghost predicate ViewCase(rect: Rect, min_radius: nat, a: Point, b: Point, c: Point, width: real, height: real) {
    && BorderCase(rect, min_radius, a, b, c)
    && var rc := ClampedAround(rect, a.0, a.1, width / 2.0, height / 2.0);
      Quarter(rect, 2).Contains(rc) && At(rc, c)
  }

  /** For instance a view of 32 by 32 around the middle of that quarter of the field above. */
  lemma SomeViewCase()
    ensures ViewCase(Rect(0.0, 0.0, 64.0, 64.0), 32, (48.0, 48.0), (10.0, 48.0), (32.0, 48.0), 32.0, 32.0)
  {
    SomeBorderCase();
    Enclosed(Rect(0.0, 0.0, 64.0, 64.0), (48.0, 48.0), (32.0, 48.0), 16.0);
  }

  lemma Enclosed(rect: Rect, a: Point, c: Point, half: real)
    requires rect.x == 0.0 && rect.y == 0.0 && rect.width == 64.0 && rect.height == 64.0
    requires a == (48.0, 48.0) && c == (32.0, 48.0) && half == 16.0
    ensures var rc := ClampedAround(rect, a.0, a.1, half, half); Quarter(rect, 2).Contains(rc) && At(rc, c)
  {}

  /** An exact tree with one object in the right top quarter and one on its border, which first match
      puts into the left top quarter. */
  method OneOnBorder(rect: Rect, min_radius: nat, a: Point, ghost b: Point, c: Point) returns (tree: QuadTree)
    requires BorderCase(rect, min_radius, a, b, c)
    ensures tree.Valid() && tree.Exact() && tree.rect == rect && tree.min_radius == min_radius
    ensures tree.Model() == map[1 := a, 2 := c]
    ensures 1 in tree.items && tree.items[1].p != null && tree.items[1].p.bounds == Quarter(rect, 2)
  {
    hide Home, Indexed, Quarter, Splits, BorderCase;
    BorderHomes(rect, min_radius, a, b, c);
    MinOne(rect, min_radius, a, b, c);
    tree := new QuadTree(rect, min_radius);
    tree.Insert(1, a.0, a.1);
    assert tree.Model()[1] == a;
    InField(rect, c);
    tree.Insert(2, c.0, c.1);
    assert tree.Model()[1] == a && tree.AtHome(tree.items[1]);
  }

  lemma InField(rect: Rect, c: Point)
    requires !rect.Empty() && At(Quarter(rect, 0), c)
    ensures At(rect, c)
  {}

  /** In that tree, which no update has touched, the view of object 1 misses object 2 although it is in
      the view, and a query of the whole tree finds it there. */
  method ViewMiss(rect: Rect, min_radius: nat, a: Point, ghost b: Point, c: Point, width: real, height: real)
    returns (tree: QuadTree, view: seq<Id>, whole: seq<Id>)
    requires ViewCase(rect, min_radius, a, b, c, width, height)
    ensures tree.Valid() && tree.Exact() && tree.Model() == map[1 := a, 2 := c]
    ensures var rc := ClampedAround(rect, a.0, a.1, width / 2.0, height / 2.0);
      At(rc, c) && forall id :: id in whole <==> Found(tree.all, tree.items, tree.root, rc, id)
    ensures 1 in tree.items && tree.Seen(1, width, height, view)
    ensures 2 !in view && 2 in whole
  {
    hide Home, Indexed, Found, Inner, Quarter, Splits, BorderCase, ClampedAround, FirstOnPath;
    tree := OneOnBorder(rect, min_radius, a, b, c);
    MinOne(rect, min_radius, a, b, c);
    assert tree.Model()[1] == a && tree.Model()[2] == c && 2 in tree.items;
    view := tree.QueryAround(1, width, height);
    whole := tree.Query(ClampedAround(rect, a.0, a.1, width / 2.0, height / 2.0));
    NotFirst(tree.all, tree.root, tree.items, c);
  }

  lemma NotFirst(all: set<Node>, root: Node, items: map<Id, Object>, c: Point)
    requires Indexed(all, root, items) && !root.bounds.Empty() && At(Quarter(root.bounds, 0), c)
    requires 1 in items && items[1].p != null && items[1].p.bounds == Quarter(root.bounds, 2)
    ensures !FirstOnPath(items[1].p, c.0, c.1)
  {
    hide WellFormed, Quarter, Home, Splits;
    IndexedShape(all, root, items);
    assert Placed(all, 1, items[1]);
    QuarterIsChild(all, root, items[1].p, 2);
    RootIn(all, root);
    NodeParent(all, root, items[1].p);
    OneUp(all, root, items[1].p);
  }
}
