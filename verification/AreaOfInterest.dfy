/** The quadtree with its index of objects, as a map from ids to points (quad_tree.hpp: quad_tree). */
module AreaOfInterest {
  import opened Quadrants
  import opened QuadTrees

  function Clamp(v: real, low: real, high: real): real {
    if v < low then low else if high < v then high else v
  }

  /** The lowest node at or above n that has the point in it. */
  ghost function Start(n: Node, px: real, py: real): Node
    decreases n.depth
  {
    if n.bounds.Holds(px, py) || n.parent == null || n.parent.depth >= n.depth then n else Start(n.parent, px, py)
  }

  /** The lowest node at or above n that contains a rectangle, or the root. */
  ghost function ViewStart(n: Node, q: Rect): Node
    decreases n.depth
  {
    if n.bounds.Contains(q) || n.parent == null || n.parent.depth >= n.depth then n else ViewStart(n.parent, q)
  }

  /** On the way from the root to a node no earlier sibling has the point in it. */
  ghost predicate FirstOnPath(a: Node, px: real, py: real)
    decreases a.depth
  {
    a.parent == null || a.parent.depth >= a.depth
    || ((forall i: nat :: i < a.slot && i < 4 ==> !Quarter(a.parent.bounds, i).Holds(px, py))
        && FirstOnPath(a.parent, px, py))
  }

  /** The rectangle around a point, cut to the field. */
  function ClampedAround(field: Rect, x: real, y: real, halfw: real, halfh: real): Rect {
    var left := Clamp(x - halfw, field.x, field.Right());
    var right := Clamp(x + halfw, field.x, field.Right());
    var bottom := Clamp(y - halfh, field.y, field.Top());
    var top := Clamp(y + halfh, field.y, field.Top());
    Rect(left, bottom, right - left, top - bottom)
  }

  class QuadTree {
    const rect: Rect
    const min_radius: nat
    const root: Node
    var items: map<Id, Object>
    /** Every node of the tree. */
    ghost var all: set<Node>

    ghost predicate Valid()
      reads this, all, items.Values
    {
      Indexed(all, root, items) && root.bounds == rect && root.min_radius == min_radius
    }

    /** The objects as a map from ids to points. */
    ghost function Model(): map<Id, (real, real)>
      reads this, items.Values
    {
      map id | id in items :: (items[id].x, items[id].y)
    }

    /** Every object is where first-match descent from the root would put it. */
    ghost predicate Exact()
      reads this, items.Values
    {
      forall id :: id in items ==> AtHome(items[id])
    }

    ghost predicate AtHome(o: Object)
      reads o
    {
      && min_radius >= 1 && rect.Holds(o.x, o.y)
      && o.p != null && o.p.bounds == Home(rect, min_radius, o.x, o.y)
    }

    constructor (rect: Rect, min_radius: nat)
      requires min_radius >= 1
      ensures Valid() && fresh(all) && Exact() && items == map[] && Model() == map[]
      ensures this.rect == rect && this.min_radius == min_radius
    {
      this.rect := rect;
      this.min_radius := min_radius;
      root := new Node(null, rect, min_radius, 0);
      items := map[];
      new;
      all := {root};
    }

    /** Adds an object unless its id is known. */
    method Insert(uid: Id, x: real, y: real)
      requires Valid() && (uid !in items ==> rect.Holds(x, y))
      modifies this`items, this`all, all
      ensures Valid() && all >= old(all) && fresh(all - old(all))
      ensures Model() == if uid in old(items) then old(Model()) else old(Model())[uid := (x, y)]
      ensures items.Keys == old(items).Keys + {uid} && fresh(items.Values - old(items.Values))
      ensures forall id :: id in old(items) ==> items[id] == old(items[id])
      ensures old(Exact()) ==> Exact()
    {
      hide Home, WellFormed, Loose, Indexed;
      if uid !in items {
        var obj := new Object(x, y);
        AddLoose(all, root, items, uid, obj);
        items := items[uid := obj];
        Place(uid, obj, root);
      }
    }

    /** Moves an object to a point in bounds. The search for its new place starts from the lowest
        node above the old one that has the point in it; the tree stays exact just when that leads to
        the place the search from the root would find, that is, when no earlier sibling on the way to
        that node has the point in it. */
    method Update(uid: Id, x: real, y: real)
      requires Valid() && (uid in items ==> rect.Holds(x, y))
      modifies this`all, all, items.Values
      ensures Valid() && items == old(items) && all >= old(all) && fresh(all - old(all))
      ensures Model() == if uid in items then old(Model())[uid := (x, y)] else old(Model())
      ensures forall id :: id in items && id != uid ==> items[id].p == old(items[id].p)
      ensures uid in items ==> Moved(old(items[uid].p), x, y, items[uid].p)
      ensures old(Exact()) && uid in items ==> (Exact() <==> FirstMatch(old(items[uid].p), x, y))
      ensures uid in items ==>
        var n := old(items[uid].p);
        n != null && (FirstMatch(n, x, y) <==> FirstOnPath(Start(n, x, y), x, y))
    {
      hide Home, Moved, Indexed, FirstOnPath;
      if uid in items {
        MatchOnPath(uid, x, y);
        Relocate(uid, items[uid], x, y);
        assert AtHome(items[uid]) <==> FirstMatch(old(items[uid].p), x, y) by {
          WhereMoved(old(items[uid].p), x, y, items[uid]);
        }
        assert forall id :: id in items && id != uid ==> items[id] != items[uid];
      }
    }

    method Relocate(uid: Id, obj: Object, x: real, y: real)
      requires Valid() && uid in items && items[uid] == obj && rect.Holds(x, y)
      modifies this`all, all, obj
      ensures Valid() && all >= old(all) && fresh(all - old(all))
      ensures OneRecordEach(items) && obj.x == x && obj.y == y && Moved(old(obj.p), x, y, obj.p)
    {
      hide Home, WellFormed, Loose, Indexed, Placed, Start;
      var p := TakeOut(uid, obj, x, y);
      Place(uid, obj, p);
    }

    lemma WhereMoved(n: Node?, x: real, y: real, o: Object)
      requires Moved(n, x, y, o.p) && o.x == x && o.y == y && rect.Holds(x, y)
      ensures AtHome(o) <==> FirstMatch(n, x, y)
    {
      hide Home;
    }

    lemma MatchOnPath(uid: Id, x: real, y: real)
      requires Valid() && uid in items && rect.Holds(x, y)
      ensures var n := items[uid].p;
        n != null && (FirstMatch(n, x, y) <==> FirstOnPath(Start(n, x, y), x, y))
    {
      hide Home, WellFormed, FirstOnPath;
      IndexedShape(all, root, items);
      assert Placed(all, uid, items[uid]);
      StartIn(all, root, items[uid].p, x, y);
      HomeOnPath(all, root, Start(items[uid].p, x, y), x, y);
      HomeInside(Start(items[uid].p, x, y).bounds, min_radius, x, y);
    }

    /** Where an object ends up that was at node n and moves to a point. */
    ghost predicate Moved(n: Node?, x: real, y: real, p: Node?) {
      && n != null && p != null && min_radius >= 1 && Start(n, x, y).bounds.Holds(x, y)
      && p.bounds == Home(Start(n, x, y).bounds, min_radius, x, y)
    }

    /** From node n the search for a point ends where it would from the root. */
    ghost predicate FirstMatch(n: Node?, x: real, y: real) {
      && n != null && min_radius >= 1 && rect.Holds(x, y) && Start(n, x, y).bounds.Holds(x, y)
      && Home(Start(n, x, y).bounds, min_radius, x, y) == Home(rect, min_radius, x, y)
    }

    /** Writes the new point and finds where to start; the entry leaves a node that no longer has the
        point in it. */
    method TakeOut(uid: Id, obj: Object, x: real, y: real) returns (p: Node)
      requires Valid() && uid in items && items[uid] == obj && rect.Holds(x, y)
      modifies all, obj`x, obj`y
      ensures Loose(all, root, items, uid, p) && OneRecordEach(items) && obj.x == x && obj.y == y
      ensures obj.p != null && p == Start(obj.p, x, y)
    {
      hide WellFormed, Indexed, OthersPlaced, ContentsKnown;
      IndexedLoose(all, root, items, uid);
      obj.x := x;
      obj.y := y;
      p := obj.p;
      if !p.bounds.Holds(x, y) {
        p := TakeFrom(uid, p, x, y);
      }
    }

    method TakeFrom(uid: Id, n: Node, x: real, y: real) returns (p: Node)
      requires WellFormed(all, root) && n in all && root.bounds.Holds(x, y) && !n.bounds.Holds(x, y)
      requires OthersPlaced(ContentsOf(all), items, uid) && ContentsKnown(ContentsOf(all), items, uid, n)
      modifies all
      ensures WellFormed(all, root) && p in all && p.bounds.Holds(x, y) && p == Start(n, x, y)
      ensures OthersPlaced(ContentsOf(all), items, uid) && ContentsKnown(ContentsOf(all), items, uid, p)
    {
      hide WellFormed;
      ghost var before := ContentsOf(all);
      n.Erase(uid, all, root);
      p := Climb(n, x, y);
      Erased(before, ContentsOf(all), items, uid, n, p);
    }

    /** The lowest node above n that has the point in it. */
    method Climb(n: Node, x: real, y: real) returns (p: Node)
      requires WellFormed(all, root) && n in all && root.bounds.Holds(x, y) && !n.bounds.Holds(x, y)
      ensures p in all && p.bounds.Holds(x, y) && p == Start(n, x, y)
    {
      hide WellFormed;
      NodeParent(all, root, n);
      p := n.parent;
      while !p.bounds.Holds(x, y)
        invariant p in all && Start(p, x, y) == Start(n, x, y)
        decreases p.depth
      {
        NodeParent(all, root, p);
        p := p.parent;
      }
    }

    /** Inserts an object's entry at a node that has its point in it, and records where it went. */
    method Place(uid: Id, obj: Object, start: Node)
      requires uid in items && items[uid] == obj && Loose(all, root, items, uid, start)
      requires root.bounds == rect && root.min_radius == min_radius
      modifies this`all, all, obj`p
      ensures Valid() && all >= old(all) && fresh(all - old(all))
      ensures obj.p != null && Under(start, obj.p)
      ensures min_radius >= 1 && obj.p.bounds == Home(start.bounds, min_radius, obj.x, obj.y)
    {
      hide Home, WellFormed, Under, OthersPlaced, ContentsKnown, Indexed;
      var node := Enter(uid, obj, start);
      obj.p := node;
      LooseIndexed(all, root, items, uid);
    }

    method Enter(uid: Id, obj: Object, start: Node) returns (node: Node)
      requires uid in items && items[uid] == obj && Loose(all, root, items, uid, start)
      requires root.bounds == rect && root.min_radius == min_radius
      modifies this`all, all
      ensures all >= old(all) && fresh(all - old(all))
      ensures Loose(all, root, items, uid, node) && uid in node.contents && node.contents[uid] == obj
      ensures Under(start, node)
      ensures min_radius >= 1 && node.bounds == Home(start.bounds, min_radius, obj.x, obj.y)
    {
      hide Home, WellFormed, Splits, Linked, Under, Child, OthersPlaced, ContentsKnown;
      NodeFacts(all, root, start);
      RootIn(all, root);
      SameRadius(all, root, start);
      ghost var now: set<Node>;
      node, now := start.Insert(uid, obj, all, root);
      if uid in old(start.contents) {
        LeafStays(now, root, start, node);
      }
      all := now;
      assert Entered(old(ContentsOf(all)), ContentsOf(all), node, uid, obj);
      StillIndexed(old(ContentsOf(all)), ContentsOf(all), items, uid, start, node);
    }

    /** Removes an object; nothing else changes place. */
    method Erase(uid: Id)
      requires Valid()
      modifies this`items, all
      ensures Valid() && all == old(all) && items == old(items) - {uid}
      ensures Model() == old(Model()) - {uid}
      ensures old(Exact()) ==> Exact()
    {
      hide WellFormed, Home, OthersPlaced, ContentsKnown, Indexed;
      if uid in items {
        IndexedLoose(all, root, items, uid);
        var p := items[uid].p;
        EraseFrom(uid, p);
        RestIndexed(all, root, items, uid, p);
        items := items - {uid};
      }
    }

    method EraseFrom(uid: Id, p: Node)
      requires Loose(all, root, items, uid, p)
      modifies all
      ensures Loose(all, root, items, uid, p) && forall n :: n in all ==> uid !in n.contents
    {
      hide WellFormed;
      ghost var before := ContentsOf(all);
      p.Erase(uid, all, root);
      Erased(before, ContentsOf(all), items, uid, p, p);
      assert forall n :: n in all ==> ContentsOf(all)[n] == n.contents;
    }

    /** The whole-tree query: nothing outside the closed rectangle, everything strictly inside, and
        exactly the objects of the closed rectangle as long as the tree is exact. */
    method Query(rc: Rect) returns (out: seq<Id>)
      requires Valid()
      ensures NoDuplicates(out)
      ensures forall id :: id in out ==> id in items && rc.Holds(items[id].x, items[id].y)
      ensures forall id :: id in items && Inner(rect, rc, items[id].x, items[id].y) ==> id in out
      ensures Exact() ==> forall id :: id in items && rc.Holds(items[id].x, items[id].y) ==> id in out
      ensures forall id :: id in out <==> Found(all, items, root, rc, id)
    {
      hide Indexed, WellFormed, Found, Inner, Exact, Home;
      IndexedShape(all, root, items);
      RootIn(all, root);
      out := root.Query(rc, all, root, items);
      FoundBounds(all, root, items, root, rc);
      InnerFound(all, root, items, root, rc);
      ExactFound(rc);
    }

    lemma ExactFound(rc: Rect)
      requires Valid()
      ensures Exact() ==>
        forall id :: id in items && rc.Holds(items[id].x, items[id].y) ==> Found(all, items, root, rc, id)
    {
      hide Home, Linked;
      if Exact() {
        forall id | id in items && rc.Holds(items[id].x, items[id].y) ensures Found(all, items, root, rc, id) {
          assert Placed(all, id, items[id]) && AtHome(items[id]);
          EveryoneUnderRoot(all, root, items);
          HomeNotHidden(all, root, items[id].p, items[id].x, items[id].y, rc);
        }
      }
    }

    function MakeAround(x: real, y: real, halfw: real, halfh: real): Rect {
      ClampedAround(rect, x, y, halfw, halfh)
    }

    /** The clamped rectangle around an object. */
    ghost function View(o: Object, width: real, height: real): Rect
      reads o
    {
      MakeAround(o.x, o.y, width / 2.0, height / 2.0)
    }

    /** The view of one object: the search starts from the lowest node above it that contains the
        clamped rectangle around it, and finds what a query from there finds. That is every object
        strictly inside the full rectangle and none outside the closed one; and while the tree is
        exact, an object in the clamped one is returned just when no earlier sibling on the way to that
        node has its point in it. */
    method QueryAround(uid: Id, width: real, height: real) returns (out: seq<Id>)
      requires Valid()
      ensures NoDuplicates(out)
      ensures uid !in items ==> out == []
      ensures uid in items && width >= 0.0 && height >= 0.0 ==>
        forall id :: id in out ==> id in items && Around(items[uid], width, height).Holds(items[id].x, items[id].y)
      ensures uid in items ==>
        forall id :: id in items && StrictlyInside(Around(items[uid], width, height), items[id].x, items[id].y) ==>
          id in out
      ensures uid in items ==> Seen(uid, width, height, out)
      ensures uid in items && Exact() ==> ExactlySeen(uid, width, height, out)
    {
      hide Indexed, WellFormed, Found, Inner, Around, StrictlyInside, MakeAround, Exact, FirstOnPath;
      if uid !in items { return []; }
      IndexedLoose(all, root, items, uid);
      IndexedShape(all, root, items);
      var item := items[uid];
      var rc := MakeAround(item.x, item.y, width / 2.0, height / 2.0);
      AroundIsMade(uid, width, height);
      var p := item.p;
      RootIn(all, root);
      while !p.bounds.Contains(rc) && p.parent != null
        invariant p in all && ViewStart(p, rc) == ViewStart(item.p, rc)
        decreases p.depth
      {
        NodeParent(all, root, p);
        p := p.parent;
      }
      NodeParent(all, root, p);
      out := p.Query(rc, all, root, items);
      FoundBounds(all, root, items, p, rc);
      InnerFound(all, root, items, p, rc);
      FirstFound(p, rc);
    }

    /** The result is what a query from the start node finds. */
    ghost predicate Seen(uid: Id, width: real, height: real, out: seq<Id>)
      requires uid in items
      reads this, all, items.Values
    {
      var rc := View(items[uid], width, height);
      items[uid].p != null && forall id :: id in out <==> Found(all, items, ViewStart(items[uid].p, rc), rc, id)
    }

    /** Of the objects in the clamped rectangle the result has those that first match leads past no
        earlier sibling on the way to the start node. */
    ghost predicate ExactlySeen(uid: Id, width: real, height: real, out: seq<Id>)
      requires uid in items
      reads this, items.Values
    {
      var rc := View(items[uid], width, height);
      items[uid].p != null && forall id :: id in out <==>
        id in items && rc.Holds(items[id].x, items[id].y)
        && FirstOnPath(ViewStart(items[uid].p, rc), items[id].x, items[id].y)
    }

    /** In an exact tree a query from a node that contains the rectangle, or from the root, finds the
        objects in it whose way leads to that node. */
    lemma FirstFound(a: Node, rc: Rect)
      requires Valid() && a in all && (a == root || a.bounds.Contains(rc))
      ensures Exact() ==> forall id :: Found(all, items, a, rc, id) <==>
        id in items && rc.Holds(items[id].x, items[id].y) && FirstOnPath(a, items[id].x, items[id].y)
    {
      hide Home, Linked, FirstOnPath, Hidden, Under;
      if Exact() {
        forall id | id in items && rc.Holds(items[id].x, items[id].y)
          ensures Found(all, items, a, rc, id) <==> FirstOnPath(a, items[id].x, items[id].y)
        {
          assert Placed(all, id, items[id]) && AtHome(items[id]);
          InBounds(id);
          UnderIsFirst(all, root, a, items[id].p, items[id].x, items[id].y);
          HomeNotHidden(all, root, items[id].p, items[id].x, items[id].y, rc);
          if Under(a, items[id].p) && Hidden(all, a, items[id].p, rc) {
            HiddenHigher(all, root, a, items[id].p, rc);
          }
        }
      }
    }

    /** For objects of the tree the clamped rectangle is as good as the full one. */
    lemma AroundIsMade(uid: Id, width: real, height: real)
      requires Valid() && uid in items
      ensures
        var u := Around(items[uid], width, height);
        var rc := MakeAround(items[uid].x, items[uid].y, width / 2.0, height / 2.0);
        && (width >= 0.0 && height >= 0.0 ==>
              forall id :: id in items && rc.Holds(items[id].x, items[id].y) ==> u.Holds(items[id].x, items[id].y))
        && (forall id :: id in items && StrictlyInside(u, items[id].x, items[id].y) ==>
              Inner(rect, rc, items[id].x, items[id].y))
    {
      hide WellFormed;
      InBounds(uid);
      var u, rc := Around(items[uid], width, height), MakeAround(items[uid].x, items[uid].y, width / 2.0, height / 2.0);
      forall id | id in items
        ensures width >= 0.0 && height >= 0.0 && rc.Holds(items[id].x, items[id].y) ==>
          u.Holds(items[id].x, items[id].y)
        ensures StrictlyInside(u, items[id].x, items[id].y) ==> Inner(rect, rc, items[id].x, items[id].y)
      {
        InBounds(id);
      }
    }

    lemma InBounds(id: Id)
      requires Valid() && id in items
      ensures rect.Holds(items[id].x, items[id].y)
    {
      assert Placed(all, id, items[id]);
      AllUnderRoot(all, root, items[id].p);
      UnderInside(all, root, root, items[id].p);
    }

    method Count() returns (n: nat)
      requires Valid()
      ensures n == |Model()|
    {
      RootIn(all, root);
      n := root.Count(all, root, items);
      EveryoneUnderRoot(all, root, items);
      assert SubtreeIds(items, root) == Model().Keys;
      assert |Model().Keys| == |Model()|;
    }
  }

  /** The rectangle of a given size with an object in its middle. */
  ghost function Around(o: Object, width: real, height: real): Rect
    reads o
  {
    Rect(o.x - width / 2.0, o.y - height / 2.0, width, height)
  }

  ghost predicate StrictlyInside(q: Rect, px: real, py: real) {
    q.x < px < q.Right() && q.y < py < q.Top()
  }

  // ----- What a query finds -----

  lemma FoundBounds(all: set<Node>, root: Node, items: map<Id, Object>, a: Node, q: Rect)
    ensures forall id :: Found(all, items, a, q, id) ==> id in items && q.Holds(items[id].x, items[id].y)
  {}

  /** A point strictly inside a rectangle within a node's bounds is in that node's subtree, and on
      the way there no sibling contains the rectangle. */
  lemma {:induction false} InnerUnder(all: set<Node>, root: Node, a: Node, leaf: Node, q: Rect, px: real, py: real)
    requires WellFormed(all, root) && a in all && leaf in all && leaf.nodes == []
    requires leaf.bounds.Holds(px, py) && Inner(root.bounds, q, px, py)
    requires a == root || a.bounds.Contains(q)
    ensures Under(a, leaf)
    decreases a.depth
  {
    if a == root {
      AllUnderRoot(all, root, leaf);
    } else {
      var p := a.parent;
      assert Linked(a, all, root) && Linked(p, all, root) && Child(p, a.slot, a);
      InsideRoot(all, root, p);
      InnerUnder(all, root, p, leaf, q, px, py);
      var j := UnderChild(all, root, p, leaf);
      assert Child(p, j, p.nodes[j]);
      UnderInside(all, root, p.nodes[j], leaf);
      InnerQuarter(root.bounds, p.bounds, a.slot, j, q, px, py);
    }
  }

  lemma InsideRoot(all: set<Node>, root: Node, n: Node)
    requires WellFormed(all, root) && n in all
    ensures n == root || root.bounds.Contains(n.bounds)
  {
    AllUnderRoot(all, root, n);
    UnderInside(all, root, root, n);
  }

  lemma {:induction false} InnerNotHidden(all: set<Node>, root: Node, a: Node, leaf: Node, q: Rect, px: real, py: real)
    requires WellFormed(all, root) && a in all && leaf in all
    requires leaf.bounds.Holds(px, py) && Inner(root.bounds, q, px, py)
    ensures !Hidden(all, a, leaf, q)
    decreases leaf.depth
  {
    if leaf != a && leaf != root {
      var p := leaf.parent;
      assert Linked(leaf, all, root) && Linked(p, all, root) && Child(p, leaf.slot, leaf);
      InsideRoot(all, root, p);
      forall i: nat | i < leaf.slot ensures !TurnsTo(all, p.nodes[i], q) {
        assert Child(p, i, p.nodes[i]);
        if p.nodes[i].bounds.Contains(q) {
          InnerQuarter(root.bounds, p.bounds, i, leaf.slot, q, px, py);
        }
      }
      InnerNotHidden(all, root, a, p, q, px, py);
    }
  }

  /** A query from a node that contains the rectangle finds everything strictly inside. */
  lemma InnerFound(all: set<Node>, root: Node, items: map<Id, Object>, a: Node, q: Rect)
    requires Indexed(all, root, items) && a in all && (a == root || a.bounds.Contains(q))
    ensures forall id :: id in items && Inner(root.bounds, q, items[id].x, items[id].y) ==> Found(all, items, a, q, id)
  {
    forall id | id in items && Inner(root.bounds, q, items[id].x, items[id].y) ensures Found(all, items, a, q, id) {
      assert Placed(all, id, items[id]);
      var leaf := items[id].p;
      assert Linked(leaf, all, root);
      InnerUnder(all, root, a, leaf, q, items[id].x, items[id].y);
      InnerNotHidden(all, root, a, leaf, q, items[id].x, items[id].y);
    }
  }

  /** First-match descent from an ancestor of a point's home leads through the same children. */
  lemma {:induction false} HomeBelow(all: set<Node>, root: Node, a: Node, leaf: Node, px: real, py: real)
    requires WellFormed(all, root) && a in all && leaf in all && Under(a, leaf) && root.bounds.Holds(px, py)
    requires leaf.bounds == Home(root.bounds, root.min_radius, px, py)
    ensures a.bounds.Holds(px, py) && leaf.bounds == Home(a.bounds, root.min_radius, px, py)
    ensures a != root ==>
      forall i: nat :: i < a.slot ==> i < |a.parent.nodes| && !a.parent.nodes[i].bounds.Holds(px, py)
    decreases a.depth
  {
    hide Home, FirstQuarter;
    if a != root {
      var p, r := a.parent, root.min_radius;
      assert Linked(a, all, root) && Linked(p, all, root) && Child(p, a.slot, a);
      UnderTransitive(p, a, leaf);
      HomeBelow(all, root, p, leaf, px, py);
      SameRadius(all, root, p);
      var i := FirstQuarter(p.bounds, px, py);
      FirstQuarterIs(p.bounds, px, py);
      HomeOfChild(p.bounds, r, i, px, py);
      HomeInside(Quarter(p.bounds, i), r, px, py);
      HomeInside(p.bounds, r, px, py);
      UnderInside(all, root, a, leaf);
      QuartersApart(p.bounds, i, a.slot, leaf.bounds);
      forall k: nat | k < a.slot ensures !p.nodes[k].bounds.Holds(px, py) {
        assert Child(p, k, p.nodes[k]);
      }
    }
  }

  /** The home of a point is below a node just when the way there passes no earlier sibling with the
      point in it. */
  lemma {:induction false} UnderIsFirst(all: set<Node>, root: Node, a: Node, leaf: Node, px: real, py: real)
    requires WellFormed(all, root) && a in all && leaf in all && root.bounds.Holds(px, py)
    requires leaf.bounds == Home(root.bounds, root.min_radius, px, py) && leaf.contents != map[]
    requires a.bounds.Holds(px, py)
    ensures Under(a, leaf) <==> FirstOnPath(a, px, py)
    decreases a.depth
  {
    hide Home, WellFormed, Quarter, Under;
    NodeParent(all, root, a);
    if a == root {
      AllUnderRoot(all, root, leaf);
    } else {
      OneUp(all, root, a);
      QuarterHolds(a.parent.bounds, a.slot, px, py);
      UnderIsFirst(all, root, a.parent, leaf, px, py);
      if Under(a, leaf) {
        NoEarlier(all, root, a, leaf, px, py);
      } else if FirstOnPath(a, px, py) {
        FirstLeadsThere(all, root, a, leaf, px, py);
      }
    }
  }

  lemma {:induction false} StartIn(all: set<Node>, root: Node, n: Node, px: real, py: real)
    requires WellFormed(all, root) && n in all && root.bounds.Holds(px, py)
    ensures Start(n, px, py) in all && Start(n, px, py).bounds.Holds(px, py)
    decreases n.depth
  {
    hide WellFormed;
    NodeParent(all, root, n);
    if !n.bounds.Holds(px, py) {
      StartIn(all, root, n.parent, px, py);
    }
  }

  /** The search for a point from a node ends where the one from the root does just when the way from
      the root to that node passes no earlier sibling with the point in it. */
  lemma {:induction false} HomeOnPath(all: set<Node>, root: Node, a: Node, px: real, py: real)
    requires WellFormed(all, root) && a in all && root.min_radius >= 1
    requires root.bounds.Holds(px, py) && a.bounds.Holds(px, py)
    ensures FirstOnPath(a, px, py) ==>
      Home(a.bounds, root.min_radius, px, py) == Home(root.bounds, root.min_radius, px, py)
    ensures a.bounds.Contains(Home(root.bounds, root.min_radius, px, py)) ==> FirstOnPath(a, px, py)
    decreases a.depth
  {
    hide Home, WellFormed, Quarter, FirstQuarter, Splits;
    NodeParent(all, root, a);
    if a != root {
      var p, r := a.parent, root.min_radius;
      OneUp(all, root, a);
      ParentSplits(all, root, a);
      QuarterHolds(p.bounds, a.slot, px, py);
      QuarterInside(p.bounds, a.slot);
      HomeOnPath(all, root, p, px, py);
      FirstQuarterIs(p.bounds, px, py);
      var i := FirstQuarter(p.bounds, px, py);
      HomeOfChild(p.bounds, r, i, px, py);
      HomeInside(Quarter(p.bounds, i), r, px, py);
      HomeInside(p.bounds, r, px, py);
      if a.bounds.Contains(Home(root.bounds, r, px, py)) {
        QuartersApart(p.bounds, i, a.slot, Home(p.bounds, r, px, py));
      }
    }
  }

  lemma QuarterInside(b: Rect, i: nat)
    requires i < 4 && !b.Empty()
    ensures b.Contains(Quarter(b, i))
  {}

  lemma ParentSplits(all: set<Node>, root: Node, a: Node)
    requires WellFormed(all, root) && a in all && a != root
    ensures Splits(a.parent.bounds, root.min_radius)
  {
    assert Linked(a, all, root) && Linked(a.parent, all, root) && Child(a.parent, a.slot, a);
    SameRadius(all, root, a.parent);
  }

  lemma OneUp(all: set<Node>, root: Node, a: Node)
    requires WellFormed(all, root) && a in all && a != root
    ensures a.parent in all && a.parent.depth < a.depth && a.slot < 4
    ensures !a.parent.bounds.Empty() && a.bounds == Quarter(a.parent.bounds, a.slot)
  {
    assert Linked(a, all, root) && Linked(a.parent, all, root) && Child(a.parent, a.slot, a);
  }

  lemma NoEarlier(all: set<Node>, root: Node, a: Node, leaf: Node, px: real, py: real)
    requires WellFormed(all, root) && a in all && leaf in all && a != root && Under(a, leaf)
    requires root.bounds.Holds(px, py) && leaf.bounds == Home(root.bounds, root.min_radius, px, py)
    ensures a.parent != null && Under(a.parent, leaf)
    ensures forall i: nat :: i < a.slot && i < 4 ==> !Quarter(a.parent.bounds, i).Holds(px, py)
  {
    hide Home, Quarter, Splits;
    var p := a.parent;
    assert Linked(a, all, root) && Linked(p, all, root) && Child(p, a.slot, a);
    ChildUnder(p, a, leaf);
    HomeBelow(all, root, a, leaf, px, py);
    forall i: nat | i < a.slot && i < 4 ensures !Quarter(p.bounds, i).Holds(px, py) {
      assert Child(p, i, p.nodes[i]);
    }
  }

  lemma QuarterHolds(b: Rect, i: nat, px: real, py: real)
    requires i < 4 && !b.Empty() && Quarter(b, i).Holds(px, py)
    ensures b.Holds(px, py)
  {}

  /** From a node whose first matching child is a, the home is below a. */
  lemma FirstLeadsThere(all: set<Node>, root: Node, a: Node, leaf: Node, px: real, py: real)
    requires WellFormed(all, root) && a in all && leaf in all && a != root && Under(a.parent, leaf)
    requires root.bounds.Holds(px, py) && leaf.bounds == Home(root.bounds, root.min_radius, px, py)
    requires leaf.contents != map[] && a.bounds.Holds(px, py)
    requires forall i: nat :: i < a.slot && i < 4 ==> !Quarter(a.parent.bounds, i).Holds(px, py)
    ensures Under(a, leaf)
  {
    hide Home, FirstQuarter, Splits;
    var p := a.parent;
    assert Linked(a, all, root) && Linked(p, all, root) && Child(p, a.slot, a) && Linked(leaf, all, root);
    assert leaf != p;
    var j := UnderChild(all, root, p, leaf);
    var c := p.nodes[j];
    assert Child(p, j, c);
    ChildUnder(p, c, leaf);
    UnderTransitive(p, c, leaf);
    HomeBelow(all, root, c, leaf, px, py);
    assert forall i: nat :: i < j ==> Child(p, i, p.nodes[i]);
    assert j == a.slot;
  }

  lemma {:induction false} HiddenHigher(all: set<Node>, root: Node, a: Node, n: Node, q: Rect)
    requires WellFormed(all, root) && a in all && n in all && Under(a, n) && Hidden(all, a, n, q)
    ensures Hidden(all, root, n, q)
    decreases n.depth
  {
    NodeParent(all, root, n);
    if !Blocked(all, n, q) {
      HiddenHigher(all, root, a, n.parent, q);
    }
  }

  lemma {:induction false} HomeNotHidden(all: set<Node>, root: Node, leaf: Node, px: real, py: real, q: Rect)
    requires WellFormed(all, root) && leaf in all && root.bounds.Holds(px, py) && q.Holds(px, py)
    requires leaf.bounds == Home(root.bounds, root.min_radius, px, py)
    ensures !Hidden(all, root, leaf, q)
  {
    HomeNotHiddenAbove(all, root, leaf, leaf, px, py, q);
  }

  lemma {:induction false} HomeNotHiddenAbove(all: set<Node>, root: Node, m: Node, leaf: Node,
                                              px: real, py: real, q: Rect)
    requires WellFormed(all, root) && m in all && leaf in all && Under(m, leaf)
    requires root.bounds.Holds(px, py) && q.Holds(px, py)
    requires leaf.bounds == Home(root.bounds, root.min_radius, px, py)
    ensures !Hidden(all, root, m, q)
    decreases m.depth
  {
    hide Home;
    if m != root {
      NodeParent(all, root, m);
      HomeBelow(all, root, m, leaf, px, py);
      UnderTransitive(m.parent, m, leaf);
      HomeNotHiddenAbove(all, root, m.parent, leaf, px, py, q);
    }
  }

  /** Every object is in exactly one node: one too small to be divided, whose closed bounds contain
      it. */
  lemma OneLeafEach(all: set<Node>, root: Node, items: map<Id, Object>)
    requires Indexed(all, root, items)
    ensures forall n, id :: n in all ==> (id in n.contents <==> id in items && items[id].p == n)
    ensures forall id :: id in items ==>
      items[id].p in all && items[id].p.nodes == []
      && items[id].p.bounds.width * items[id].p.bounds.height <= (root.min_radius * root.min_radius) as real
      && items[id].p.bounds.Holds(items[id].x, items[id].y)
  {
    hide *;
    SmallLeaves(all, root, items);
    Leaves(all, root, items);
  }

  lemma SmallLeaves(all: set<Node>, root: Node, items: map<Id, Object>)
    requires Indexed(all, root, items)
    ensures forall id :: id in items ==>
      items[id].p != null
      && items[id].p.bounds.width * items[id].p.bounds.height <= (root.min_radius * root.min_radius) as real
  {
    hide Indexed, WellFormed;
    forall id | id in items
      ensures items[id].p != null
      ensures items[id].p.bounds.width * items[id].p.bounds.height <= (root.min_radius * root.min_radius) as real
    {
      LeafOf(all, root, items, id);
      NodeSizes(all, root, items[id].p);
    }
  }

  lemma Leaves(all: set<Node>, root: Node, items: map<Id, Object>)
    requires Indexed(all, root, items)
    ensures forall n, id :: n in all ==> (id in n.contents <==> id in items && items[id].p == n)
    ensures forall id :: id in items ==>
      items[id].p in all && items[id].p.nodes == [] && items[id].p.bounds.Holds(items[id].x, items[id].y)
  {
    forall id | id in items
      ensures items[id].p in all && items[id].p.nodes == [] && id in items[id].p.contents
      ensures items[id].p.bounds.Holds(items[id].x, items[id].y)
    {
      LeafOf(all, root, items, id);
    }
  }

  lemma LeafOf(all: set<Node>, root: Node, items: map<Id, Object>, id: Id)
    requires Indexed(all, root, items) && id in items
    ensures items[id].p != null && items[id].p in all && items[id].p.nodes == [] && id in items[id].p.contents
    ensures WellFormed(all, root) && items[id].p.bounds.Holds(items[id].x, items[id].y)
  {
    hide Splits;
    assert Placed(all, id, items[id]) && Linked(items[id].p, all, root);
  }

  // ----- When the tree and the map of points agree -----

  function AtPoint(px: real, py: real): Rect { Rect(px, py, 0.0, 0.0) }

  lemma {:induction false} HiddenFromPoint(all: set<Node>, a: Node, n: Node, q: Rect, px: real, py: real)
    requires Hidden(all, a, n, q) && q.Holds(px, py)
    ensures Hidden(all, a, n, AtPoint(px, py))
    decreases n.depth
  {
    if Blocked(all, n, q) {
      var i :| 0 <= i < n.slot && i < |n.parent.nodes| && TurnsTo(all, n.parent.nodes[i], q);
      assert TurnsTo(all, n.parent.nodes[i], AtPoint(px, py));
    } else {
      HiddenFromPoint(all, a, n.parent, q, px, py);
    }
  }

  ghost predicate AlwaysFound(all: set<Node>, root: Node, items: map<Id, Object>)
    reads all, items.Values
  {
    forall q: Rect, id :: id in items && q.Holds(items[id].x, items[id].y) ==> Found(all, items, root, q, id)
  }

  /** An earlier sibling on an object's way down is not empty and has the object's point in it. */
  ghost predicate Shadowed(all: set<Node>, root: Node, o: Object)
    reads all, o
  {
    o.p != null && Hidden(all, root, o.p, AtPoint(o.x, o.y))
  }

  /** Every query agrees with the map of points exactly when no object is shadowed. */
  lemma AgreesExactlyWhen(all: set<Node>, root: Node, items: map<Id, Object>)
    requires Indexed(all, root, items)
    ensures AlwaysFound(all, root, items) <==> forall id :: id in items ==> !Shadowed(all, root, items[id])
  {
    hide WellFormed, Hidden;
    EveryoneUnderRoot(all, root, items);
    if AlwaysFound(all, root, items) {
      forall id | id in items ensures !Shadowed(all, root, items[id]) {
        var q := AtPoint(items[id].x, items[id].y);
        assert q.Holds(items[id].x, items[id].y);
      }
    }
    if forall id :: id in items ==> !Shadowed(all, root, items[id]) {
      forall q: Rect, id | id in items && q.Holds(items[id].x, items[id].y)
        ensures Found(all, items, root, q, id)
      {
        assert !Shadowed(all, root, items[id]) && Placed(all, id, items[id]);
        if Hidden(all, root, items[id].p, q) {
          HiddenFromPoint(all, root, items[id].p, q, items[id].x, items[id].y);
        }
      }
    }
  }

  // ----- One object at large -----

  /** What every node holds. */
  ghost function ContentsOf(all: set<Node>): map<Node, map<Id, Object>>
    reads all
  {
    map n | n in all :: n.contents
  }

  ghost function Others(items: map<Id, Object>, uid: Id): set<Object> {
    set id | id in items && id != uid :: items[id]
  }

  ghost predicate PlacedIn(c: map<Node, map<Id, Object>>, id: Id, o: Object)
    reads o
  {
    o.p != null && o.p in c && o.p.bounds.Holds(o.x, o.y) && id in c[o.p] && c[o.p][id] == o
  }

  ghost predicate OthersPlaced(c: map<Node, map<Id, Object>>, items: map<Id, Object>, uid: Id)
    reads Others(items, uid)
  {
    forall id :: id in items && id != uid ==> PlacedIn(c, id, items[id])
  }

  /** The nodes hold known objects where those say they are; the one object is in one node at most. */
  ghost predicate ContentsKnown(c: map<Node, map<Id, Object>>, items: map<Id, Object>, uid: Id, start: Node)
    reads Others(items, uid)
  {
    forall n, id :: n in c && id in c[n] ==>
      id in items && items[id] == c[n][id] && if id == uid then n == start else items[id].p == n
  }

  ghost predicate OneRecordEach(items: map<Id, Object>) {
    forall a, b :: a in items && b in items && items[a] == items[b] ==> a == b
  }

  /** Everything is indexed but one object, which may only be in one node's contents. */
  ghost predicate Loose(all: set<Node>, root: Node, items: map<Id, Object>, uid: Id, start: Node)
    reads all, items.Values
  {
    && WellFormed(all, root) && OneRecordEach(items)
    && uid in items && start in all && start.bounds.Holds(items[uid].x, items[uid].y)
    && OthersPlaced(ContentsOf(all), items, uid) && ContentsKnown(ContentsOf(all), items, uid, start)
    && items[uid] !in Others(items, uid)
  }

  /** How the contents change when an entry is made in a node. */
  ghost predicate Entered(c: map<Node, map<Id, Object>>, d: map<Node, map<Id, Object>>,
                          node: Node, uid: Id, obj: Object) {
    && c.Keys <= d.Keys && node in d
    && (forall n :: n in d && n != node ==> d[n] == if n in c then c[n] else map[])
    && d[node] == Emplace(if node in c then c[node] else map[], uid, obj)
  }

  lemma StillIndexed(c: map<Node, map<Id, Object>>, d: map<Node, map<Id, Object>>, items: map<Id, Object>, uid: Id,
                     start: Node, node: Node)
    requires uid in items && Entered(c, d, node, uid, items[uid])
    requires OthersPlaced(c, items, uid) && ContentsKnown(c, items, uid, start)
    requires start in c && (uid in c[start] ==> node == start)
    ensures OthersPlaced(d, items, uid) && ContentsKnown(d, items, uid, node)
    ensures uid in d[node] && d[node][uid] == items[uid]
  {
    forall id | id in items && id != uid ensures PlacedIn(d, id, items[id]) {
      assert PlacedIn(c, id, items[id]);
    }
    forall n, id | n in d && id in d[n]
      ensures id in items && items[id] == d[n][id] && if id == uid then n == node else items[id].p == n
    {
      assert n != node ==> n in c && id in c[n];
    }
  }

  /** Taking an entry out of the only node that may have it leaves it in none. */
  lemma Erased(c: map<Node, map<Id, Object>>, d: map<Node, map<Id, Object>>, items: map<Id, Object>, uid: Id,
               start: Node, next: Node)
    requires start in c && d == c[start := c[start] - {uid}]
    requires OthersPlaced(c, items, uid) && ContentsKnown(c, items, uid, start)
    ensures OthersPlaced(d, items, uid) && ContentsKnown(d, items, uid, next)
    ensures forall n :: n in d ==> uid !in d[n]
  {
    forall n | n in d ensures d[n] == c[n] - {uid} {
      assert n != start ==> d[n] == c[n] && uid !in c[n];
    }
    forall id | id in items && id != uid ensures PlacedIn(d, id, items[id]) {
      assert PlacedIn(c, id, items[id]);
    }
    forall n, id | n in d && id in d[n]
      ensures id != uid && id in items && items[id] == d[n][id] && items[id].p == n
    {
      assert n in c && id in c[n];
    }
  }

  lemma IndexedLoose(all: set<Node>, root: Node, items: map<Id, Object>, uid: Id)
    requires Indexed(all, root, items) && uid in items
    ensures items[uid].p != null && items[uid].p in all && Loose(all, root, items, uid, items[uid].p)
  {
    hide WellFormed;
    forall id | id in items ensures PlacedIn(ContentsOf(all), id, items[id]) {
      assert Placed(all, id, items[id]);
    }
  }

  lemma LooseIndexed(all: set<Node>, root: Node, items: map<Id, Object>, uid: Id)
    requires WellFormed(all, root) && OneRecordEach(items) && uid in items && items[uid].p != null
    requires PlacedIn(ContentsOf(all), uid, items[uid])
    requires OthersPlaced(ContentsOf(all), items, uid) && ContentsKnown(ContentsOf(all), items, uid, items[uid].p)
    ensures Indexed(all, root, items)
  {
    hide WellFormed;
    forall id | id in items ensures Placed(all, id, items[id]) {
      assert PlacedIn(ContentsOf(all), id, items[id]);
    }
    forall n, id | n in all && id in n.contents
      ensures id in items && items[id] == n.contents[id] && items[id].p == n
    {
      assert n in ContentsOf(all) && id in ContentsOf(all)[n];
    }
  }

  lemma AddLoose(all: set<Node>, root: Node, items: map<Id, Object>, uid: Id, obj: Object)
    requires Indexed(all, root, items) && uid !in items && root.bounds.Holds(obj.x, obj.y)
    requires forall id :: id in items ==> items[id] != obj
    ensures Loose(all, root, items[uid := obj], uid, root)
  {
    hide WellFormed;
    RootIn(all, root);
    forall id | id in items ensures PlacedIn(ContentsOf(all), id, items[id]) {
      assert Placed(all, id, items[id]);
    }
  }

  /** Without the object that is in no node, everything is indexed. */
  lemma RestIndexed(all: set<Node>, root: Node, items: map<Id, Object>, uid: Id, start: Node)
    requires WellFormed(all, root) && OneRecordEach(items) && OthersPlaced(ContentsOf(all), items, uid)
    requires ContentsKnown(ContentsOf(all), items, uid, start)
    requires forall n :: n in ContentsOf(all) ==> uid !in ContentsOf(all)[n]
    ensures Indexed(all, root, items - {uid})
  {
    hide WellFormed;
    forall id | id in items && id != uid ensures Placed(all, id, items[id]) {
      assert PlacedIn(ContentsOf(all), id, items[id]);
    }
    forall n, id | n in all && id in n.contents
      ensures id in items - {uid} && items[id] == n.contents[id] && items[id].p == n
    {
      assert n in ContentsOf(all) && id in ContentsOf(all)[n];
    }
  }

  lemma SameRadius(all: set<Node>, root: Node, n: Node)
    requires WellFormed(all, root) && n in all
    ensures n.min_radius == root.min_radius
  {
    AllUnderRoot(all, root, n);
    UnderInside(all, root, root, n);
  }

  lemma LeafStays(all: set<Node>, root: Node, n: Node, leaf: Node)
    requires WellFormed(all, root) && n in all && leaf in all && n.contents != map[] && Under(n, leaf)
    ensures leaf == n
  {
    assert Linked(n, all, root);
    if leaf != n {
      var j := UnderChild(all, root, n, leaf);
      assert false;
    }
  }

  lemma RootIn(all: set<Node>, root: Node)
    requires WellFormed(all, root)
    ensures root in all && root.min_radius >= 1
  {}

  lemma NodeParent(all: set<Node>, root: Node, n: Node)
    requires WellFormed(all, root) && n in all
    ensures n.parent == null <==> n == root
    ensures n != root ==> n.parent in all && n.parent.depth < n.depth
  {
    assert Linked(n, all, root);
    if n != root {
      assert Child(n.parent, n.slot, n);
    }
  }

  lemma EveryoneUnderRoot(all: set<Node>, root: Node, items: map<Id, Object>)
    requires Indexed(all, root, items)
    ensures forall id :: id in items <==> InSubtree(items, root, id)
  {
    forall id | id in items ensures InSubtree(items, root, id) {
      assert Placed(all, id, items[id]);
      AllUnderRoot(all, root, items[id].p);
    }
  }
}
