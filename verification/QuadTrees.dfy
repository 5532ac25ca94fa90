/** The quadtree and its flat index of objects (quad_tree.hpp). */
module QuadTrees {
  import opened Quadrants

  type Id = int

  class Object {
    var x: real
    var y: real
    var p: Node?

    constructor (x: real, y: real)
      ensures this.x == x && this.y == y && p == null
    {
      this.x := x;
      this.y := y;
      p := null;
    }
  }

  /** Adds an entry unless the key is taken. */
  function Emplace<T>(m: map<Id, T>, k: Id, v: T): map<Id, T> {
    if k in m then m else m[k := v]
  }

  class Node {
    const parent: Node?
    const bounds: Rect
    const min_radius: nat
    /** How far from the root, and as which child of the parent. */
    ghost const depth: nat
    ghost const slot: nat
    var nodes: seq<Node>
    var contents: map<Id, Object>

    constructor (parent: Node?, bounds: Rect, min_radius: nat, ghost slot: nat)
      ensures this.parent == parent && this.bounds == bounds && this.min_radius == min_radius && this.slot == slot
      ensures depth == (if parent == null then 0 else parent.depth + 1)
      ensures nodes == [] && contents == map[]
    {
      this.parent := parent;
      this.bounds := bounds;
      this.min_radius := min_radius;
      this.depth := if parent == null then 0 else parent.depth + 1;
      this.slot := slot;
      nodes := [];
      contents := map[];
    }

    predicate Empty()
      reads this
    {
      bounds.Empty() || (contents == map[] && nodes == [])
    }

    /** Gives a node its four children when its area is above that of a square of the smallest radius. */
    method CreateSubNodes(ghost all: set<Node>, ghost root: Node) returns (ghost now: set<Node>)
      requires WellFormed(all, root) && this in all && nodes == []
      requires bounds.width * bounds.height > (min_radius * min_radius) as real ==> !bounds.Empty()
      modifies this
      ensures all <= now && fresh(now - all) && WellFormed(now, root)
      ensures contents == old(contents)
      ensures if bounds.width * bounds.height > (min_radius * min_radius) as real then |nodes| == 4
              else nodes == [] && now == all
      ensures if Splits(bounds, min_radius) then InQuarters(this) else nodes == []
      ensures forall n :: n in now - all ==> n.nodes == [] && n.contents == map[]
    {
      SplitsIs(bounds, min_radius);
      now := Divide(all, root);
    }

    method Divide(ghost all: set<Node>, ghost root: Node) returns (ghost now: set<Node>)
      requires WellFormed(all, root) && this in all && nodes == []
      requires Splits(bounds, min_radius) ==> !bounds.Empty()
      modifies this
      ensures all <= now && fresh(now - all) && WellFormed(now, root)
      ensures contents == old(contents)
      ensures if Splits(bounds, min_radius) then |nodes| == 4 && InQuarters(this) else nodes == [] && now == all
      ensures forall n :: n in now - all ==> n.nodes == [] && n.contents == map[]
    {
      hide Splits;
      now := all;
      if Splits(bounds, min_radius) {
        assert Linked(this, all, root);
        AddQuarters();
        QuartersIn(this);
        now := all + set c | c in nodes;
        forall n | n in now ensures Linked(n, now, root) {
          if n in all {
            assert old(Linked(n, all, root));
          } else {
            assert exists i :: 0 <= i < 4 && nodes[i] == n;
          }
        }
      }
    }

    method AddQuarters()
      requires nodes == []
      modifies this
      ensures |nodes| == 4 && contents == old(contents)
      ensures forall i :: 0 <= i < 4 ==> Child(this, i, nodes[i]) && fresh(nodes[i])
      ensures forall i :: 0 <= i < 4 ==> nodes[i].nodes == [] && nodes[i].contents == map[]
    {
      var c0 := new Node(this, Quarter(bounds, 0), min_radius, 0);
      var c1 := new Node(this, Quarter(bounds, 1), min_radius, 1);
      var c2 := new Node(this, Quarter(bounds, 2), min_radius, 2);
      var c3 := new Node(this, Quarter(bounds, 3), min_radius, 3);
      nodes := [c0, c1, c2, c3];
    }

    /** Puts an object into the smallest node that first-match descent leads to; refuses a point out
        of bounds. Nothing but new children and that one entry changes. */
    method Insert(uid: Id, obj: Object, ghost all: set<Node>, ghost root: Node)
      returns (leaf: Node?, ghost now: set<Node>)
      requires WellFormed(all, root) && this in all
      modifies all
      ensures all <= now && fresh(now - all) && WellFormed(now, root)
      ensures forall n :: n in all && old(n.nodes) != [] ==> n.nodes == old(n.nodes)
      ensures forall n :: n in all && n != leaf ==> n.contents == old(n.contents)
      ensures forall n :: n in now - all && n != leaf ==> n.contents == map[]
      ensures leaf == null <==> !bounds.Holds(obj.x, obj.y)
      ensures leaf == null ==> now == all
      ensures leaf != null ==>
        && leaf in now && Under(this, leaf) && min_radius >= 1 && leaf.bounds == Home(bounds, min_radius, obj.x, obj.y)
        && leaf.contents == Emplace(if leaf in all then old(leaf.contents) else map[], uid, obj)
      decreases Measure(bounds)
    {
      hide Home, Quarter, Splits, Linked, WellFormed;
      now := all;
      if !bounds.Holds(obj.x, obj.y) { return null, now; }
      NodeFacts(all, root, this);
      if |nodes| == 0 {
        if Splits(bounds, min_radius) { SplitIsProper(bounds, min_radius, obj.x, obj.y); }
        now := CreateSubNodes(all, root);
      }
      NodeFacts(now, root, this);
      for i := 0 to |nodes|
        invariant forall k: nat :: k < i ==> !Quarter(bounds, k).Holds(obj.x, obj.y)
      {
        if nodes[i].bounds.Holds(obj.x, obj.y) {
          HomeOfChild(bounds, min_radius, i, obj.x, obj.y);
          leaf, now := nodes[i].Insert(uid, obj, now, root);
          assert Under(this, leaf) by { ChildUnder(this, nodes[i], leaf); }
          return;
        }
      }
      assert nodes == [] by {
        if nodes != [] { QuartersCover(bounds, obj.x, obj.y); }
      }
      AddContent(uid, obj, now, root);
      leaf := this;
    }

    method AddContent(uid: Id, obj: Object, ghost all: set<Node>, ghost root: Node)
      requires WellFormed(all, root) && this in all && min_radius >= 1 && bounds.Holds(obj.x, obj.y)
      requires !Splits(bounds, min_radius)
      modifies this
      ensures WellFormed(all, root) && nodes == old(nodes)
      ensures contents == Emplace(old(contents), uid, obj)
      ensures bounds == Home(bounds, min_radius, obj.x, obj.y)
    {
      contents := Emplace(contents, uid, obj);
      forall n | n in all ensures Linked(n, all, root) {
        assert old(Linked(n, all, root));
      }
    }

    method Erase(uid: Id, ghost all: set<Node>, ghost root: Node)
      requires WellFormed(all, root) && this in all
      modifies this`contents
      ensures WellFormed(all, root) && contents == old(contents) - {uid}
    {
      contents := contents - {uid};
      forall n | n in all ensures Linked(n, all, root) {
        assert old(Linked(n, all, root));
      }
    }

    /** How many objects the subtree holds. */
    method Count(ghost all: set<Node>, ghost root: Node, ghost items: map<Id, Object>) returns (n: nat)
      requires Indexed(all, root, items) && this in all
      ensures n == |SubtreeIds(items, this)|
      decreases Measure(bounds)
    {
      hide Measure, Quarter, Splits, Linked, Under, Indexed, InSubtree;
      IndexedNode(all, root, items, this);
      n := 0;
      assert BranchIds(items, this, 0) == {};
      for i := 0 to |nodes|
        invariant n == |BranchIds(items, this, i)|
      {
        SmallerChild(this, i);
        var more := nodes[i].Count(all, root, items);
        BranchAdds(all, root, items, this, i);
        n := n + more;
      }
      OwnAdds(all, root, items, this);
      n := n + |contents|;
    }

    /** Every object in the subtree, once. */
    method SubtreeContents(ghost all: set<Node>, ghost root: Node, ghost items: map<Id, Object>) returns (out: seq<Id>)
      requires Indexed(all, root, items) && this in all
      ensures NoDuplicates(out)
      ensures forall id :: id in out <==> InSubtree(items, this, id)
      decreases Measure(bounds)
    {
      hide Measure, Quarter, Splits, Linked, Under;
      IndexedNode(all, root, items, this);
      out := [];
      for i := 0 to |nodes|
        invariant NoDuplicates(out)
        invariant forall id :: id in out <==> InBranches(items, this, i, id)
      {
        SmallerChild(this, i);
        var more := nodes[i].SubtreeContents(all, root, items);
        BranchApart(all, root, items, this, i);
        Together(out, more);
        out := out + more;
      }
      var own := Keys(contents);
      OwnOrBranches(all, root, items, this);
      Together(out, own);
      out := out + own;
    }

    /** The objects of the subtree in a rectangle, up to what a nearer sibling that contains the
        whole rectangle hides. */
    method Query(q: Rect, ghost all: set<Node>, ghost root: Node, ghost items: map<Id, Object>) returns (out: seq<Id>)
      requires Indexed(all, root, items) && this in all
      ensures NoDuplicates(out)
      ensures forall id :: id in out <==> Found(all, items, this, q, id)
      decreases Measure(bounds), 0
    {
      hide *;
      IndexedNode(all, root, items, this);
      out := QueryContents(q, all, root, items);
      OwnFound(all, root, items, this, q);
      for i := 0 to |nodes|
        invariant NoDuplicates(out)
        invariant nodes != [] ==>
          forall id :: id in out <==> Found(all, items, this, q, id) && InBranches(items, this, i, id)
        invariant nodes == [] ==> forall id :: id in out <==> Found(all, items, this, q, id)
        invariant forall k :: 0 <= k < i ==> !TurnsTo(all, nodes[k], q)
      {
        SmallerChild(this, i);
        var more, stop := nodes[i].QueryAsChild(q, all, root, items);
        FoundInChild(all, root, items, this, i, q);
        BranchApart(all, root, items, this, i);
        Together(out, more);
        out := out + more;
        if stop {
          LaterHidden(all, root, items, this, i, q);
          return;
        }
      }
      AllBranches(all, root, items, this, q);
    }

    /** What a parent's query does with a child, and whether it skips the remaining ones. */
    method QueryAsChild(q: Rect, ghost all: set<Node>, ghost root: Node, ghost items: map<Id, Object>)
      returns (out: seq<Id>, stop: bool)
      requires Indexed(all, root, items) && this in all && !bounds.Empty()
      ensures NoDuplicates(out) && (stop <==> TurnsTo(all, this, q))
      ensures forall id :: id in out <==> Found(all, items, this, q, id)
      decreases Measure(bounds), 1
    {
      hide Indexed, Found, Measure;
      if Empty() {
        EmptySubtree(all, root, items, this);
        assert forall id :: !Found(all, items, this, q, id) by { FoundIsInside(all, items, this, q); }
        return [], false;
      }
      if bounds.Contains(q) {
        out := Query(q, all, root, items);
        return out, true;
      }
      if q.Contains(bounds) {
        out := SubtreeContents(all, root, items);
        AllFound(all, root, items, this, q);
        FoundIsInside(all, items, this, q);
        return out, false;
      }
      if bounds.Intersects(q) {
        out := Query(q, all, root, items);
        return out, false;
      }
      NoneFound(all, root, items, this, q);
      return [], false;
    }

    method QueryContents(q: Rect, ghost all: set<Node>, ghost root: Node, ghost items: map<Id, Object>)
      returns (out: seq<Id>)
      requires Indexed(all, root, items) && this in all
      ensures NoDuplicates(out)
      ensures forall id :: id in out <==> id in contents && q.Holds(contents[id].x, contents[id].y)
    {
      var hw, hh := q.width / 2.0, q.height / 2.0;
      var midx, midy := q.x + hw, q.y + hh;
      var ids := contents.Keys;
      out := [];
      while ids != {}
        invariant ids <= contents.Keys && NoDuplicates(out)
        invariant forall id :: id in out <==> id in contents && id !in ids && q.Holds(contents[id].x, contents[id].y)
        decreases ids
      {
        SomeKey(ids);
        var id :| id in ids;
        ids := ids - {id};
        var item := contents[id];
        if Abs(item.x - midx) <= hw && Abs(item.y - midy) <= hh {
          Together(out, [id]);
          out := out + [id];
        }
      }
    }
  }

  // ----- The shape of the tree -----

  /** The subtree of a node: ancestors never change. */
  ghost predicate Under(a: Node, n: Node)
    decreases n.depth
  {
    n == a || (n.parent != null && n.parent.depth < n.depth && Under(a, n.parent))
  }

  ghost predicate Child(n: Node, i: nat, c: Node) {
    && i < 4 && c.parent == n && c.slot == i && c.depth == n.depth + 1
    && c.bounds == Quarter(n.bounds, i) && c.min_radius == n.min_radius
  }

  /** A node has no children or all four; only nodes too small to be divided hold objects. */
  /** Left top, left bottom, right top, right bottom: each half as wide and half as high. */
  ghost predicate InQuarters(n: Node)
    reads n
  {
    var b := n.bounds;
    var w, h := b.width / 2.0, b.height / 2.0;
    && |n.nodes| == 4
    && n.nodes[0].bounds == Rect(b.x, b.y + h, w, h) && n.nodes[1].bounds == Rect(b.x, b.y, w, h)
    && n.nodes[2].bounds == Rect(b.x + w, b.y + h, w, h) && n.nodes[3].bounds == Rect(b.x + w, b.y, w, h)
  }

  ghost predicate Linked(n: Node, all: set<Node>, root: Node)
    reads n, all
  {
    && (n.parent == null <==> n == root)
    && (n.parent != null ==>
          (n.parent in all && n.slot < |n.parent.nodes| && n.parent.nodes[n.slot] == n))
    && (|n.nodes| == 0 || |n.nodes| == 4)
    && (n.nodes != [] ==> Splits(n.bounds, n.min_radius) && !n.bounds.Empty())
    && (n.contents != map[] ==> !Splits(n.bounds, n.min_radius))
    && forall i :: 0 <= i < |n.nodes| ==> n.nodes[i] in all && Child(n, i, n.nodes[i])
  }

  ghost predicate WellFormed(all: set<Node>, root: Node)
    reads all
  {
    root in all && root.min_radius >= 1 && forall n :: n in all ==> Linked(n, all, root)
  }

  lemma NodeFacts(all: set<Node>, root: Node, n: Node)
    requires WellFormed(all, root) && n in all
    ensures n.min_radius >= 1 && |n.nodes| == if n.nodes == [] then 0 else 4
    ensures n.nodes != [] ==> Splits(n.bounds, n.min_radius) && n.contents == map[]
    ensures forall i :: 0 <= i < |n.nodes| ==> n.nodes[i] in all && Child(n, i, n.nodes[i])
  {
    AllUnderRoot(all, root, n);
    UnderInside(all, root, root, n);
    assert Linked(n, all, root);
  }

  /** A node that is divided is larger than a square of the smallest radius, and its children are its
      quarters; a node with objects is not larger. */
  lemma NodeSizes(all: set<Node>, root: Node, n: Node)
    requires WellFormed(all, root) && n in all
    ensures n.nodes != [] ==> n.bounds.width * n.bounds.height > (root.min_radius * root.min_radius) as real
    ensures n.nodes != [] ==> InQuarters(n)
    ensures n.contents != map[] ==> n.bounds.width * n.bounds.height <= (root.min_radius * root.min_radius) as real
  {
    SplitsIs(n.bounds, root.min_radius);
    hide Splits;
    NodeSplits(all, root, n);
    hide WellFormed;
  }

  lemma NodeSplits(all: set<Node>, root: Node, n: Node)
    requires WellFormed(all, root) && n in all
    ensures n.nodes != [] ==> Splits(n.bounds, root.min_radius) && InQuarters(n)
    ensures n.contents != map[] ==> !Splits(n.bounds, root.min_radius)
  {
    hide Splits;
    AllUnderRoot(all, root, n);
    UnderInside(all, root, root, n);
    assert Linked(n, all, root);
    if n.nodes != [] {
      assert forall i :: 0 <= i < 4 ==> Child(n, i, n.nodes[i]);
      QuartersIn(n);
    }
  }

  lemma QuartersIn(n: Node)
    requires |n.nodes| == 4 && forall i :: 0 <= i < 4 ==> Child(n, i, n.nodes[i])
    ensures InQuarters(n)
  {
    assert Child(n, 0, n.nodes[0]) && Child(n, 1, n.nodes[1]) && Child(n, 2, n.nodes[2]) && Child(n, 3, n.nodes[3]);
  }

  lemma ChildUnder(n: Node, c: Node, leaf: Node)
    requires c.parent == n && c.depth == n.depth + 1 && Under(c, leaf)
    ensures Under(n, leaf)
  {
    UnderTransitive(n, c, leaf);
  }

  /** The nodes of a subtree stay inside its bounds. */
  lemma {:induction false} UnderInside(all: set<Node>, root: Node, a: Node, n: Node)
    requires WellFormed(all, root) && a in all && n in all && Under(a, n)
    ensures a.bounds.Contains(n.bounds) || n == a
    ensures n.min_radius == a.min_radius
    decreases n.depth
  {
    if n != a {
      var p := n.parent;
      UnderInside(all, root, a, p);
      assert Child(p, n.slot, n);
    }
  }

  lemma {:induction false} AllUnderRoot(all: set<Node>, root: Node, n: Node)
    requires WellFormed(all, root) && n in all
    ensures Under(root, n)
    decreases n.depth
  {
    if n != root {
      assert Child(n.parent, n.slot, n);
      AllUnderRoot(all, root, n.parent);
    }
  }

  /** Below a node means below one of its children. */
  lemma {:induction false} UnderChild(all: set<Node>, root: Node, a: Node, n: Node) returns (j: nat)
    requires WellFormed(all, root) && a in all && n in all && Under(a, n) && n != a
    ensures j < |a.nodes| && Under(a.nodes[j], n)
    decreases n.depth
  {
    var p := n.parent;
    assert Child(p, n.slot, n);
    if p == a {
      j := n.slot;
    } else {
      j := UnderChild(all, root, a, p);
    }
  }

  /** A subtree of a subtree. */
  lemma {:induction false} UnderTransitive(a: Node, b: Node, n: Node)
    requires Under(a, b) && Under(b, n)
    ensures Under(a, n)
    decreases n.depth
  {
    if n != b {
      UnderTransitive(a, b, n.parent);
    }
  }

  lemma {:induction false} UnderDeeper(a: Node, n: Node)
    requires Under(a, n)
    ensures a.depth <= n.depth
    decreases n.depth
  {
    if n != a {
      UnderDeeper(a, n.parent);
    }
  }

  lemma {:induction false} UnderSameDepth(a: Node, b: Node, n: Node)
    requires Under(a, n) && Under(b, n) && a.depth == b.depth
    ensures a == b
    decreases n.depth
  {
    UnderDeeper(a, n);
    UnderDeeper(b, n);
    if n != a {
      UnderDeeper(a, n.parent);
      UnderSameDepth(a, b, n.parent);
    } else if n != b {
      UnderDeeper(b, n.parent);
    }
  }

  /** The children's subtrees share nothing. */
  lemma UnderOneChild(all: set<Node>, root: Node, a: Node, i: nat, j: nat, n: Node)
    requires WellFormed(all, root) && a in all && i < |a.nodes| && j < |a.nodes|
    requires Under(a.nodes[i], n) && Under(a.nodes[j], n)
    ensures i == j
  {
    assert Linked(a, all, root) && Child(a, i, a.nodes[i]) && Child(a, j, a.nodes[j]);
    UnderSameDepth(a.nodes[i], a.nodes[j], n);
  }

  // ----- What the tree holds -----

  function Abs(r: real): real { if r < 0.0 then -r else r }

  ghost predicate NoDuplicates(s: seq<Id>) { forall i, j :: 0 <= i < j < |s| ==> s[i] != s[j] }

  lemma Together(a: seq<Id>, b: seq<Id>)
    requires NoDuplicates(a) && NoDuplicates(b) && forall id :: id in a ==> id !in b
    ensures NoDuplicates(a + b)
  {
    forall i, j | 0 <= i < j < |a + b| ensures (a + b)[i] != (a + b)[j] {
      assert i < |a| ==> (a + b)[i] in a;
      assert j >= |a| ==> (a + b)[j] in b;
    }
  }

  lemma SomeKey(ids: set<Id>)
    ensures ids == {} || exists id :: id in ids
  {
    if forall id :: id !in ids {
      assert ids == {};
    }
  }

  method Keys(m: map<Id, Object>) returns (out: seq<Id>)
    ensures NoDuplicates(out) && forall id :: id in out <==> id in m
  {
    var ids := m.Keys;
    out := [];
    while ids != {}
      invariant ids <= m.Keys && NoDuplicates(out)
      invariant forall id :: id in out <==> id in m && id !in ids
      decreases ids
    {
      SomeKey(ids);
      var id :| id in ids;
      ids := ids - {id};
      Together(out, [id]);
      out := out + [id];
    }
  }

  /** Where an object's record says it is, it is, and inside the bounds. */
  ghost predicate Placed(all: set<Node>, id: Id, o: Object)
    reads o, all
  {
    && o.p != null && o.p in all && o.p.bounds.Holds(o.x, o.y)
    && id in o.p.contents && o.p.contents[id] == o
  }

  /** The nodes' contents and the index agree entry by entry. */
  ghost predicate Indexed(all: set<Node>, root: Node, items: map<Id, Object>)
    reads all, items.Values
  {
    && WellFormed(all, root)
    && (forall id :: id in items ==> Placed(all, id, items[id]))
    && (forall a, b :: a in items && b in items && items[a] == items[b] ==> a == b)
    && forall n, id :: n in all && id in n.contents ==> id in items && items[id] == n.contents[id] && items[id].p == n
  }

  ghost predicate InSubtree(items: map<Id, Object>, a: Node, id: Id)
    reads items.Values
  {
    id in items && items[id].p != null && Under(a, items[id].p)
  }

  ghost function SubtreeIds(items: map<Id, Object>, a: Node): set<Id>
    reads items.Values
  {
    set id | id in items && InSubtree(items, a, id)
  }

  ghost predicate InBranches(items: map<Id, Object>, a: Node, n: nat, id: Id)
    reads a, items.Values
  {
    exists k :: 0 <= k < n && k < |a.nodes| && InSubtree(items, a.nodes[k], id)
  }

  /** An earlier sibling that is not empty contains the whole rectangle. */
  ghost predicate Blocked(all: set<Node>, m: Node, q: Rect)
    reads all
  {
    m.parent != null && m.parent in all
    && exists i :: 0 <= i < m.slot && i < |m.parent.nodes| && TurnsTo(all, m.parent.nodes[i], q)
  }

  /** A query that meets this node looks no further. */
  ghost predicate TurnsTo(all: set<Node>, n: Node, q: Rect)
    reads all
  {
    n in all && !n.Empty() && n.bounds.Contains(q)
  }

  /** Somewhere on the way down from a to n the query turns off. */
  ghost predicate Hidden(all: set<Node>, a: Node, n: Node, q: Rect)
    reads all
    decreases n.depth
  {
    n != a && (Blocked(all, n, q) || (n.parent != null && n.parent.depth < n.depth && Hidden(all, a, n.parent, q)))
  }

  ghost predicate Found(all: set<Node>, items: map<Id, Object>, a: Node, q: Rect, id: Id)
    reads all, items.Values
  {
    InSubtree(items, a, id) && q.Holds(items[id].x, items[id].y) && !Hidden(all, a, items[id].p, q)
  }

  lemma IndexedNode(all: set<Node>, root: Node, items: map<Id, Object>, n: Node)
    requires Indexed(all, root, items) && n in all
    ensures n.min_radius >= 1 && |n.nodes| == if n.nodes == [] then 0 else 4
    ensures n.nodes != [] ==> Splits(n.bounds, n.min_radius) && n.contents == map[] && !n.bounds.Empty()
    ensures forall i :: 0 <= i < |n.nodes| ==> n.nodes[i] in all && Child(n, i, n.nodes[i])
  {
    NodeFacts(all, root, n);
    assert Linked(n, all, root);
  }

  lemma SmallerChild(n: Node, i: nat)
    requires n.min_radius >= 1 && Splits(n.bounds, n.min_radius) && i < |n.nodes| && Child(n, i, n.nodes[i])
    ensures Measure(n.nodes[i].bounds) < Measure(n.bounds)
    ensures !n.bounds.Empty() ==> !n.nodes[i].bounds.Empty()
  {
    QuarterSmaller(n.bounds, i, n.min_radius);
  }

  /** A branch shares no object with the ones before it. */
  lemma IndexedShape(all: set<Node>, root: Node, items: map<Id, Object>)
    requires Indexed(all, root, items)
    ensures WellFormed(all, root)
  {}

  lemma BranchApart(all: set<Node>, root: Node, items: map<Id, Object>, n: Node, i: nat)
    requires Indexed(all, root, items) && n in all && i < |n.nodes|
    ensures forall id :: InBranches(items, n, i, id) ==> !InSubtree(items, n.nodes[i], id)
    ensures forall id ::
      InBranches(items, n, i + 1, id) <==> InBranches(items, n, i, id) || InSubtree(items, n.nodes[i], id)
  {
    hide Indexed, Under, Linked;
    assert WellFormed(all, root) by { IndexedShape(all, root, items); }
    forall id | InBranches(items, n, i, id) ensures !InSubtree(items, n.nodes[i], id) {
      var k :| 0 <= k < i && InSubtree(items, n.nodes[k], id);
      if InSubtree(items, n.nodes[i], id) {
        UnderOneChild(all, root, n, k, i, items[id].p);
      }
    }
  }

  /** The objects of a subtree are the node's own or in some branch. */
  lemma OwnOrBranches(all: set<Node>, root: Node, items: map<Id, Object>, n: Node)
    requires Indexed(all, root, items) && n in all
    ensures forall id :: InSubtree(items, n, id) <==> id in n.contents || InBranches(items, n, |n.nodes|, id)
    ensures forall id :: id in n.contents ==> !InBranches(items, n, |n.nodes|, id)
  {
    hide Linked, Splits, Quarter;
    IndexedNode(all, root, items, n);
    forall id | InSubtree(items, n, id) ensures id in n.contents || InBranches(items, n, |n.nodes|, id) {
      SubtreeSplits(all, root, items, n, id);
    }
    forall id | InBranches(items, n, |n.nodes|, id) ensures InSubtree(items, n, id) {
      var k :| 0 <= k < |n.nodes| && InSubtree(items, n.nodes[k], id);
      ChildUnder(n, n.nodes[k], items[id].p);
    }
  }

  lemma SubtreeSplits(all: set<Node>, root: Node, items: map<Id, Object>, n: Node, id: Id)
    requires Indexed(all, root, items) && n in all && InSubtree(items, n, id)
    ensures id in n.contents || InBranches(items, n, |n.nodes|, id)
  {
    hide Linked;
    assert Placed(all, id, items[id]);
    var leaf := items[id].p;
    if leaf != n {
      var j := UnderChild(all, root, n, leaf);
      assert InSubtree(items, n.nodes[j], id);
    }
  }

  ghost function BranchIds(items: map<Id, Object>, a: Node, n: nat): set<Id>
    reads a, items.Values
  {
    set id | id in items && InBranches(items, a, n, id)
  }

  lemma BranchAdds(all: set<Node>, root: Node, items: map<Id, Object>, n: Node, i: nat)
    requires Indexed(all, root, items) && n in all && i < |n.nodes|
    ensures |BranchIds(items, n, i + 1)| == |BranchIds(items, n, i)| + |SubtreeIds(items, n.nodes[i])|
  {
    hide Indexed, Under;
    BranchApart(all, root, items, n, i);
    assert BranchIds(items, n, i + 1) == BranchIds(items, n, i) + SubtreeIds(items, n.nodes[i]);
    assert BranchIds(items, n, i) !! SubtreeIds(items, n.nodes[i]);
  }

  lemma OwnAdds(all: set<Node>, root: Node, items: map<Id, Object>, n: Node)
    requires Indexed(all, root, items) && n in all
    ensures |SubtreeIds(items, n)| == |BranchIds(items, n, |n.nodes|)| + |n.contents|
  {
    hide Indexed, Under;
    OwnOrBranches(all, root, items, n);
    var own, below := n.contents.Keys, BranchIds(items, n, |n.nodes|);
    assert forall id :: id in own ==> InSubtree(items, n, id);
    assert forall id :: id in own ==> id in SubtreeIds(items, n);
    assert SubtreeIds(items, n) == below + own;
    assert BranchIds(items, n, |n.nodes|) !! n.contents.Keys;
    assert |n.contents.Keys| == |n.contents|;
  }

  /** What a child's query finds is what this node's query finds in that branch. */
  lemma FoundInChild(all: set<Node>, root: Node, items: map<Id, Object>, n: Node, i: nat, q: Rect)
    requires Indexed(all, root, items) && n in all && i < |n.nodes|
    requires forall k :: 0 <= k < i ==> !TurnsTo(all, n.nodes[k], q)
    ensures forall id :: Found(all, items, n.nodes[i], q, id) <==>
      Found(all, items, n, q, id) && InSubtree(items, n.nodes[i], id)
  {
    IndexedNode(all, root, items, n);
    var c := n.nodes[i];
    assert Child(n, i, c);
    assert !Blocked(all, c, q);
    forall id | InSubtree(items, c, id)
      ensures Found(all, items, n, q, id) <==> Found(all, items, c, q, id)
    {
      assert Placed(all, id, items[id]);
      HiddenInChild(all, root, n, c, items[id].p, q);
      UnderTransitive(n, c, items[id].p);
    }
  }

  lemma {:induction false} HiddenInChild(all: set<Node>, root: Node, n: Node, c: Node, leaf: Node, q: Rect)
    requires WellFormed(all, root) && leaf in all && c.parent == n && c.depth == n.depth + 1 && Under(c, leaf)
    ensures Hidden(all, n, leaf, q) <==> Hidden(all, c, leaf, q) || Blocked(all, c, q)
    decreases leaf.depth
  {
    UnderDeeper(c, leaf);
    if leaf != c {
      assert Linked(leaf, all, root);
      HiddenInChild(all, root, n, c, leaf.parent, q);
    }
  }

  lemma FoundIsInside(all: set<Node>, items: map<Id, Object>, n: Node, q: Rect)
    ensures forall id :: Found(all, items, n, q, id) ==> InSubtree(items, n, id)
  {}

  /** A node without children finds what is in its contents. */
  lemma OwnFound(all: set<Node>, root: Node, items: map<Id, Object>, n: Node, q: Rect)
    requires Indexed(all, root, items) && n in all
    ensures n.nodes == [] ==> forall id :: Found(all, items, n, q, id) <==>
      id in n.contents && q.Holds(n.contents[id].x, n.contents[id].y)
    ensures forall id :: !InBranches(items, n, 0, id)
  {
    OwnOrBranches(all, root, items, n);
  }

  lemma AllBranches(all: set<Node>, root: Node, items: map<Id, Object>, n: Node, q: Rect)
    requires Indexed(all, root, items) && n in all
    ensures n.nodes != [] ==> forall id :: Found(all, items, n, q, id) ==> InBranches(items, n, |n.nodes|, id)
  {
    IndexedNode(all, root, items, n);
    OwnOrBranches(all, root, items, n);
  }

  lemma EmptySubtree(all: set<Node>, root: Node, items: map<Id, Object>, n: Node)
    requires Indexed(all, root, items) && n in all && n.Empty() && !n.bounds.Empty()
    ensures forall id :: !InSubtree(items, n, id)
  {
    OwnOrBranches(all, root, items, n);
  }

  /** After a sibling that contains the rectangle nothing more is found. */
  lemma LaterHidden(all: set<Node>, root: Node, items: map<Id, Object>, n: Node, i: nat, q: Rect)
    requires Indexed(all, root, items) && n in all && i < |n.nodes|
    requires TurnsTo(all, n.nodes[i], q)
    ensures forall id :: Found(all, items, n, q, id) ==> InBranches(items, n, i + 1, id)
  {
    IndexedNode(all, root, items, n);
    OwnOrBranches(all, root, items, n);
    forall id | Found(all, items, n, q, id) ensures InBranches(items, n, i + 1, id) {
      var k :| 0 <= k < |n.nodes| && InSubtree(items, n.nodes[k], id);
      assert Child(n, k, n.nodes[k]) && Placed(all, id, items[id]);
      assert k > i ==> Blocked(all, n.nodes[k], q);
      HiddenInChild(all, root, n, n.nodes[k], items[id].p, q);
    }
  }

  /** When the rectangle contains a node, it contains what is in it, and nothing in it is hidden. */
  lemma AllFound(all: set<Node>, root: Node, items: map<Id, Object>, n: Node, q: Rect)
    requires Indexed(all, root, items) && n in all && q.Contains(n.bounds)
    ensures forall id :: InSubtree(items, n, id) ==> Found(all, items, n, q, id)
  {
    forall id | InSubtree(items, n, id) ensures Found(all, items, n, q, id) {
      assert Placed(all, id, items[id]);
      var leaf := items[id].p;
      UnderInside(all, root, n, leaf);
      NothingHidden(all, root, n, leaf, q);
    }
  }

  lemma {:induction false} NothingHidden(all: set<Node>, root: Node, n: Node, leaf: Node, q: Rect)
    requires WellFormed(all, root) && n in all && leaf in all && Under(n, leaf) && q.Contains(n.bounds)
    ensures !Hidden(all, n, leaf, q)
    decreases leaf.depth
  {
    if leaf != n {
      var p := leaf.parent;
      assert Linked(leaf, all, root) && Linked(p, all, root);
      NothingHidden(all, root, n, p, q);
      UnderInside(all, root, n, p);
      forall i | 0 <= i < leaf.slot ensures !p.nodes[i].bounds.Contains(q) {
        assert Child(p, i, p.nodes[i]);
      }
    }
  }

  /** Nothing in a node that does not meet the rectangle is in the rectangle. */
  lemma NoneFound(all: set<Node>, root: Node, items: map<Id, Object>, n: Node, q: Rect)
    requires Indexed(all, root, items) && n in all && !n.bounds.Intersects(q)
    ensures forall id :: !Found(all, items, n, q, id)
  {
    forall id | InSubtree(items, n, id) ensures !Found(all, items, n, q, id) {
      assert Placed(all, id, items[id]);
      UnderInside(all, root, n, items[id].p);
    }
  }
}
