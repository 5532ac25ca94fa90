/** The trie of forbidden words and the two ways of using it (lua-wordfilter.c). */
module WordFilter {
  type Byte = b: int | 0 <= b < 256

  type Word = seq<Byte>

  /** A node of the trie; a byte without an entry has no child. */
  class Node {
    var node: map<Byte, Node>
    var exist: bool
    /** The bytes that lead here from the root, and the node before. */
    ghost const path: Word
    ghost const parent: Node?

    constructor (ghost path: Word, ghost parent: Node?)
      ensures node == map[] && !exist && this.path == path && this.parent == parent
    {
      node := map[];
      exist := false;
      this.path := path;
      this.parent := parent;
    }
  }

  // ----- The shape of a trie -----

  /** Every node's children. */
  ghost function Children(all: set<Node>): map<Node, map<Byte, Node>>
    reads all
  {
    map n | n in all :: n.node
  }

  ghost predicate Linked(kids: map<Node, map<Byte, Node>>, n: Node, root: Node)
    requires n in kids
  {
    && (forall c :: c in kids[n] ==> kids[n][c] in kids && kids[n][c].path == n.path + [c] && kids[n][c].parent == n)
    && (n != root ==>
          n.path != [] && n.parent != null && n.parent in kids && n.parent.path == n.path[..|n.path| - 1]
          && n.path[|n.path| - 1] in kids[n.parent] && kids[n.parent][n.path[|n.path| - 1]] == n)
  }

  ghost predicate AllLinked(kids: map<Node, map<Byte, Node>>, root: Node) {
    forall n {:trigger Linked(kids, n, root)} :: n in kids ==> Linked(kids, n, root)
  }

  ghost predicate IsTrie(all: set<Node>, root: Node)
    reads all
  {
    root in all && root.path == [] && AllLinked(Children(all), root) && OneNodeEach(all)
  }

  /** No two nodes stand for the same bytes. */
  ghost predicate OneNodeEach(all: set<Node>) {
    forall m, n :: m in all && n in all && m.path == n.path ==> m == n
  }

  ghost function WithChild(kids: map<Node, map<Byte, Node>>, n: Node, c: Byte, m: Node): map<Node, map<Byte, Node>>
    requires n in kids
  {
    var longer: map<Byte, Node> := kids[n][c := m];
    kids[n := longer][m := map[]]
  }

  /** A new child keeps everything linked. */
  lemma ChildLinked(kids: map<Node, map<Byte, Node>>, root: Node, n: Node, c: Byte, m: Node)
    requires AllLinked(kids, root) && n in kids && m !in kids && root in kids
    requires c !in kids[n] && m.path == n.path + [c] && m.parent == n
    ensures AllLinked(WithChild(kids, n, c, m), root)
  {
    var after := WithChild(kids, n, c, m);
    forall x | x in after ensures Linked(after, x, root) {
      if x != m {
        assert Linked(kids, x, root);
      } else {
        assert m.path[..|m.path| - 1] == n.path;
      }
    }
  }

  /** Some node stands for these bytes. */
  ghost predicate HasPath(all: set<Node>, s: Word) { exists n :: n in all && n.path == s }

  ghost predicate IsWord(all: set<Node>, s: Word)
    reads all
  {
    exists n :: n in all && n.path == s && n.exist
  }

  /** What stands for a row of bytes, has nodes for all its beginnings. */
  lemma {:induction false} PathsClosed(all: set<Node>, root: Node, s: Word, k: nat)
    requires IsTrie(all, root) && HasPath(all, s) && k <= |s|
    ensures HasPath(all, s[..k])
    decreases |s|
  {
    var n :| n in all && n.path == s;
    if k < |s| {
      assert Linked(Children(all), n, root);
      PathsClosed(all, root, s[..|s| - 1], k);
      assert s[..|s| - 1][..k] == s[..k];
    } else {
      assert s[..k] == s;
    }
  }

  /** A step down the trie goes to the node of one more byte, if there is one. */
  lemma StepDown(all: set<Node>, root: Node, n: Node, c: Byte)
    requires IsTrie(all, root) && n in all
    ensures c in n.node <==> HasPath(all, n.path + [c])
    ensures c in n.node ==> n.node[c] in all && n.node[c].path == n.path + [c]
  {
    assert Linked(Children(all), n, root);
    if HasPath(all, n.path + [c]) {
      var m :| m in all && m.path == n.path + [c];
      assert Linked(Children(all), m, root);
      assert m.path[..|m.path| - 1] == n.path;
    }
  }

  lemma RootOf(all: set<Node>, root: Node)
    requires IsTrie(all, root)
    ensures root in all && root.path == []
  {}

  lemma StillOneEach(all: set<Node>, m: Node)
    requires OneNodeEach(all) && !HasPath(all, m.path)
    ensures OneNodeEach(all + {m})
  {}

  class Trie {
    const root: Node
    /** Every node of the trie. */
    ghost var all: set<Node>

    ghost predicate Valid()
      reads this, all
    {
      IsTrie(all, root)
    }

    /** The words that were added. */
    ghost predicate Contains(s: Word)
      reads this, all
    {
      IsWord(all, s)
    }

    constructor ()
      ensures Valid() && fresh(all) && forall s :: !Contains(s)
    {
      root := new Node([], null);
      new;
      all := {root};
    }

    /** Adds a word; what else is a word stays as it was. */
    method AddWord(word: Word)
      requires Valid()
      modifies this`all, all
      ensures Valid() && all >= old(all) && fresh(all - old(all))
      ensures forall s :: Contains(s) <==> old(Contains(s)) || s == word
    {
      hide IsTrie, IsWord, Linked, HasPath;
      var n := root;
      RootOf(all, root);
      assert word[..0] == [];
      for i := 0 to |word|
        invariant Valid() && n in all && n.path == word[..i]
        invariant all >= old(all) && fresh(all - old(all))
        invariant forall s :: Contains(s) <==> old(Contains(s))
      {
        assert word[..i] + [word[i]] == word[..i + 1];
        if word[i] !in n.node {
          Extend(n, word[i]);
        }
        StepDown(all, root, n, word[i]);
        n := n.node[word[i]];
      }
      assert word[..|word|] == word;
      Mark(n);
    }

    method Extend(n: Node, c: Byte)
      requires Valid() && n in all && c !in n.node
      modifies this`all, n
      ensures Valid() && all >= old(all) && fresh(all - old(all)) && c in n.node
      ensures forall s :: Contains(s) <==> old(Contains(s))
    {
      hide IsTrie;
      ghost var m := Attach(n, c);
      forall s ensures Contains(s) <==> old(Contains(s)) {
        if Contains(s) {
          var x :| x in all && x.path == s && x.exist;
          assert x in old(all);
        }
        if old(Contains(s)) {
          var x :| x in old(all) && x.path == s && old(x.exist);
          assert x in all;
        }
      }
    }

    method Attach(n: Node, c: Byte) returns (ghost m: Node)
      requires Valid() && n in all && c !in n.node
      modifies this`all, n`node
      ensures Valid() && fresh(m) && all == old(all) + {m} && !m.exist && c in n.node
    {
      hide HasPath, OneNodeEach, AllLinked;
      StepDown(all, root, n, c);
      var child := new Node(n.path + [c], n);
      n.node := n.node[c := child];
      StillOneEach(all, child);
      ChildLinked(old(Children(all)), root, n, c, child);
      m := child;
      all := all + {m};
      assert Children(all) == WithChild(old(Children(all)), n, c, m);
    }

    method Mark(n: Node)
      requires Valid() && n in all
      modifies n
      ensures Valid() && n.node == old(n.node)
      ensures forall s :: Contains(s) <==> old(Contains(s)) || s == n.path
    {
      n.exist := true;
      assert Children(all) == old(Children(all));
      forall s ensures Contains(s) <==> old(Contains(s)) || s == n.path {
        if Contains(s) {
          var x :| x in all && x.path == s && x.exist;
          assert x != n ==> old(x.exist);
        }
        if old(Contains(s)) {
          var x :| x in all && x.path == s && old(x.exist);
          assert x.exist;
        }
      }
    }

    /** Follows the text from one point down the trie: to the end of the first word met, to a byte
        that leads nowhere, or to the end of the text. */
    method Walk(t: Word, i: nat) returns (r: Outcome)
      requires Valid() && i < |t|
      ensures match r
        case Hit(j) => j == FirstEnd(all, t, i, i + 1) <= |t|
        case DeadEnd => FirstEnd(all, t, i, i + 1) > |t| && !HasPath(all, t[i..])
        case RanOut => FirstEnd(all, t, i, i + 1) > |t| && HasPath(all, t[i..])
    {
      hide IsTrie, HasPath, Linked, IsWord;
      var n := root;
      RootOf(all, root);
      for p := i to |t|
        invariant n in all && n.path == t[i..p]
        invariant FirstEnd(all, t, i, i + 1) == FirstEnd(all, t, i, p + 1)
      {
        assert t[i..p] + [t[p]] == t[i..p + 1];
        StepDown(all, root, n, t[p]);
        if t[p] !in n.node {
          NoPathNoWord(all, root, t, i, p + 1);
          return DeadEnd;
        }
        n := n.node[t[p]];
        WordAt(all, root, n);
        if n.exist { return Hit(p + 1); }
      }
      assert t[i..|t|] == t[i..];
      assert HasPath(all, t[i..]) by { PathOf(all, n); }
      return RanOut;
    }

    /** Whether some word is part of the text. */
    method HasMatch(text: Word) returns (found: bool)
      requires Valid()
      ensures found <==> Matches(all, BeforeNul(text))
    {
      hide IsTrie, HasPath, Linked, IsWord;
      var t := BeforeNul(text);
      for i := 0 to |t|
        invariant forall k, j :: 0 <= k < i && k < j <= |t| ==> !IsWord(all, t[k..j])
      {
        var r := Walk(t, i);
        FirstEndIs(all, t, i, i + 1);
        if r.Hit? {
          assert IsWord(all, t[i..r.j]);
          return true;
        }
      }
      return false;
    }

    /** Replaces every word that is met by one star. The text ends where a zero byte does; a zero is
        added at the end. */
    method DoFiltering(text: Word) returns (str: Word)
      requires Valid()
      ensures str == Filtered(all, BeforeNul(text), 0) + [0] && |str| <= |text| + 1
    {
      hide IsTrie, HasPath, Linked, IsWord, FirstEnd, Filtered;
      var t := BeforeNul(text);
      var i := 0;
      str := [];
      while i < |t|
        invariant i <= |t| && |str| <= i && Filtered(all, t, 0) == str + Filtered(all, t, i)
        decreases |t| - i
      {
        FirstEndIs(all, t, i, i + 1);
        FilteredStep(all, t, i, str);
        var r := Walk(t, i);
        match r {
          case Hit(j) => str := str + [42]; i := j;
          case DeadEnd => str := str + [t[i]]; i := i + 1;
          case RanOut => i := i + 1;
        }
      }
      FilteredEnd(all, t);
      str := str + [0];
    }
  }

  datatype Outcome = Hit(j: nat) | DeadEnd | RanOut

  /** A C string: what stands before the first zero byte. */
  function BeforeNul(text: Word): (t: Word)
    ensures |t| <= |text| && t == text[..|t|] && 0 !in t && (|t| < |text| ==> text[|t|] == 0)
  {
    if text == [] || text[0] == 0 then [] else [text[0]] + BeforeNul(text[1..])
  }

  /** Some word is part of a text. */
  ghost predicate Matches(all: set<Node>, t: Word)
    reads all
  {
    exists i, j :: 0 <= i < j <= |t| && IsWord(all, t[i..j])
  }

  lemma PathOf(all: set<Node>, n: Node)
    requires n in all
    ensures HasPath(all, n.path)
  {}

  lemma WordAt(all: set<Node>, root: Node, n: Node)
    requires IsTrie(all, root) && n in all
    ensures IsWord(all, n.path) <==> n.exist
  {}

  /** The end of the shortest word at i that ends at j or later; past the text if there is none. */
  ghost function FirstEnd(all: set<Node>, t: Word, i: nat, j: nat): (k: nat)
    requires i < j
    reads all
    decreases |t| + 1 - j
  {
    if j > |t| then |t| + 1 else if IsWord(all, t[i..j]) then j else FirstEnd(all, t, i, j + 1)
  }

  lemma {:induction false} FirstEndIs(all: set<Node>, t: Word, i: nat, j: nat)
    requires i < j <= |t| + 1
    ensures var k := FirstEnd(all, t, i, j);
      && j <= k <= |t| + 1 && (k <= |t| ==> IsWord(all, t[i..k]))
      && forall m :: j <= m < k && m <= |t| ==> !IsWord(all, t[i..m])
    decreases |t| + 1 - j
  {
    hide IsWord;
    if j <= |t| && !IsWord(all, t[i..j]) {
      FirstEndIs(all, t, i, j + 1);
    }
  }

  /** Where the trie has no node, no longer text is a word, and none has a node. */
  lemma {:induction false} NoPathNoWord(all: set<Node>, root: Node, t: Word, i: nat, j: nat)
    requires IsTrie(all, root) && i < j <= |t| && !HasPath(all, t[i..j])
    ensures FirstEnd(all, t, i, j) > |t| && !HasPath(all, t[i..])
    decreases |t| - j
  {
    hide IsTrie, Linked;
    assert !IsWord(all, t[i..j]);
    if j < |t| {
      assert t[i..j + 1][..j - i] == t[i..j];
      if HasPath(all, t[i..j + 1]) {
        PathsClosed(all, root, t[i..j + 1], j - i);
      }
      NoPathNoWord(all, root, t, i, j + 1);
    } else {
      assert t[i..j] == t[i..];
    }
  }

  // ----- Filtering and masking -----

  /** What filtering makes of the text from i on: a star for a word, nothing for a point from which
      the trie can be followed to the end of the text, the byte itself otherwise. */
  ghost function Filtered(all: set<Node>, t: Word, i: nat): (s: Word)
    reads all
    decreases |t| - i
  {
    if i >= |t| then []
    else
      FirstEndIs(all, t, i, i + 1);
      var j := FirstEnd(all, t, i, i + 1);
      if j <= |t| then [42] + Filtered(all, t, j)
      else if HasPath(all, t[i..]) then Filtered(all, t, i + 1)
      else [t[i]] + Filtered(all, t, i + 1)
  }

  lemma FilteredStep(all: set<Node>, t: Word, i: nat, str: Word)
    requires i < |t|
    ensures var j := FirstEnd(all, t, i, i + 1);
      i < j && str + Filtered(all, t, i) ==
        if j <= |t| then (str + [42]) + Filtered(all, t, j)
        else if HasPath(all, t[i..]) then str + Filtered(all, t, i + 1)
        else (str + [t[i]]) + Filtered(all, t, i + 1)
  {
    hide HasPath, FirstEnd;
    FirstEndIs(all, t, i, i + 1);
  }

  lemma FilteredEnd(all: set<Node>, t: Word)
    ensures Filtered(all, t, |t|) == []
  {}

  /** The text with the leftmost shortest words replaced by stars. */
  ghost function Masked(all: set<Node>, t: Word, i: nat): (s: Word)
    reads all
    decreases |t| - i
  {
    if i >= |t| then []
    else
      FirstEndIs(all, t, i, i + 1);
      var j := FirstEnd(all, t, i, i + 1);
      if j <= |t| then [42] + Masked(all, t, j) else [t[i]] + Masked(all, t, i + 1)
  }

  /** Somewhere the trie is followed to the end of the text without a word. */
  ghost predicate Drops(all: set<Node>, t: Word, i: nat)
    reads all
    decreases |t| - i
  {
    i < |t| &&
    (FirstEndIs(all, t, i, i + 1);
     var j := FirstEnd(all, t, i, i + 1);
     if j <= |t| then Drops(all, t, j) else HasPath(all, t[i..]) || Drops(all, t, i + 1))
  }

  lemma {:induction false} FilteredLength(all: set<Node>, t: Word, i: nat)
    ensures |Filtered(all, t, i)| <= |Masked(all, t, i)|
    ensures Drops(all, t, i) ==> |Filtered(all, t, i)| < |Masked(all, t, i)|
    ensures !Drops(all, t, i) ==> Filtered(all, t, i) == Masked(all, t, i)
    decreases |t| - i
  {
    hide HasPath, FirstEnd;
    if i < |t| {
      FirstEndIs(all, t, i, i + 1);
      var j := FirstEnd(all, t, i, i + 1);
      FilteredLength(all, t, if j <= |t| then j else i + 1);
    }
  }

  /** Filtering masks the leftmost shortest words exactly when no walk it makes ends at the end of
      the text. */
  lemma FilteredIsMasked(all: set<Node>, t: Word)
    ensures Filtered(all, t, 0) == Masked(all, t, 0) <==> !Drops(all, t, 0)
  {
    FilteredLength(all, t, 0);
  }

  /** No walk does when no end of the text begins a word. */
  lemma {:induction false} NothingDropped(all: set<Node>, t: Word, i: nat)
    requires forall k :: 0 <= k < |t| ==> !HasPath(all, t[k..])
    ensures !Drops(all, t, i)
    decreases |t| - i
  {
    hide HasPath, FirstEnd;
    if i < |t| {
      FirstEndIs(all, t, i, i + 1);
      var j := FirstEnd(all, t, i, i + 1);
      NothingDropped(all, t, if j <= |t| then j else i + 1);
    }
  }

  /** A text without a word in it is masked to itself. */
  lemma {:induction false} CleanText(all: set<Node>, t: Word, i: nat)
    requires i <= |t| && forall k, j :: 0 <= k < j <= |t| ==> !IsWord(all, t[k..j])
    ensures Masked(all, t, i) == t[i..]
    decreases |t| - i
  {
    hide IsWord, FirstEnd;
    if i < |t| {
      FirstEndIs(all, t, i, i + 1);
      CleanText(all, t, i + 1);
    }
  }

  /** A word without a shorter word at its start is replaced by one star. */
  lemma StarForWord(all: set<Node>, t: Word)
    requires t != [] && IsWord(all, t) && forall j :: 0 < j < |t| ==> !IsWord(all, t[..j])
    ensures Masked(all, t, 0) == Filtered(all, t, 0) == ['*' as int]
  {
    hide IsWord;
    FirstEndIs(all, t, 0, 1);
    assert t[0..|t|] == t && forall j :: 0 < j < |t| ==> t[0..j] == t[..j];
    FilteredEnd(all, t);
  }

  lemma Unfinished(all: set<Node>, root: Node, longer: Word, text: Word)
    requires IsTrie(all, root) && IsWord(all, longer) && |longer| == 2 && text == longer[..1] && !IsWord(all, text)
    ensures Filtered(all, text, 0) == []
  {
    hide IsTrie;
    assert HasPath(all, longer);
    PathsClosed(all, root, longer, 1);
    assert text[0..] == text && text[0..1] == text;
    FirstEndIs(all, text, 0, 1);
    FilteredEnd(all, text);
  }

  /** A text that is dropped whole: the first byte of a longer word. */
  method LostText() returns (trie: Trie, str: Word)
    ensures trie.Valid() && trie.Contains([97, 98]) && !trie.Contains([97])
    ensures str == Filtered(trie.all, [97], 0) + [0] == [0] && Masked(trie.all, [97], 0) == [97]
  {
    hide IsWord, Filtered, Masked;
    trie := new Trie();
    var longer: Word, text: Word := [97, 98], [97];
    assert longer != text;
    trie.AddWord(longer);
    assert trie.Contains(longer) && !trie.Contains(text);
    assert text == longer[..1] == BeforeNul(text);
    Unfinished(trie.all, trie.root, longer, text);
    assert text[0..] == text[0..1] == text;
    CleanText(trie.all, text, 0);
    str := trie.DoFiltering(text);
  }
}
