/**
 * TrieNode.java, the nodes of a path-compressed trie, held in an arena.
 *
 * Every TrieNode object becomes a `Node` record stored under a numeric id in
 * the map `Arena.nodes`; `parent` and `children` hold ids instead of
 * references. Fresh ids come from `Arena.next`, so a child always has a larger
 * id than its parent. The map holds exactly the nodes reachable from the root:
 * a node the Java code detaches from the tree is removed from the map together
 * with everything below it.
 */
module TrieNodes {
  import opened Wrappers

  /**
   * The fields of one TrieNode: `start` is `startCharacter` (None for the
   * root, whose `startCharacter` is null), `chars` is `characters`, and `data`
   * is the position list of the node's Data object (None for null).
   */
  datatype Node = Node(
    parent: nat,
    children: seq<nat>,
    isLeaf: bool,
    isWord: bool,
    start: Option<char>,
    chars: string,
    data: Option<seq<int>>)

  datatype Arena = Arena(nodes: map<nat, Node>, next: nat)

  const Root: nat := 0

  /** The node built by the root constructor `TrieNode()`. */
  function RootNode(): Node
  {
    Node(0, [], true, false, None, [], None)
  }

  /** A tree that holds only its root. */
  function EmptyArena(): Arena
  {
    Arena(map[Root := RootNode()], 1)
  }

  /** `startCharacter + characters`: the full label of a non-root node. */
  function Label(n: Node): string
  {
    (if n.start.Some? then [n.start.value] else []) + n.chars
  }

  // ---------------------------------------------------------------------
  // Well-formedness of the arena: the references of the Java objects.

  /** Every non-root node has a smaller parent that is in the arena. */
  ghost predicate Linked(a: Arena)
  {
    forall x {:trigger a.nodes[x].parent} | x in a.nodes && x != Root :: a.nodes[x].parent in a.nodes && a.nodes[x].parent < x
  }

  /** A non-root node has a start character and is listed by its parent. */
  ghost predicate ParentOk(a: Arena, x: nat)
    requires x in a.nodes && x != Root && Linked(a)
  {
    a.nodes[x].start.Some? && x in a.nodes[a.nodes[x].parent].children
  }

  /**
   * The children of `x` are in the arena, point back to `x`, have larger ids,
   * and no two of them share a start character.
   */
  ghost predicate ChildrenOk(a: Arena, x: nat)
    requires x in a.nodes
  {
    var cs := a.nodes[x].children;
    && (forall k | 0 <= k < |cs| :: cs[k] in a.nodes && x < cs[k] && a.nodes[cs[k]].parent == x)
    && (forall j, k | 0 <= j < k < |cs| :: a.nodes[cs[j]].start != a.nodes[cs[k]].start)
  }

  /** Every listed child is a node of the arena. */
  ghost predicate ChildrenIn(a: Arena)
  {
    forall x, k | x in a.nodes && 0 <= k < |a.nodes[x].children| :: a.nodes[x].children[k] in a.nodes
  }

  ghost predicate Wf(a: Arena)
  {
    && Root in a.nodes
    && a.nodes[Root].start.None?
    && (forall x | x in a.nodes :: x < a.next)
    && Linked(a)
    && (forall x | x in a.nodes && x != Root :: a.nodes[x].start.Some?)
    && ChildrenIn(a)
    && (forall x {:trigger ParentOk(a, x)} | x in a.nodes && x != Root :: ParentOk(a, x))
    && (forall x {:trigger ChildrenOk(a, x)} | x in a.nodes :: ChildrenOk(a, x))
  }

  // ---------------------------------------------------------------------
  // Shape invariants that the mutating operations keep.

  /**
   * A node is a leaf exactly when it has no children, a node with remaining
   * characters is a word, a word has a non-empty position list, and a
   * non-word has none.
   */
  predicate NodeShape(n: Node)
  {
    && n.isLeaf == (n.children == [])
    && (n.chars != [] ==> n.isWord)
    && n.isWord == n.data.Some?
    && (n.data.Some? ==> |n.data.value| > 0)
  }

  ghost predicate Shape(a: Arena)
  {
    && Root in a.nodes
    && a.nodes[Root].chars == []
    && !a.nodes[Root].isWord
    && (forall x | x in a.nodes :: NodeShape(a.nodes[x]))
  }

  /** A node with remaining characters has no children (nodes in `skip` aside). */
  ghost predicate CompressedLeaves(a: Arena, skip: set<nat>)
  {
    forall x | x in a.nodes && x !in skip :: a.nodes[x].chars != [] ==> a.nodes[x].children == []
  }

  /** A childless non-root node is a word (nodes in `exempt` aside). */
  ghost predicate LeavesAreWords(a: Arena, exempt: set<nat>)
  {
    forall x | x in a.nodes && x != Root && x !in exempt :: a.nodes[x].children == [] ==> a.nodes[x].isWord
  }

  ghost predicate Valid(a: Arena)
  {
    Wf(a) && Shape(a) && CompressedLeaves(a, {}) && LeavesAreWords(a, {})
  }

  lemma {:induction false} EmptyArenaValid()
    ensures Valid(EmptyArena())
    ensures EmptyArena().nodes[Root].children == []
  {
  }

  // ---------------------------------------------------------------------
  // Read-only operations.

  /**
   * `findNode(s)`: the first child in `cs` whose start character is `c`, or
   * None when no child starts with `c`.
   */
  function Find(a: Arena, cs: seq<nat>, c: char): (r: Option<nat>)
    requires forall k | 0 <= k < |cs| :: cs[k] in a.nodes
    ensures r.Some? ==> r.value in cs && a.nodes[r.value].start == Some(c)
    ensures r.None? <==> (forall k | 0 <= k < |cs| :: a.nodes[cs[k]].start != Some(c))
    ensures r.Some? ==> exists k | 0 <= k < |cs| :: cs[k] == r.value && FirstWith(a, cs, c, k)
  {
    if cs == [] then None
    else if a.nodes[cs[0]].start == Some(c) then (assert FirstWith(a, cs, c, 0); Some(cs[0]))
    else
      var r := Find(a, cs[1..], c);
      if r.Some? then FirstWithTail(a, cs, c, r.value); r else r
  }

  lemma {:induction false} FirstWithTail(a: Arena, cs: seq<nat>, c: char, v: nat)
    requires forall i | 0 <= i < |cs| :: cs[i] in a.nodes
    requires |cs| > 0 && a.nodes[cs[0]].start != Some(c)
    requires exists k | 0 <= k < |cs[1..]| :: cs[1..][k] == v && FirstWith(a, cs[1..], c, k)
    ensures exists k | 0 <= k < |cs| :: cs[k] == v && FirstWith(a, cs, c, k)
  {
    var k :| 0 <= k < |cs[1..]| && cs[1..][k] == v && FirstWith(a, cs[1..], c, k);
    assert FirstWith(a, cs, c, k + 1);
  }

  /** Position `k` is the first in `cs` whose start character is `c`. */
  ghost predicate FirstWith(a: Arena, cs: seq<nat>, c: char, k: nat)
    requires forall i | 0 <= i < |cs| :: cs[i] in a.nodes
    requires k < |cs|
  {
    a.nodes[cs[k]].start == Some(c) && forall j | 0 <= j < k :: a.nodes[cs[j]].start != Some(c)
  }

  /** `Find` reads only the start characters of the listed children. */
  lemma {:induction false} FindSame(a: Arena, b: Arena, cs: seq<nat>, c: char)
    requires forall k | 0 <= k < |cs| :: cs[k] in a.nodes && cs[k] in b.nodes
    requires forall k | 0 <= k < |cs| :: a.nodes[cs[k]].start == b.nodes[cs[k]].start
    ensures Find(a, cs, c) == Find(b, cs, c)
  {
    if cs != [] {
      FindSame(a, b, cs[1..], c);
    }
  }

  /** With unique start characters, `Find` returns the one child that starts with `c`. */
  lemma {:induction false} FindChild(a: Arena, p: nat, x: nat)
    requires Wf(a) && p in a.nodes && x in a.nodes[p].children
    ensures a.nodes[x].start.Some?
    ensures Find(a, a.nodes[p].children, a.nodes[x].start.value) == Some(x)
  {
    var cs := a.nodes[p].children;
    assert ChildrenOk(a, p);
    var k :| 0 <= k < |cs| && cs[k] == x;
    assert x != Root;
    assert ParentOk(a, x);
    var r := Find(a, cs, a.nodes[x].start.value);
    assert r.Some?;
    var j :| 0 <= j < |cs| && cs[j] == r.value && FirstWith(a, cs, a.nodes[x].start.value, j);
    assert j == k;
  }

  /** `toString()`: the labels on the path from the root down to `x`. */
  function Word(a: Arena, x: nat): string
    requires Linked(a) && x in a.nodes
    decreases x
  {
    if x == Root then [] else Word(a, a.nodes[x].parent) + Label(a.nodes[x])
  }

  /** `x` lies in the subtree of `top` (`x` itself included). */
  predicate IsAncestor(a: Arena, top: nat, x: nat)
    requires Linked(a) && x in a.nodes
    decreases x
  {
    x == top || (x != Root && IsAncestor(a, top, a.nodes[x].parent))
  }

  /** The number of edges from the root down to `x`. */
  ghost function Depth(a: Arena, x: nat): nat
    requires Linked(a) && x in a.nodes
    decreases x
  {
    if x == Root then 0 else Depth(a, a.nodes[x].parent) + 1
  }

  /** Nodes of a subtree have ids at least that of its top. */
  lemma {:induction false} AncestorBelow(a: Arena, top: nat, x: nat)
    requires Linked(a) && x in a.nodes && IsAncestor(a, top, x)
    ensures top <= x
    decreases x
  {
    if x != top {
      AncestorBelow(a, top, a.nodes[x].parent);
    }
  }

  /** The subtree of a child lies inside the subtree of its parent. */
  lemma {:induction false} AncestorOfChild(a: Arena, p: nat, c: nat, x: nat)
    requires Linked(a) && c in a.nodes && x in a.nodes && c != Root && a.nodes[c].parent == p
    requires IsAncestor(a, c, x)
    ensures IsAncestor(a, p, x)
    decreases x
  {
    if x != c {
      AncestorOfChild(a, p, c, a.nodes[x].parent);
    }
  }

  /**
   * A node strictly inside the subtree of `top` lies in the subtree of one
   * of `top`'s children.
   */
  lemma {:induction false} AncestorViaChild(a: Arena, top: nat, x: nat) returns (c: nat)
    requires Wf(a) && top in a.nodes && x in a.nodes && IsAncestor(a, top, x) && x != top
    ensures c in a.nodes[top].children && c in a.nodes && IsAncestor(a, c, x)
    decreases x
  {
    var p := a.nodes[x].parent;
    assert ParentOk(a, x);
    if p == top {
      c := x;
    } else {
      c := AncestorViaChild(a, top, p);
      assert ChildrenOk(a, top);
    }
  }

  /**
   * The chain of single children from `x` down to `y`: every node on the
   * way, `y` excluded, has exactly one child.
   */
  ghost predicate ChainTo(a: Arena, x: nat, y: nat)
    requires Wf(a) && x in a.nodes
    decreases a.next - x
  {
    x == y ||
    (|a.nodes[x].children| == 1 && (assert ChildrenOk(a, x); ChainTo(a, a.nodes[x].children[0], y)))
  }

  /**
   * `getLeaf()`: `x` itself when it is childless, the bottom of the chain of
   * single children below `x`, or None when a node on that chain has two or
   * more children.
   */
  function GetLeaf(a: Arena, x: nat): (r: Option<nat>)
    requires Wf(a) && x in a.nodes
    ensures r.Some? ==> r.value in a.nodes && a.nodes[r.value].children == [] && ChainTo(a, x, r.value)
    ensures r.None? ==> exists y | y in a.nodes :: ChainTo(a, x, y) && |a.nodes[y].children| >= 2
    decreases a.next - x
  {
    var cs := a.nodes[x].children;
    if |cs| == 0 then Some(x)
    else if |cs| == 1 then
      assert ChildrenOk(a, x);
      var r := GetLeaf(a, cs[0]);
      if r.None? then ChainBranchUp(a, x); r else r
    else
      assert ChainTo(a, x, x);
      None
  }

  lemma {:induction false} ChainBranchUp(a: Arena, x: nat)
    requires Wf(a) && x in a.nodes && |a.nodes[x].children| == 1
    requires a.nodes[x].children[0] in a.nodes
    requires exists y | y in a.nodes :: ChainTo(a, a.nodes[x].children[0], y) && |a.nodes[y].children| >= 2
    ensures exists y | y in a.nodes :: ChainTo(a, x, y) && |a.nodes[y].children| >= 2
  {
    var y :| y in a.nodes && ChainTo(a, a.nodes[x].children[0], y) && |a.nodes[y].children| >= 2;
    assert ChainTo(a, x, y);
  }

  /** A chain of single children stays inside the subtree. */
  lemma {:induction false} ChainInSubtree(a: Arena, x: nat, y: nat)
    requires Wf(a) && x in a.nodes && y in a.nodes && ChainTo(a, x, y)
    ensures IsAncestor(a, x, y)
    decreases a.next - x
  {
    if x != y {
      var c := a.nodes[x].children[0];
      assert ChildrenOk(a, x);
      ChainInSubtree(a, c, y);
      AncestorOfChild(a, x, c, y);
    }
  }
}
