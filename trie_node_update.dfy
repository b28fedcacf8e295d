/**
 * The mutating operations of TrieNode.java, `insert`, `merge` and `delete`,
 * as functions from the arena before the call to the arena after it. The
 * methods of `NodeHeap` perform the same steps in place and are proved to
 * end in the states these functions give.
 */
module TrieNodeUpdates {
  import opened Wrappers
  import opened TrieNodes

  function SetNode(a: Arena, x: nat, n: Node): Arena
  {
    a.(nodes := a.nodes[x := n])
  }

  /** `list.remove(i)` on a child list. */
  function RemoveAt(cs: seq<nat>, i: nat): (r: seq<nat>)
    requires i < |cs|
    ensures |r| == |cs| - 1
    ensures forall k | 0 <= k < i :: r[k] == cs[k]
    ensures forall k | i <= k < |r| :: r[k] == cs[k + 1]
  {
    cs[..i] + cs[i + 1..]
  }

  /** The arena without the subtree of `c`. */
  function Prune(b: Arena, c: nat): (r: Arena)
    requires Linked(b)
    ensures r.next == b.next
    ensures forall y :: y in r.nodes <==> y in b.nodes && !IsAncestor(b, c, y)
    ensures forall y | y in r.nodes :: r.nodes[y] == b.nodes[y]
  {
    Arena(map y | y in b.nodes && !IsAncestor(b, c, y) :: b.nodes[y], b.next)
  }

  /**
   * `children.remove(i)` on node `p`: the child leaves the list, and it and
   * everything below it leave the arena.
   */
  function Detach(a: Arena, p: nat, i: nat): Arena
    requires Linked(a) && p in a.nodes && i < |a.nodes[p].children|
  {
    var c := a.nodes[p].children[i];
    Prune(SetNode(a, p, a.nodes[p].(children := RemoveAt(a.nodes[p].children, i))), c)
  }

  /** Changing anything but parent links leaves the subtree relation alone. */
  lemma {:induction false} AncestorSameLinks(a: Arena, b: Arena, top: nat, y: nat)
    requires Linked(a) && Linked(b) && y in a.nodes
    requires forall x | x in a.nodes :: x in b.nodes && b.nodes[x].parent == a.nodes[x].parent
    ensures IsAncestor(b, top, y) == IsAncestor(a, top, y)
    decreases y
  {
    if y != top && y != Root {
      AncestorSameLinks(a, b, top, a.nodes[y].parent);
    }
  }

  /** The children of a node are distinct, since their start characters are. */
  lemma {:induction false} ChildrenDistinct(a: Arena, p: nat, j: nat, k: nat)
    requires Wf(a) && p in a.nodes && j < |a.nodes[p].children| && k < |a.nodes[p].children| && j != k
    ensures a.nodes[p].children[j] != a.nodes[p].children[k]
  {
    assert ChildrenOk(a, p);
  }

  /** Which nodes stay when a child is detached, and what becomes of them. */
  lemma {:induction false} DetachNodes(a: Arena, p: nat, i: nat)
    requires Linked(a) && Root in a.nodes && p in a.nodes
    requires i < |a.nodes[p].children| && p < a.nodes[p].children[i]
    ensures var r := Detach(a, p, i);
      && r.next == a.next
      && (forall y :: y in r.nodes <==> y in a.nodes && !IsAncestor(a, a.nodes[p].children[i], y))
      && p in r.nodes && Root in r.nodes
      && r.nodes[p] == a.nodes[p].(children := RemoveAt(a.nodes[p].children, i))
      && (forall y | y in r.nodes && y != p :: r.nodes[y] == a.nodes[y])
  {
    var c := a.nodes[p].children[i];
    var b := SetNode(a, p, a.nodes[p].(children := RemoveAt(a.nodes[p].children, i)));
    assert Linked(b);
    assert Detach(a, p, i) == Prune(b, c);
    forall y | y in a.nodes
      ensures IsAncestor(b, c, y) == IsAncestor(a, c, y)
    {
      AncestorSameLinks(a, b, c, y);
    }
    assert !IsAncestor(b, c, p) by {
      if IsAncestor(b, c, p) { AncestorBelow(b, c, p); }
    }
    assert !IsAncestor(b, c, Root) by {
      if IsAncestor(b, c, Root) { AncestorBelow(b, c, Root); }
    }
  }

  lemma {:induction false} DetachParentOk(a: Arena, p: nat, i: nat, y: nat)
    requires Wf(a) && p in a.nodes && i < |a.nodes[p].children|
    requires Linked(Detach(a, p, i)) && y in Detach(a, p, i).nodes && y != Root
    ensures ParentOk(Detach(a, p, i), y)
  {
    assert ChildrenOk(a, p);
    DetachNodes(a, p, i);
    var cs := a.nodes[p].children;
    var c := cs[i];
    assert ParentOk(a, y);
    if a.nodes[y].parent == p {
      var j :| 0 <= j < |cs| && cs[j] == y;
      if j == i {
        assert false;
      } else if j < i {
        assert RemoveAt(cs, i)[j] == y;
      } else {
        assert RemoveAt(cs, i)[j - 1] == y;
      }
    }
  }

  lemma {:induction false} DetachChildrenOk(a: Arena, p: nat, i: nat, x: nat)
    requires Linked(a) && Root in a.nodes && p in a.nodes
    requires i < |a.nodes[p].children| && p < a.nodes[p].children[i]
    requires ChildrenOk(a, p)
    requires x in Detach(a, p, i).nodes && ChildrenOk(a, x)
    ensures ChildrenOk(Detach(a, p, i), x)
  {
    DetachNodes(a, p, i);
    var r := Detach(a, p, i);
    var cs := a.nodes[p].children;
    var c := cs[i];
    var xs := r.nodes[x].children;
    forall k | 0 <= k < |xs|
      ensures xs[k] in r.nodes && x < xs[k] && r.nodes[xs[k]].parent == x
      ensures r.nodes[xs[k]].start == a.nodes[xs[k]].start
    {
      var z := xs[k];
      if x == p {
        assert z == cs[if k < i then k else k + 1];
      }
      assert z in a.nodes && a.nodes[z].parent == x && x < z;
      assert z != c;
    }
    forall j, k | 0 <= j < k < |xs|
      ensures r.nodes[xs[j]].start != r.nodes[xs[k]].start
    {
      if x == p {
        assert xs[j] == cs[if j < i then j else j + 1];
        assert xs[k] == cs[if k < i then k else k + 1];
      }
    }
  }

  /** Detaching a child keeps the arena well formed. */
  lemma {:induction false} DetachWf(a: Arena, p: nat, i: nat)
    requires Wf(a) && p in a.nodes && i < |a.nodes[p].children|
    ensures Wf(Detach(a, p, i))
  {
    assert ChildrenOk(a, p);
    DetachNodes(a, p, i);
    var r := Detach(a, p, i);
    assert Linked(r);
    forall y | y in r.nodes && y != Root
      ensures ParentOk(r, y)
    {
      DetachParentOk(a, p, i, y);
    }
    forall x | x in r.nodes
      ensures ChildrenOk(r, x)
    {
      assert ChildrenOk(a, x) && ChildrenOk(a, p);
      DetachChildrenOk(a, p, i, x);
    }
  }

  // ---------------------------------------------------------------------
  // insert

  /** The leaf `new TrieNode(word[0], word[1..], null)` made a word with `d`. */
  function NewLeaf(parent: nat, word: string, d: seq<int>): Node
    requires |word| > 0
  {
    Node(parent, [], true, true, Some(word[0]), word[1..], Some(d))
  }

  /** What an insert below `id` keeps of the nodes that were there before. */
  ghost predicate InsertFrame(a: Arena, r: Arena, id: nat)
  {
    && a.nodes.Keys <= r.nodes.Keys
    && a.next <= r.next
    && (forall y | y in a.nodes && y < id :: r.nodes[y] == a.nodes[y])
    && (forall y | y in a.nodes ::
          && r.nodes[y].parent == a.nodes[y].parent
          && r.nodes[y].start == a.nodes[y].start
          && |a.nodes[y].children| <= |r.nodes[y].children|
          && (r.nodes[y].chars == a.nodes[y].chars
              || (a.nodes[y].children == [] && r.nodes[y].chars == [])))
  }

  /** What `insert` called on `id` guarantees about the arena after it. */
  ghost predicate InsertPost(a: Arena, r: Arena, id: nat)
    requires id in a.nodes
  {
    && Wf(r) && Shape(r) && CompressedLeaves(r, {id}) && LeavesAreWords(r, {})
    && InsertFrame(a, r, id)
    && id in r.nodes && r.nodes[id].children != []
    && r.nodes[id] == a.nodes[id].(isLeaf := false, children := r.nodes[id].children)
  }

  lemma {:induction false} FrameTrans(a: Arena, b: Arena, r: Arena, i: nat, j: nat)
    requires InsertFrame(a, b, i) && InsertFrame(b, r, j) && i <= j
    ensures InsertFrame(a, r, i)
  {
  }

  /** Replacing one node, keeping its links, by one its successor may be. */
  lemma {:induction false} FrameSet(a: Arena, x: nat, n: Node, i: nat)
    requires x in a.nodes && i <= x
    requires n.parent == a.nodes[x].parent && n.start == a.nodes[x].start
    requires |a.nodes[x].children| <= |n.children|
    requires n.chars == a.nodes[x].chars || (a.nodes[x].children == [] && n.chars == [])
    ensures InsertFrame(a, SetNode(a, x, n), i)
  {
  }

  /** The link conditions `SetNodeWf` asks of the replacement node. */
  ghost predicate SameLinks(a: Arena, x: nat, n: Node)
    requires x in a.nodes
  {
    n.parent == a.nodes[x].parent && n.children == a.nodes[x].children && n.start == a.nodes[x].start
  }

  lemma {:induction false} SetNodeParentOk(a: Arena, x: nat, n: Node, y: nat)
    requires Wf(a) && x in a.nodes && SameLinks(a, x, n)
    requires Linked(SetNode(a, x, n)) && y in a.nodes && y != Root
    ensures ParentOk(SetNode(a, x, n), y)
  {
    assert ParentOk(a, y);
  }

  lemma {:induction false} SetNodeChildrenOk(a: Arena, x: nat, n: Node, y: nat)
    requires Wf(a) && x in a.nodes && SameLinks(a, x, n) && y in a.nodes
    ensures ChildrenOk(SetNode(a, x, n), y)
  {
    assert ChildrenOk(a, y);
  }

  /** Replacing the fields of one node that are not links keeps `Wf`. */
  lemma {:induction false} SetNodeWf(a: Arena, x: nat, n: Node)
    requires Wf(a) && x in a.nodes && SameLinks(a, x, n)
    ensures Wf(SetNode(a, x, n))
  {
    var b := SetNode(a, x, n);
    assert Linked(b);
    forall y | y in b.nodes && y != Root
      ensures ParentOk(b, y)
    {
      SetNodeParentOk(a, x, n, y);
    }
    forall y | y in b.nodes
      ensures ChildrenOk(b, y)
    {
      SetNodeChildrenOk(a, x, n, y);
    }
  }

  /** Replacing the fields of one node that are not links. */
  lemma {:induction false} SetNodeKeeps(a: Arena, x: nat, n: Node, skip: set<nat>)
    requires Wf(a) && Shape(a) && CompressedLeaves(a, skip) && LeavesAreWords(a, {})
    requires x in a.nodes && SameLinks(a, x, n)
    requires NodeShape(n) && (x == Root ==> n.chars == [] && !n.isWord)
    requires x != Root && n.children == [] ==> n.isWord
    ensures var b := SetNode(a, x, n);
      && Wf(b) && Shape(b) && LeavesAreWords(b, {})
      && CompressedLeaves(b, skip + {x})
      && (n.chars == [] || n.children == [] ==> CompressedLeaves(b, skip - {x}))
  {
    SetNodeWf(a, x, n);
  }

  /** The branch of `insert` that adds a new leaf below `id`. */
  function AddLeaf(a: Arena, id: nat, word: string, d: seq<int>): Arena
    requires id in a.nodes && |word| > 0
  {
    var c := a.next;
    Arena(a.nodes[id := a.nodes[id].(isLeaf := false, children := a.nodes[id].children + [c])]
                 [c := NewLeaf(id, word, d)],
          c + 1)
  }

  lemma {:induction false} AddLeafParentOk(a: Arena, id: nat, word: string, d: seq<int>, y: nat)
    requires Wf(a) && id in a.nodes && |word| > 0
    requires Linked(AddLeaf(a, id, word, d)) && y in AddLeaf(a, id, word, d).nodes && y != Root
    ensures ParentOk(AddLeaf(a, id, word, d), y)
  {
    if y != a.next {
      assert ParentOk(a, y);
    }
  }

  /** Ids at and above `next` are free. */
  ghost predicate Bounded(a: Arena)
  {
    forall x | x in a.nodes :: x < a.next
  }

  lemma {:induction false} AddLeafChildrenOk(a: Arena, id: nat, word: string, d: seq<int>, y: nat)
    requires Bounded(a) && id in a.nodes && |word| > 0
    requires y in a.nodes ==> ChildrenOk(a, y)
    requires forall k | 0 <= k < |a.nodes[id].children| :: a.nodes[id].children[k] in a.nodes
    requires Find(a, a.nodes[id].children, word[0]).None?
    requires y in AddLeaf(a, id, word, d).nodes
    ensures ChildrenOk(AddLeaf(a, id, word, d), y)
  {
    var r := AddLeaf(a, id, word, d);
    var c := a.next;
    var cs := a.nodes[id].children;
    if y == id {
      var rs := r.nodes[id].children;
      assert rs == cs + [c];
      forall k | 0 <= k < |cs|
        ensures r.nodes[rs[k]].start == a.nodes[cs[k]].start
        ensures r.nodes[rs[k]].parent == a.nodes[cs[k]].parent
      {
        assert cs[k] != c;
      }
    } else if y != c {
      var ys := a.nodes[y].children;
      forall k | 0 <= k < |ys|
        ensures r.nodes[ys[k]].start == a.nodes[ys[k]].start
        ensures r.nodes[ys[k]].parent == a.nodes[ys[k]].parent
      {
        assert ys[k] != c;
      }
    }
  }

  lemma {:induction false} AddLeafLinked(a: Arena, id: nat, word: string, d: seq<int>)
    requires Linked(a) && Bounded(a) && id in a.nodes && |word| > 0
    ensures Linked(AddLeaf(a, id, word, d)) && Bounded(AddLeaf(a, id, word, d))
  {
    assert a.next !in a.nodes;
  }

  lemma {:induction false} AddLeafParents(a: Arena, id: nat, word: string, d: seq<int>)
    requires Wf(a) && id in a.nodes && |word| > 0
    ensures Linked(AddLeaf(a, id, word, d))
    ensures forall y | y in AddLeaf(a, id, word, d).nodes && y != Root :: ParentOk(AddLeaf(a, id, word, d), y)
  {
    assert Bounded(a);
    AddLeafLinked(a, id, word, d);
    var r := AddLeaf(a, id, word, d);
    forall y | y in r.nodes && y != Root
      ensures ParentOk(r, y)
    {
      AddLeafParentOk(a, id, word, d, y);
    }
  }

  lemma {:induction false} AddLeafChildren(a: Arena, id: nat, word: string, d: seq<int>)
    requires Wf(a) && id in a.nodes && |word| > 0
    requires Find(a, a.nodes[id].children, word[0]).None?
    ensures forall y | y in AddLeaf(a, id, word, d).nodes :: ChildrenOk(AddLeaf(a, id, word, d), y)
  {
    var r := AddLeaf(a, id, word, d);
    assert ChildrenOk(a, id);
    forall y | y in r.nodes
      ensures ChildrenOk(r, y)
    {
      if y in a.nodes { assert ChildrenOk(a, y); }
      AddLeafChildrenOk(a, id, word, d, y);
    }
  }

  lemma {:induction false} AddLeafWf(a: Arena, id: nat, word: string, d: seq<int>)
    requires Wf(a) && id in a.nodes && |word| > 0
    requires Find(a, a.nodes[id].children, word[0]).None?
    ensures Wf(AddLeaf(a, id, word, d))
  {
    AddLeafParents(a, id, word, d);
    AddLeafChildren(a, id, word, d);
    AddLeafMembers(a, id, word, d);
  }

  lemma {:induction false} AddLeafMembers(a: Arena, id: nat, word: string, d: seq<int>)
    requires Root in a.nodes && a.nodes[Root].start.None? && Bounded(a) && id in a.nodes && |word| > 0
    requires forall x | x in a.nodes && x != Root :: a.nodes[x].start.Some?
    requires forall x, k | x in a.nodes && 0 <= k < |a.nodes[x].children| :: a.nodes[x].children[k] in a.nodes
    ensures var r := AddLeaf(a, id, word, d);
      && Root in r.nodes && r.nodes[Root].start.None? && Bounded(r)
      && (forall x | x in r.nodes && x != Root :: r.nodes[x].start.Some?)
      && (forall x, k | x in r.nodes && 0 <= k < |r.nodes[x].children| :: r.nodes[x].children[k] in r.nodes)
  {
    var r := AddLeaf(a, id, word, d);
    forall x, k | x in r.nodes && 0 <= k < |r.nodes[x].children|
      ensures r.nodes[x].children[k] in r.nodes
    {
      if x == id && k == |a.nodes[id].children| {
      } else if x != a.next {
        assert k < |a.nodes[x].children| && r.nodes[x].children[k] == a.nodes[x].children[k];
      }
    }
  }

  lemma {:induction false} AddLeafShape(a: Arena, id: nat, word: string, d: seq<int>)
    requires Bounded(a) && Shape(a) && CompressedLeaves(a, {}) && LeavesAreWords(a, {})
    requires id in a.nodes && |word| > 0 && |d| > 0
    ensures var r := AddLeaf(a, id, word, d);
      Shape(r) && CompressedLeaves(r, {id}) && LeavesAreWords(r, {})
  {
    assert a.next !in a.nodes;
  }

  lemma {:induction false} AddLeafFrame(a: Arena, id: nat, word: string, d: seq<int>)
    requires Bounded(a) && id in a.nodes && |word| > 0
    ensures InsertFrame(a, AddLeaf(a, id, word, d), id)
  {
    assert a.next !in a.nodes;
  }

  lemma {:induction false} AddLeafPost(a: Arena, id: nat, word: string, d: seq<int>)
    requires Valid(a) && id in a.nodes && |word| > 0 && |d| > 0
    requires Find(a, a.nodes[id].children, word[0]).None?
    ensures InsertPost(a, AddLeaf(a, id, word, d), id)
  {
    assert Bounded(a);
    AddLeafWf(a, id, word, d);
    AddLeafShape(a, id, word, d);
    AddLeafFrame(a, id, word, d);
  }
  /** `isLeaf = false` on a node that already has a child. */
  lemma {:induction false} ClearLeafPost(a: Arena, id: nat)
    requires Valid(a) && id in a.nodes && a.nodes[id].children != []
    ensures var a1 := SetNode(a, id, a.nodes[id].(isLeaf := false));
      Valid(a1) && InsertFrame(a, a1, id)
  {
    var n := a.nodes[id].(isLeaf := false);
    SetNodeKeeps(a, id, n, {});
    FrameSet(a, id, n, id);
    assert {} - {id} == {};
  }

  /** Adding a position to the data of a child that is already this word. */
  lemma {:induction false} AddPositionPost(a1: Arena, c: nat, id: nat, d: seq<int>)
    requires Valid(a1) && c in a1.nodes && id <= c && a1.nodes[c].isWord && |d| > 0
    ensures var ch := a1.nodes[c];
      var r := SetNode(a1, c, ch.(data := Some(ch.data.value + [d[0]])));
      Valid(r) && InsertFrame(a1, r, id)
  {
    var ch := a1.nodes[c];
    var n := ch.(data := Some(ch.data.value + [d[0]]));
    SetNodeKeeps(a1, c, n, {});
    FrameSet(a1, c, n, id);
    assert {} - {c} == {};
  }

  /**
   * The split of a compressed child: after the remaining characters went
   * into a new leaf below it, the child itself stops being a word.
   */
  lemma {:induction false} SplitPost(a1: Arena, c: nat, t: Arena)
    requires Valid(a1) && c in a1.nodes && a1.nodes[c].chars != []
    requires InsertPost(a1, t, c)
    ensures var a2 := SetNode(t, c, t.nodes[c].(isWord := false, data := None, chars := []));
      && Valid(a2) && InsertFrame(a1, a2, c)
      && a2.nodes[c] == a1.nodes[c].(isLeaf := false, children := t.nodes[c].children,
                                      isWord := false, data := None, chars := [])
  {
    var n := t.nodes[c].(isWord := false, data := None, chars := []);
    assert a1.nodes[c].children == [];
    SplitValid(t, c, n);
    SplitFrame(a1, c, t, n);
  }

  lemma {:induction false} SplitValid(t: Arena, c: nat, n: Node)
    requires Wf(t) && Shape(t) && CompressedLeaves(t, {c}) && LeavesAreWords(t, {})
    requires c in t.nodes && c != Root && t.nodes[c].children != [] && !t.nodes[c].isLeaf
    requires n == t.nodes[c].(isWord := false, data := None, chars := [])
    ensures Valid(SetNode(t, c, n))
  {
    SetNodeKeeps(t, c, n, {c});
    assert {c} - {c} == {};
  }

  lemma {:induction false} SplitFrame(a1: Arena, c: nat, t: Arena, n: Node)
    requires c in a1.nodes && a1.nodes[c].children == []
    requires InsertFrame(a1, t, c) && c in t.nodes
    requires n == t.nodes[c].(isWord := false, data := None, chars := [])
    ensures InsertFrame(a1, SetNode(t, c, n), c)
  {
  }

  /** Making a child without remaining characters the word itself. */
  lemma {:induction false} MarkWordPost(a2: Arena, c: nat, id: nat, d: seq<int>)
    requires Valid(a2) && c in a2.nodes && c != Root && id <= c && a2.nodes[c].chars == [] && |d| > 0
    ensures var r := SetNode(a2, c, a2.nodes[c].(isWord := true, data := Some(d)));
      Valid(r) && InsertFrame(a2, r, id)
  {
    var n := a2.nodes[c].(isWord := true, data := Some(d));
    SetNodeKeeps(a2, c, n, {});
    FrameSet(a2, c, n, id);
    assert {} - {c} == {};
  }

  /**
   * `insert(word, newData)` called on node `id`, with `d` the position list
   * of `newData`. A node whose characters are still compressed has no
   * children, which is what lets the call on such a child (the first step
   * of splitting it) terminate at once.
   */
  ghost function InsertF(a: Arena, id: nat, word: string, d: seq<int>): (r: Arena)
    requires Valid(a) && id in a.nodes && |word| > 0 && |d| > 0
    ensures InsertPost(a, r, id)
    decreases if a.nodes[id].children == [] then 0 else 1, |word|, 2
  {
    match Find(a, a.nodes[id].children, word[0])
    case None =>
      AddLeafPost(a, id, word, d);
      AddLeaf(a, id, word, d)
    case Some(c) =>
      InsertAtChild(a, id, c, word, d)
  }

  /** `insert` once `findNode` found the child `c` that starts with `word[0]`. */
  ghost function InsertAtChild(a: Arena, id: nat, c: nat, word: string, d: seq<int>): (r: Arena)
    requires Valid(a) && id in a.nodes && c in a.nodes[id].children && |word| > 0 && |d| > 0
    ensures InsertPost(a, r, id)
    decreases 1, |word|, 1
  {
    ClearLeafPost(a, id);
    ChildIn(a, id, c);
    var a1 := SetNode(a, id, a.nodes[id].(isLeaf := false));
    var ch := a1.nodes[c];
    var r :=
      if ch.isWord && word == Label(ch) then
        AddPositionPost(a1, c, id, d);
        SetNode(a1, c, ch.(data := Some(ch.data.value + [d[0]])))
      else
        InsertBelow(a1, c, word, d);
    FrameTrans(a, a1, r, id, id);
    r
  }

  lemma {:induction false} ChildIn(a: Arena, id: nat, c: nat)
    requires Wf(a) && id in a.nodes && c in a.nodes[id].children
    ensures c in a.nodes && c != Root && id < c && a.nodes[c].parent == id
  {
    assert ChildrenOk(a, id);
  }

  /**
   * The rest of `insert` once the child `c` starting with `word[0]` is
   * found and is not already this word: split the child if it is still
   * compressed, then either make it the word or insert the rest below it.
   */
  ghost function InsertBelow(a1: Arena, c: nat, word: string, d: seq<int>): (r: Arena)
    requires Valid(a1) && c in a1.nodes && c != Root && |word| > 0 && |d| > 0
    ensures Valid(r) && InsertFrame(a1, r, c)
    decreases 1, |word|, 0
  {
    var a2 := Decompress(a1, c);
    if |word| == 1 then
      MarkWordPost(a2, c, c, d);
      var r := SetNode(a2, c, a2.nodes[c].(isWord := true, data := Some(d)));
      FrameTrans(a1, a2, r, c, c);
      r
    else
      var r := InsertF(a2, c, word[1..], d);
      assert a2.nodes[c].chars == r.nodes[c].chars;
      FrameTrans(a1, a2, r, c, c);
      r
  }

  /** The child `c` with its remaining characters split off, if it has any. */
  ghost function Decompress(a1: Arena, c: nat): (a2: Arena)
    requires Valid(a1) && c in a1.nodes && c != Root
    ensures Valid(a2) && InsertFrame(a1, a2, c) && c in a2.nodes && a2.nodes[c].chars == []
    decreases 0, |a1.nodes[c].chars|, 4
  {
    if a1.nodes[c].chars != [] then SplitChild(a1, c) else a1
  }

  /**
   * `child.insert(child.characters, child.data)` followed by clearing the
   * child's own word: its remaining characters move into a new leaf.
   */
  ghost function SplitChild(a1: Arena, c: nat): (a2: Arena)
    requires Valid(a1) && c in a1.nodes && c != Root && a1.nodes[c].chars != []
    ensures Valid(a2) && InsertFrame(a1, a2, c)
    ensures a2.nodes[c] == a1.nodes[c].(isLeaf := false, children := a2.nodes[c].children,
                                         isWord := false, data := None, chars := [])
    decreases 0, |a1.nodes[c].chars|, 3
  {
    var ch := a1.nodes[c];
    assert ch.children == [] && ch.data.Some?;
    var t := InsertF(a1, c, ch.chars, ch.data.value);
    SplitPost(a1, c, t);
    SetNode(t, c, t.nodes[c].(isWord := false, data := None, chars := []))
  }

  /** `SplitChild` written out. */
  lemma {:induction false} SplitChildIs(a1: Arena, c: nat)
    requires Valid(a1) && c in a1.nodes && c != Root && a1.nodes[c].chars != []
    ensures a1.nodes[c].children == [] && a1.nodes[c].data.Some?
    ensures SplitChild(a1, c) == SplitShape(a1, c)
  {
    var ch := a1.nodes[c];
    assert ch.children == [] && ch.data.Some?;
    var t := InsertF(a1, c, ch.chars, ch.data.value);
    InsertChildless(a1, c, ch.chars, ch.data.value);
    SplitShapeIs(a1, c, t);
  }

  /** `insert` into a childless node only adds a leaf. */
  lemma {:induction false} InsertChildless(a: Arena, id: nat, word: string, d: seq<int>)
    requires Valid(a) && id in a.nodes && a.nodes[id].children == [] && |word| > 0 && |d| > 0
    ensures InsertF(a, id, word, d) == AddLeaf(a, id, word, d)
  {
    assert Find(a, a.nodes[id].children, word[0]).None?;
  }

  lemma {:induction false} SplitShapeIs(a1: Arena, c: nat, t: Arena)
    requires c in a1.nodes && c < a1.next && a1.nodes[c].chars != [] && a1.nodes[c].data.Some?
    requires a1.nodes[c].children == []
    requires t == AddLeaf(a1, c, a1.nodes[c].chars, a1.nodes[c].data.value)
    ensures SetNode(t, c, t.nodes[c].(isWord := false, data := None, chars := [])) == SplitShape(a1, c)
  {
    var ch := a1.nodes[c];
    var n := t.nodes[c].(isWord := false, data := None, chars := []);
    assert n == ch.(isLeaf := false, children := [a1.next], isWord := false, data := None, chars := []);
    assert t.nodes[c := n] == SplitShape(a1, c).nodes;
  }

  /**
   * The arena `SplitChild` produces, written out: the child keeps only its
   * start character and gets a new leaf holding its remaining characters,
   * word and data.
   */
  function SplitShape(a1: Arena, c: nat): Arena
    requires c in a1.nodes && a1.nodes[c].chars != [] && a1.nodes[c].data.Some?
  {
    var ch := a1.nodes[c];
    Arena(a1.nodes[c := ch.(isLeaf := false, children := [a1.next], isWord := false, data := None, chars := [])]
                  [a1.next := NewLeaf(c, ch.chars, ch.data.value)],
          a1.next + 1)
  }

  // ---------------------------------------------------------------------
  // merge

  /**
   * Whether `merge()` called on `x` folds `x` into its parent: the parent is
   * not the root, not a word, and has `x` as its only child.
   */
  predicate MergesUp(a: Arena, x: nat)
    requires Linked(a) && x in a.nodes && x != Root
  {
    var pn := a.nodes[a.nodes[x].parent];
    pn.start.Some? && !pn.isWord && |pn.children| == 1
  }

  /**
   * One step of `merge()`: the parent of `x` appends the full label of `x`
   * to its own characters, takes over its data, becomes a word and a leaf,
   * and drops `x` from its children.
   */
  ghost function Absorb(a: Arena, x: nat): (r: Arena)
    requires Wf(a) && x in a.nodes && x != Root && MergesUp(a, x)
    ensures Wf(r)
    ensures var p := a.nodes[x].parent; p in r.nodes && p != Root && p < x
  {
    var p := a.nodes[x].parent;
    var pn := a.nodes[p];
    assert p != Root && ChildrenOk(a, p);
    DetachWf(a, p, 0);
    DetachNodes(a, p, 0);
    var b := Detach(a, p, 0);
    var n := b.nodes[p].(isWord := true, isLeaf := true, data := a.nodes[x].data,
                         chars := pn.chars + Label(a.nodes[x]));
    SetNodeWf(b, p, n);
    SetNode(b, p, n)
  }

  /**
   * `merge()` called on `x`: while the parent is not the root, not a word
   * and has `x` as its only child, the parent absorbs `x` and the merge goes
   * on from the parent.
   */
  ghost function MergeF(a: Arena, x: nat): (r: Arena)
    requires Wf(a) && x in a.nodes && x != Root
    ensures Wf(r)
    decreases x
  {
    if !MergesUp(a, x) then a
    else MergeF(Absorb(a, x), a.nodes[x].parent)
  }

  // ---------------------------------------------------------------------
  // delete

  /** The index of the first node in `cs[k..]` whose full label is `s`. */
  function FindLabel(a: Arena, cs: seq<nat>, s: string, k: nat): (r: Option<nat>)
    requires k <= |cs| && forall j | 0 <= j < |cs| :: cs[j] in a.nodes
    ensures r.Some? ==> k <= r.value < |cs| && Label(a.nodes[cs[r.value]]) == s
    ensures r.Some? ==> forall j | k <= j < r.value :: Label(a.nodes[cs[j]]) != s
    ensures r.None? <==> forall j | k <= j < |cs| :: Label(a.nodes[cs[j]]) != s
    decreases |cs| - k
  {
    if k == |cs| then None
    else if Label(a.nodes[cs[k]]) == s then Some(k)
    else FindLabel(a, cs, s, k + 1)
  }

  /**
   * The first step of `delete(s)` on `id`: the first child whose label is
   * `s` is removed and `isLeaf` is recomputed; nothing changes when no child
   * has that label.
   */
  ghost function RemoveChild(a: Arena, id: nat, s: string): (r: Arena)
    requires Wf(a) && id in a.nodes
    ensures Wf(r) && id in r.nodes
    ensures r.nodes[id].parent == a.nodes[id].parent && r.nodes[id].start == a.nodes[id].start
  {
    assert ChildrenOk(a, id);
    match FindLabel(a, a.nodes[id].children, s, 0)
    case None => a
    case Some(i) =>
      DetachWf(a, id, i);
      DetachNodes(a, id, i);
      var b := Detach(a, id, i);
      var n := b.nodes[id].(isLeaf := b.nodes[id].children == []);
      SetNodeWf(b, id, n);
      SetNode(b, id, n)
  }

  /**
   * `delete(s)` called on `id`. After removing the child labelled `s`, a
   * node that is now a leaf asks its parent to delete it in turn; otherwise
   * a node whose own label is the single character `s` stops being a word,
   * and any other inner node merges the leaf at the end of its chain of
   * single children upwards.
   */
  ghost function DeleteF(a: Arena, id: nat, s: string): (r: Arena)
    requires Wf(a) && id in a.nodes
    ensures Wf(r)
    decreases id
  {
    var a1 := RemoveChild(a, id, s);
    var n := a1.nodes[id];
    if n.start.Some? && n.isLeaf then
      DeleteF(a1, n.parent, Label(n))
    else if n.start.Some? && s == [n.start.value] && !n.isLeaf then
      SetNodeWf(a1, id, n.(isWord := false, data := None));
      SetNode(a1, id, n.(isWord := false, data := None))
    else if !n.isLeaf then
      match GetLeaf(a1, id)
      case Some(l) =>
        if l != id then
          ChainInSubtree(a1, id, l);
          AncestorBelow(a1, id, l);
          MergeF(a1, l)
        else a1
      case None => a1
    else a1
  }
}
