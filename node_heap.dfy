/**
 * The TrieNode objects of one tree, updated in place. The arena map is a
 * field that the methods reassign; each method performs the steps of its
 * TrieNode.java counterpart and is proved to end in the state that the
 * matching function of `TrieNodeUpdates` gives.
 */
module NodeHeaps {
  import opened Wrappers
  import opened TrieNodes
  import opened TrieNodeUpdates

  class NodeHeap {
    var nodes: map<nat, Node>
    var next: nat

    /** The arena these fields make up. */
    function State(): Arena
      reads this
    {
      Arena(nodes, next)
    }

    /** `new TrieNode()`: a tree that holds only the root, which has no children. */
    constructor ()
      ensures State() == EmptyArena()
      ensures Valid(State()) && nodes[Root].children == []
    {
      nodes := map[Root := RootNode()];
      next := 1;
      EmptyArenaValid();
    }

    /**
     * `findNode(s)` on node `id`: the loop over the children in list order,
     * returning the first whose start character is `c`.
     */
    method FindNode(id: nat, c: char) returns (r: Option<nat>)
      requires Wf(State()) && id in nodes
      ensures r == Find(State(), nodes[id].children, c)
      ensures r.Some? ==> r.value in nodes[id].children && nodes[r.value].start == Some(c)
      ensures r.None? <==> forall k | 0 <= k < |nodes[id].children| :: nodes[nodes[id].children[k]].start != Some(c)
    {
      var cs := nodes[id].children;
      assert ChildrenOk(State(), id);
      var k := 0;
      while k < |cs|
        invariant 0 <= k <= |cs|
        invariant Find(State(), cs, c) == Find(State(), cs[k..], c)
      {
        if nodes[cs[k]].start == Some(c) {
          return Some(cs[k]);
        }
        assert cs[k..][1..] == cs[k + 1..];
        k := k + 1;
      }
      return None;
    }

    /**
     * `insert(word, newData)` on node `id`, with `d` the positions of
     * `newData`: clear `isLeaf`, then add a new leaf, add a position to an
     * existing word, or split the matching child and go on below it.
     */
    method Insert(id: nat, word: string, d: seq<int>)
      requires Valid(State()) && id in nodes && |word| > 0 && |d| > 0
      modifies this
      ensures State() == InsertF(old(State()), id, word, d)
      decreases if nodes[id].children == [] then 0 else 1, |word|, 1
    {
      ghost var a := State();
      SetNodeWf(a, id, a.nodes[id].(isLeaf := false));
      nodes := nodes[id := nodes[id].(isLeaf := false)];
      var child := FindNode(id, word[0]);
      FindSame(a, State(), a.nodes[id].children, word[0]);
      if child.None? {
        var c := next;
        nodes := nodes[c := NewLeaf(id, word, d)];
        nodes := nodes[id := nodes[id].(children := nodes[id].children + [c])];
        next := next + 1;
        NewLeafIs(a, id, word, d);
      } else {
        var c := child.value;
        FoundChildIs(a, id, c, word, d);
        var ch := nodes[c];
        if ch.isWord && word == Label(ch) {
          FoundWordIs(a, id, c, word, d);
          nodes := nodes[c := ch.(data := Some(ch.data.value + [d[0]]))];
        } else {
          FoundBelowIs(a, id, c, word, d);
          InsertBelow(c, word, d);
        }
      }
    }

    /**
     * `insert` past the matched child `c`: split off its remaining
     * characters, then make `c` the word when one character was left to
     * insert, or go on inserting the rest below it.
     */
    method InsertBelow(c: nat, word: string, d: seq<int>)
      requires Valid(State()) && c in nodes && c != Root && |word| > 0 && |d| > 0
      modifies this
      ensures State() == TrieNodeUpdates.InsertBelow(old(State()), c, word, d)
      decreases 1, |word|, 0
    {
      ghost var a1 := State();
      Decompress(c);
      if |word| == 1 {
        BecomesWordIs(a1, c, word, d);
        nodes := nodes[c := nodes[c].(isWord := true, data := Some(d))];
      } else {
        InsertsRestIs(a1, c, word, d);
        Insert(c, word[1..], d);
      }
    }

    /**
     * The split step of `insert` on the matched child `c`: when it still
     * has remaining characters, they go into a new leaf below it
     * (`child.insert(child.characters, child.data)`), and the child keeps
     * only its start character and stops being a word.
     */
    method Decompress(c: nat)
      requires Valid(State()) && c in nodes && c != Root
      modifies this
      ensures State() == TrieNodeUpdates.Decompress(old(State()), c)
      decreases 0, |nodes[c].chars|, 2
    {
      ghost var a1 := State();
      var ch := nodes[c];
      if ch.chars != [] {
        DecompressIs(a1, c);
        Insert(c, ch.chars, ch.data.value);
        nodes := nodes[c := nodes[c].(isWord := false, data := None, chars := [])];
      } else {
        NoDecompressIs(a1, c);
      }
    }

    /**
     * `merge()` on node `x`: while the parent is not the root, not a word
     * and has `x` as its only child, the parent takes over the label, data
     * and word flag of `x`, drops it, and merges on upward.
     */
    method Merge(x: nat)
      requires Wf(State()) && x in nodes && x != Root
      modifies this
      ensures State() == MergeF(old(State()), x)
      decreases x
    {
      var p := nodes[x].parent;
      var pn := nodes[p];
      if pn.start.None? || pn.isWord || |pn.children| != 1 {
        return;
      }
      ghost var a := State();
      assert p != Root && ChildrenOk(a, p);
      DetachNodes(a, p, 0);
      var xn := nodes[x];
      var b := Detach(State(), p, 0);
      nodes := b.nodes[p := b.nodes[p].(isWord := true, isLeaf := true, data := xn.data,
                                        chars := pn.chars + Label(xn))];
      assert State() == Absorb(a, x);
      Merge(p);
    }

    /**
     * `delete(s)` on node `id`: the index loop removes the first child whose
     * full label is `s`; then a childless non-root node asks its parent to
     * delete it, a node whose start character is `s` stops being a word,
     * and any other inner node merges the leaf at the end of its chain of
     * single children upwards.
     */
    method Delete(id: nat, s: string)
      requires Wf(State()) && id in nodes
      modifies this
      ensures State() == DeleteF(old(State()), id, s)
      decreases id
    {
      RemoveLabelled(id, s);
      ghost var a1 := State();
      var n := nodes[id];
      // After the cascade this node is detached; its own fields, kept in
      // `n`, still say it is a leaf, so the steps below do nothing.
      if n.start.Some? && n.isLeaf {
        assert id != Root && ParentOk(a1, id);
        Delete(n.parent, Label(n));
      }
      if n.start.Some? && s == [n.start.value] && !n.isLeaf {
        nodes := nodes[id := n.(isWord := false, data := None)];
      } else if !n.isLeaf {
        var leaf := GetLeaf(State(), id);
        if leaf.Some? && leaf.value != id {
          ChainInSubtree(a1, id, leaf.value);
          AncestorBelow(a1, id, leaf.value);
          Merge(leaf.value);
        }
      }
    }

    /**
     * The index loop of `delete(s)` on node `id`: remove the first child
     * whose full label is `s`, then set `isLeaf` to whether no child is left.
     */
    method RemoveLabelled(id: nat, s: string)
      requires Wf(State()) && id in nodes
      modifies this
      ensures State() == RemoveChild(old(State()), id, s)
    {
      ghost var a := State();
      assert ChildrenOk(a, id);
      var cs := nodes[id].children;
      var i := 0;
      while i < |cs| && Label(nodes[cs[i]]) != s
        invariant 0 <= i <= |cs|
        invariant FindLabel(a, cs, s, 0) == FindLabel(a, cs, s, i)
      {
        i := i + 1;
      }
      if i < |cs| {
        RemoveLabelledIs(a, id, s, i);
        var b := Detach(State(), id, i);
        nodes := b.nodes[id := b.nodes[id].(isLeaf := b.nodes[id].children == [])];
      }
    }
  }

  // ---------------------------------------------------------------------
  // The steps of `InsertF`, one at a time, for `NodeHeap.Insert`.

  /** A new leaf: `InsertF` is `AddLeaf`, built in the order the Java code builds it. */
  lemma {:induction false} NewLeafIs(a: Arena, id: nat, word: string, d: seq<int>)
    requires Valid(a) && id in a.nodes && |word| > 0 && |d| > 0
    requires Find(a, a.nodes[id].children, word[0]).None?
    ensures var c := a.next;
      var m := a.nodes[id := a.nodes[id].(isLeaf := false)][c := NewLeaf(id, word, d)];
      Arena(m[id := m[id].(children := m[id].children + [c])], c + 1) == InsertF(a, id, word, d)
  {
    assert Bounded(a);
    assert InsertF(a, id, word, d) == AddLeaf(a, id, word, d);
    UpdateOrder(a.nodes, id, a.next, NewLeaf(id, word, d));
  }

  /** Adding the leaf before or after listing it as a child gives the same map. */
  lemma {:induction false} UpdateOrder(m: map<nat, Node>, id: nat, c: nat, leaf: Node)
    requires id in m && c !in m
    ensures var m1 := m[id := m[id].(isLeaf := false)][c := leaf];
      m1[id := m1[id].(children := m1[id].children + [c])]
      == m[id := m[id].(isLeaf := false, children := m[id].children + [c])][c := leaf]
  {
  }

  /** A child starting with `word[0]` exists: `InsertF` goes on at that child. */
  lemma {:induction false} FoundChildIs(a: Arena, id: nat, c: nat, word: string, d: seq<int>)
    requires Valid(a) && id in a.nodes && |word| > 0 && |d| > 0
    requires Find(a, a.nodes[id].children, word[0]) == Some(c)
    ensures c in a.nodes && c != Root
    ensures var a1 := SetNode(a, id, a.nodes[id].(isLeaf := false));
      && Valid(a1) && c in a1.nodes && a1.nodes[c] == a.nodes[c]
      && (a.nodes[c].isWord ==> a.nodes[c].data.Some?)
  {
    ChildIn(a, id, c);
    ClearLeafPost(a, id);
    assert NodeShape(a.nodes[c]);
  }

  /** The child spells the whole word and is one already: its position list grows. */
  lemma {:induction false} FoundWordIs(a: Arena, id: nat, c: nat, word: string, d: seq<int>)
    requires Valid(a) && id in a.nodes && |word| > 0 && |d| > 0
    requires Find(a, a.nodes[id].children, word[0]) == Some(c)
    requires c in a.nodes && a.nodes[c].isWord && a.nodes[c].data.Some? && word == Label(a.nodes[c])
    ensures var a1 := SetNode(a, id, a.nodes[id].(isLeaf := false));
      var ch := a.nodes[c];
      InsertF(a, id, word, d) == SetNode(a1, c, ch.(data := Some(ch.data.value + [d[0]])))
  {
  }

  /** Otherwise the insert goes on below the child. */
  lemma {:induction false} FoundBelowIs(a: Arena, id: nat, c: nat, word: string, d: seq<int>)
    requires Valid(a) && id in a.nodes && |word| > 0 && |d| > 0
    requires Find(a, a.nodes[id].children, word[0]) == Some(c)
    requires c in a.nodes && c != Root && !(a.nodes[c].isWord && word == Label(a.nodes[c]))
    requires var a1 := SetNode(a, id, a.nodes[id].(isLeaf := false)); Valid(a1) && c in a1.nodes
    ensures InsertF(a, id, word, d) == InsertBelow(SetNode(a, id, a.nodes[id].(isLeaf := false)), c, word, d)
  {
  }

  /** Splitting off the remaining characters of a child: they are inserted below it, then it is cleared. */
  lemma {:induction false} DecompressIs(a1: Arena, c: nat)
    requires Valid(a1) && c in a1.nodes && c != Root && a1.nodes[c].chars != []
    ensures var ch := a1.nodes[c];
      && ch.children == [] && ch.data.Some? && |ch.data.value| > 0
      && Decompress(a1, c) == var t := InsertF(a1, c, ch.chars, ch.data.value);
           SetNode(t, c, t.nodes[c].(isWord := false, data := None, chars := []))
  {
    assert NodeShape(a1.nodes[c]);
  }

  /** A child without remaining characters is not split. */
  lemma {:induction false} NoDecompressIs(a1: Arena, c: nat)
    requires Valid(a1) && c in a1.nodes && c != Root && a1.nodes[c].chars == []
    ensures Decompress(a1, c) == a1
  {
  }

  /** The child at index `i` is the first labelled `s`: `RemoveChild` detaches it and updates `isLeaf`. */
  lemma {:induction false} RemoveLabelledIs(a: Arena, id: nat, s: string, i: nat)
    requires Wf(a) && id in a.nodes
    requires (assert ChildrenOk(a, id); FindLabel(a, a.nodes[id].children, s, 0) == Some(i))
    ensures i < |a.nodes[id].children|
    ensures var b := Detach(a, id, i);
      && id in b.nodes
      && RemoveChild(a, id, s) == Arena(b.nodes[id := b.nodes[id].(isLeaf := b.nodes[id].children == [])], b.next)
  {
    assert ChildrenOk(a, id);
    DetachNodes(a, id, i);
  }

  /** After the split, when one character was left, the child becomes the word. */
  lemma {:induction false} BecomesWordIs(a1: Arena, c: nat, word: string, d: seq<int>)
    requires Valid(a1) && c in a1.nodes && c != Root && |word| == 1 && |d| > 0
    ensures var a2 := Decompress(a1, c);
      c in a2.nodes && InsertBelow(a1, c, word, d) == SetNode(a2, c, a2.nodes[c].(isWord := true, data := Some(d)))
  {
  }

  /** After the split, when more characters were left, the rest is inserted below the child. */
  lemma {:induction false} InsertsRestIs(a1: Arena, c: nat, word: string, d: seq<int>)
    requires Valid(a1) && c in a1.nodes && c != Root && |word| > 1 && |d| > 0
    ensures var a2 := Decompress(a1, c);
      Valid(a2) && c in a2.nodes && InsertBelow(a1, c, word, d) == InsertF(a2, c, word[1..], d)
  {
  }
}
