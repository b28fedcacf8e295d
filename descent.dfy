/**
 * The descent loop that Trie.java's `search`, `delete` and `autocomplete`
 * share, and what it finds in a well-formed tree: it reaches every node along
 * the node's own word, a word that is a prefix of another belongs to an
 * ancestor, and no two nodes reconstruct the same word.
 */
module Descent {
  import opened Wrappers
  import opened TrieNodes

  /**
   * The loop `for (i...) { lastNode = lastNode.findNode(prefix[i]); ... }`
   * continued from node `cur` at index `i`. None when a character has no
   * matching child; otherwise the node where the loop stopped and the final
   * value of `i`: the index of the `break` (taken at the first node whose
   * `characters` equal the rest of the prefix), or `|prefix|` when the loop
   * ran to its end.
   */
  function Descend(a: Arena, cur: nat, prefix: string, i: nat): (r: Option<(nat, nat)>)
    requires ChildrenIn(a) && cur in a.nodes && i <= |prefix|
    ensures r.Some? ==> r.value.0 in a.nodes && i <= r.value.1 <= |prefix|
    ensures r.Some? && r.value.1 < |prefix| ==>
      && a.nodes[r.value.0].start == Some(prefix[r.value.1])
      && a.nodes[r.value.0].chars == prefix[r.value.1 + 1..]
    decreases |prefix| - i
  {
    if i == |prefix| then Some((cur, i))
    else
      match Find(a, a.nodes[cur].children, prefix[i])
      case None => None
      case Some(c) =>
        if a.nodes[c].chars == prefix[i + 1..] then Some((c, i))
        else Descend(a, c, prefix, i + 1)
  }

  /** The descent never leaves the subtree it starts in. */
  lemma {:induction false} DescendBelow(a: Arena, cur: nat, prefix: string, i: nat)
    requires Wf(a) && cur in a.nodes && i <= |prefix|
    requires Descend(a, cur, prefix, i).Some?
    ensures IsAncestor(a, cur, Descend(a, cur, prefix, i).value.0)
    decreases |prefix| - i
  {
    if i < |prefix| {
      assert ChildrenOk(a, cur);
      var c := Find(a, a.nodes[cur].children, prefix[i]).value;
      if a.nodes[c].chars != prefix[i + 1..] {
        assert Descend(a, cur, prefix, i) == Descend(a, c, prefix, i + 1);
        DescendBelow(a, c, prefix, i + 1);
        AncestorOfChild(a, cur, c, Descend(a, c, prefix, i + 1).value.0);
      } else {
        assert Descend(a, cur, prefix, i) == Some((c, i));
        AncestorOfChild(a, cur, c, c);
      }
    }
  }

  /** Every node lies in the subtree of the root. */
  lemma {:induction false} UnderRoot(a: Arena, x: nat)
    requires Linked(a) && x in a.nodes
    ensures IsAncestor(a, Root, x)
    decreases x
  {
    if x != Root {
      UnderRoot(a, a.nodes[x].parent);
    }
  }

  /** The word of a node extends the word of each of its ancestors. */
  lemma {:induction false} AncestorWordPrefix(a: Arena, u: nat, x: nat)
    requires Linked(a) && u in a.nodes && x in a.nodes && IsAncestor(a, u, x)
    ensures Word(a, u) <= Word(a, x)
    decreases x
  {
    if x != u {
      AncestorWordPrefix(a, u, a.nodes[x].parent);
    }
  }

  /** A node with children has no remaining characters, so its word ends at it. */
  lemma {:induction false} ParentHasNoChars(a: Arena, x: nat)
    requires Wf(a) && CompressedLeaves(a, {}) && x in a.nodes && x != Root
    ensures ParentOk(a, x)
    ensures a.nodes[a.nodes[x].parent].chars == []
    ensures Word(a, x) == Word(a, a.nodes[x].parent) + [a.nodes[x].start.value] + a.nodes[x].chars
  {
    assert ParentOk(a, x);
  }

  /**
   * Descending along a string that extends the word of a node `u` without
   * remaining characters passes through `u`.
   */
  lemma {:induction false} DescendThrough(a: Arena, u: nat, w: string)
    requires Wf(a) && CompressedLeaves(a, {}) && u in a.nodes && a.nodes[u].chars == []
    requires |Word(a, u)| < |w| && Word(a, u) <= w
    ensures Descend(a, Root, w, 0) == Descend(a, u, w, |Word(a, u)|)
    decreases u
  {
    if u != Root {
      var p := a.nodes[u].parent;
      ParentHasNoChars(a, u);
      var k := |Word(a, p)|;
      DescendThrough(a, p, w);
      FindChild(a, p, u);
      assert Word(a, u) == Word(a, p) + [a.nodes[u].start.value];
      assert |Word(a, u)| == k + 1;
      assert w[k] == a.nodes[u].start.value;
      DescendInto(a, p, u, w, k);
    } else {
      assert |Word(a, u)| == 0;
    }
  }

  /** One step of the descent into a child whose remaining characters are not the rest of the string. */
  lemma {:induction false} DescendInto(a: Arena, cur: nat, c: nat, w: string, i: nat)
    requires Wf(a) && cur in a.nodes && i + 1 < |w|
    requires (assert ChildrenOk(a, cur); Find(a, a.nodes[cur].children, w[i]) == Some(c))
    requires a.nodes[c].chars == []
    ensures Descend(a, cur, w, i) == Descend(a, c, w, i + 1)
  {
    assert ChildrenOk(a, cur);
    assert w[i + 1..] != [];
  }

  /** The descent along the word of a non-root node stops at that node. */
  lemma {:induction false} DescendFindsNode(a: Arena, n: nat)
    requires Wf(a) && CompressedLeaves(a, {}) && n in a.nodes && n != Root
    ensures Descend(a, Root, Word(a, n), 0).Some?
    ensures Descend(a, Root, Word(a, n), 0).value.0 == n
    ensures Descend(a, Root, Word(a, n), 0).value.1 < |Word(a, n)|
  {
    var p := a.nodes[n].parent;
    var w := Word(a, n);
    ParentHasNoChars(a, n);
    var k := |Word(a, p)|;
    DescendThrough(a, p, w);
    FindChild(a, p, n);
    assert w[k] == a.nodes[n].start.value;
    assert w[k + 1..] == a.nodes[n].chars;
  }

  /** Two nodes with the same reconstructed word are the same node. */
  lemma {:induction false} WordInjective(a: Arena, u: nat, v: nat)
    requires Wf(a) && CompressedLeaves(a, {}) && u in a.nodes && v in a.nodes
    requires Word(a, u) == Word(a, v)
    ensures u == v
  {
    if u == Root || v == Root {
      assert |Word(a, u)| == 0 && |Word(a, v)| == 0;
      if u != Root { ParentHasNoChars(a, u); }
      if v != Root { ParentHasNoChars(a, v); }
    } else {
      DescendFindsNode(a, u);
      DescendFindsNode(a, v);
    }
  }

  /**
   * A node with remaining characters has no children, so its word is never
   * a proper prefix of another node's word.
   */
  lemma {:induction false} LeafWordNotProperPrefix(a: Arena, u: nat, v: nat)
    requires Wf(a) && CompressedLeaves(a, {}) && u in a.nodes && v in a.nodes && u != Root
    requires a.nodes[u].chars != [] && |Word(a, u)| < |Word(a, v)|
    ensures !(Word(a, u) <= Word(a, v))
  {
    var wv := Word(a, v);
    if Word(a, u) <= wv {
      var p := a.nodes[u].parent;
      ParentHasNoChars(a, u);
      var k := |Word(a, p)|;
      assert wv[k] == Word(a, u)[k];
      assert |wv[k + 1..]| != |a.nodes[u].chars|;
      DescendThrough(a, p, wv);
      DescendStep(a, p, u, wv, k);
      DescendDeadEnd(a, u, wv, k + 1);
      DescendFindsNode(a, v);
    }
  }

  /** One step of the descent from `p` into its child `u` without stopping. */
  lemma {:induction false} DescendStep(a: Arena, p: nat, u: nat, w: string, k: nat)
    requires Wf(a) && p in a.nodes && u in a.nodes[p].children && k < |w|
    requires a.nodes[u].start == Some(w[k]) && a.nodes[u].chars != w[k + 1..]
    ensures Descend(a, p, w, k) == Descend(a, u, w, k + 1)
  {
    FindChild(a, p, u);
  }

  /** The descent fails at a childless node with characters left to match. */
  lemma {:induction false} DescendDeadEnd(a: Arena, u: nat, w: string, i: nat)
    requires Wf(a) && u in a.nodes && a.nodes[u].children == [] && i < |w|
    ensures Descend(a, u, w, i).None?
  {
  }

  /** When the word of `u` is a prefix of the word of `v`, `v` lies below `u`. */
  lemma {:induction false} PrefixMeansAncestor(a: Arena, u: nat, v: nat)
    requires Wf(a) && CompressedLeaves(a, {}) && u in a.nodes && v in a.nodes
    requires Word(a, u) <= Word(a, v)
    ensures IsAncestor(a, u, v)
  {
    var wv := Word(a, v);
    if u == Root {
      UnderRoot(a, v);
    } else if |Word(a, u)| == |wv| {
      assert Word(a, u) == wv;
      WordInjective(a, u, v);
    } else if a.nodes[u].chars == [] {
      assert v != Root;
      DescendFindsNode(a, v);
      DescendThrough(a, u, wv);
      DescendBelow(a, u, wv, |Word(a, u)|);
    } else {
      LeafWordNotProperPrefix(a, u, v);
    }
  }
}
