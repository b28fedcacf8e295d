/**
 * The contents of a trie as a dictionary: the position list stored under a
 * word is the data of the word node whose reconstructed word it is.
 */
module TrieContents {
  import opened Wrappers
  import opened TrieNodes
  import opened Descent

  /** `y` is a word node whose `toString()` is `w`. */
  ghost predicate WordAt(a: Arena, y: nat, w: string)
    requires Linked(a)
  {
    y in a.nodes && a.nodes[y].isWord && Word(a, y) == w
  }

  /** The data stored under `w`, or None when no word node spells `w`. */
  ghost function Lookup(a: Arena, w: string): Option<seq<int>>
    requires Linked(a)
  {
    if exists y :: WordAt(a, y, w) then
      var y :| WordAt(a, y, w);
      a.nodes[y].data
    else
      None
  }

  /** A word is looked up at the one node that spells it. */
  lemma {:induction false} LookupAt(a: Arena, y: nat, w: string)
    requires Wf(a) && CompressedLeaves(a, {}) && WordAt(a, y, w)
    ensures Lookup(a, w) == a.nodes[y].data
  {
    forall z | WordAt(a, z, w)
      ensures z == y
    {
      WordInjective(a, z, y);
    }
  }

  /** The nodes of `r` are nodes of `a` with the same links up and labels. */
  ghost predicate KeepsLabels(a: Arena, r: Arena)
  {
    forall z | z in r.nodes ::
      && z in a.nodes
      && r.nodes[z].parent == a.nodes[z].parent
      && r.nodes[z].start == a.nodes[z].start
      && r.nodes[z].chars == a.nodes[z].chars
  }

  /** Removing nodes and changing flags leaves the words of the others alone. */
  lemma {:induction false} WordSame(a: Arena, r: Arena, y: nat)
    requires Linked(a) && Linked(r) && KeepsLabels(a, r) && y in r.nodes
    ensures Word(r, y) == Word(a, y)
    decreases y
  {
    if y != Root {
      WordSame(a, r, r.nodes[y].parent);
    }
  }

  /**
   * Two trees agree on `w` when the word nodes spelling `w` are the same
   * nodes in both, with the same data.
   */
  lemma {:induction false} LookupTransfer(a: Arena, r: Arena, w: string)
    requires Wf(a) && CompressedLeaves(a, {}) && Wf(r) && CompressedLeaves(r, {})
    requires forall y | WordAt(r, y, w) :: WordAt(a, y, w) && r.nodes[y].data == a.nodes[y].data
    requires forall y | WordAt(a, y, w) :: WordAt(r, y, w)
    ensures Lookup(r, w) == Lookup(a, w)
  {
    if exists y :: WordAt(a, y, w) {
      var y :| WordAt(a, y, w);
      LookupAt(a, y, w);
      LookupAt(r, y, w);
    }
  }

  /** When only nodes are removed and labels kept, no word gains data. */
  lemma {:induction false} LookupShrinks(a: Arena, r: Arena, w: string)
    requires Wf(a) && CompressedLeaves(a, {}) && Wf(r) && CompressedLeaves(r, {})
    requires KeepsLabels(a, r)
    requires forall z | z in r.nodes :: r.nodes[z].isWord ==> a.nodes[z].isWord && r.nodes[z].data == a.nodes[z].data
    ensures Lookup(r, w).Some? ==> Lookup(r, w) == Lookup(a, w)
  {
    if Lookup(r, w).Some? {
      var y :| WordAt(r, y, w);
      WordSame(a, r, y);
      LookupAt(r, y, w);
      LookupAt(a, y, w);
    }
  }

  /** What is stored under a node's own word. */
  lemma {:induction false} LookupOwn(a: Arena, x: nat)
    requires Wf(a) && CompressedLeaves(a, {}) && x in a.nodes
    ensures Lookup(a, Word(a, x)) == if a.nodes[x].isWord then a.nodes[x].data else None
  {
    if a.nodes[x].isWord {
      LookupAt(a, x, Word(a, x));
    } else {
      forall y | WordAt(a, y, Word(a, x))
        ensures false
      {
        WordInjective(a, x, y);
      }
    }
  }

  /** The fields a node may change without changing any word. */
  ghost predicate SameLabel(a: Arena, x: nat, n: Node)
    requires x in a.nodes
  {
    && n.parent == a.nodes[x].parent && n.children == a.nodes[x].children
    && n.start == a.nodes[x].start && n.chars == a.nodes[x].chars
  }

  lemma {:induction false} SetFlagsWords(a: Arena, x: nat, n: Node)
    requires Linked(a) && x in a.nodes && SameLabel(a, x, n)
    ensures var r := a.(nodes := a.nodes[x := n]);
      Linked(r) && forall y | y in r.nodes :: Word(r, y) == Word(a, y)
  {
    var r := a.(nodes := a.nodes[x := n]);
    assert KeepsLabels(a, r);
    forall y | y in r.nodes
      ensures Word(r, y) == Word(a, y)
    {
      WordSame(a, r, y);
    }
  }

  /**
   * Changing the word flag or data of node `x` changes what is stored
   * under the word of `x` and nothing else.
   */
  lemma {:induction false} SetFlagsLookup(a: Arena, x: nat, n: Node, v: string)
    requires Wf(a) && CompressedLeaves(a, {}) && x in a.nodes && SameLabel(a, x, n)
    requires var r := a.(nodes := a.nodes[x := n]); Wf(r) && CompressedLeaves(r, {})
    ensures Lookup(a.(nodes := a.nodes[x := n]), v) ==
      if v == Word(a, x) then (if n.isWord then n.data else None) else Lookup(a, v)
  {
    var r := a.(nodes := a.nodes[x := n]);
    SetFlagsWords(a, x, n);
    if v == Word(a, x) {
      LookupOwn(r, x);
    } else {
      forall y | WordAt(r, y, v)
        ensures WordAt(a, y, v) && r.nodes[y].data == a.nodes[y].data
      {
      }
      forall y | WordAt(a, y, v)
        ensures WordAt(r, y, v)
      {
      }
      LookupTransfer(a, r, v);
    }
  }
}
