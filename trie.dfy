/**
 * Trie.java: the wrapper around the root node. `insert` checks and
 * lowercases the word; `search`, `delete` and `autocomplete` descend from the
 * root one character at a time with the same loop.
 */
module Tries {
  import opened Wrappers
  import opened TrieNodes
  import opened Descent
  import opened TrieWalks
  import opened NodeHeaps
  import opened Positions
  import opened TrieSpec

  class Trie {
    /** The nodes of the tree; the root node is `Root` in it. */
    const tree: NodeHeap

    ghost predicate Valid()
      reads this, tree
    {
      TrieNodes.Valid(tree.State())
    }

    /** `new Trie()`: a tree whose root has no children. */
    constructor ()
      ensures Valid() && fresh(tree)
      ensures tree.State() == EmptyArena() && tree.nodes[Root].children == []
    {
      tree := new NodeHeap();
    }

    /**
     * `insert(word, data)`: a word that matches `[a-zA-Z]+` is inserted
     * lowercased at the root with the positions of `data`; any other word
     * leaves the tree as it was. Afterwards a search for the lowercased word
     * finds data.
     */
    method Insert(word: string, data: Data)
      requires Valid() && data.NonEmpty()
      modifies tree
      ensures Valid()
      ensures tree.State() == TrieInsertF(old(tree.State()), word, data.positions)
      ensures IsLetters(word) ==> SearchF(tree.State(), Lower(word)).Some?
    {
      if IsLetters(word) {
        ghost var a := tree.State();
        var d := data.GetPosition();
        tree.Insert(Root, Lower(word), d);
        InsertThenSearch(a, word, d);
      }
    }

    /**
     * The descent loop: for each character of `prefix`, go to the child
     * that starts with it (None when there is none) and stop at the first
     * child whose remaining characters are the rest of the prefix. The
     * result is the node reached and the index of the loop at that point.
     */
    method Walk(prefix: string) returns (r: Option<(nat, nat)>)
      requires Valid()
      ensures r == Descend(tree.State(), Root, prefix, 0)
    {
      ghost var a := tree.State();
      var last := Root;
      var i := 0;
      while i < |prefix|
        invariant i <= |prefix| && last in tree.nodes
        invariant Descend(a, Root, prefix, 0) == Descend(a, last, prefix, i)
      {
        var child := tree.FindNode(last, prefix[i]);
        if child.None? {
          return None;
        }
        last := child.value;
        if tree.nodes[last].chars == prefix[i + 1..] {
          return Some((last, i));
        }
        i := i + 1;
      }
      return Some((last, i));
    }

    /** `search(prefix)`: the data of the node the descent reached, None when it failed. */
    method Search(prefix: string) returns (r: Option<seq<int>>)
      requires Valid()
      ensures r == SearchF(tree.State(), prefix)
    {
      var found := Walk(prefix);
      if found.None? {
        return None;
      }
      return tree.nodes[found.value.0].data;
    }

    /**
     * `delete(prefix)`: nothing when the descent fails, otherwise `delete`
     * of the rest of the prefix on the node reached. The tree stays valid.
     */
    method Delete(prefix: string)
      requires Valid()
      modifies tree
      ensures Valid()
      ensures tree.State() == TrieDeleteF(old(tree.State()), prefix)
    {
      ghost var a := tree.State();
      var found := Walk(prefix);
      if found.Some? {
        var (x, i) := found.value;
        tree.Delete(x, prefix[i..]);
      }
      TrieDeleteValid(a, prefix);
    }

    /** `autocomplete(prefix)`: the words below the node the descent reached, none when it failed. */
    method Autocomplete(prefix: string) returns (r: seq<string>)
      requires Valid()
      ensures r == AutocompleteF(tree.State(), prefix)
    {
      var found := Walk(prefix);
      if found.None? {
        return [];
      }
      return TrieWalks.Autocomplete(tree.State(), found.value.0);
    }

    /** `getRoot()`: the root node, the one without a start character, above every node. */
    method GetRoot() returns (r: nat)
      requires Valid()
      ensures r in tree.nodes && tree.nodes[r].start.None?
      ensures forall x | x in tree.nodes :: IsAncestor(tree.State(), r, x)
    {
      r := Root;
      forall x | x in tree.nodes
        ensures IsAncestor(tree.State(), r, x)
      {
        UnderRoot(tree.State(), x);
      }
    }
  }
}
