/**
 * A `delete` that removes exactly the word it is given. Trie.java's `delete`
 * also removes other stored words in some trees (TrieSpec.TrieDeleteTakesRepeat
 * and TrieSpec.TrieDeleteTakesShorter); this is the behaviour its callers
 * evidently expect. After the same descent, a word node with children only
 * loses its word, and a childless one is removed together with the
 * ancestors that are then childless and store no word.
 */
module WordDeletes {
  import opened Wrappers
  import opened TrieNodes
  import opened Descent
  import opened TrieContents
  import opened TrieNodeUpdates
  import opened TrieNodeDeletes
  import opened TrieSpec

  /**
   * Removes the childless node `y` from its parent's children, then each
   * ancestor that this leaves childless and that stores no word.
   */
  ghost function PruneF(a: Arena, y: nat): (r: Arena)
    requires Wf(a) && y in a.nodes && y != Root
    ensures Wf(r)
    decreases y
  {
    var p := a.nodes[y].parent;
    var a1 := RemoveChild(a, p, Label(a.nodes[y]));
    var q := a1.nodes[p];
    if p != Root && q.children == [] && !q.isWord then PruneF(a1, p) else a1
  }

  /**
   * `delete(w)` as intended: nothing unless the descent stops at the word
   * node of `w`; that node loses its word when it has children and is pruned
   * when it has none.
   */
  ghost function WordDeleteF(a: Arena, w: string): (r: Arena)
    requires Wf(a)
    ensures Wf(r)
  {
    match Descend(a, Root, w, 0)
    case None => a
    case Some((x, _)) =>
      var n := a.nodes[x];
      var m := n.(isWord := false, data := None);
      if x == Root || !n.isWord || Word(a, x) != w then a
      else if n.children == [] then PruneF(a, x)
      else SetNodeWf(a, x, m); SetNode(a, x, m)
  }

  // ---------------------------------------------------------------------
  // Laws

  /** Removing the childless node `y` from its parent keeps every other node. */
  lemma {:induction false} PruneStep(a: Arena, y: nat)
    requires Wf(a) && y in a.nodes && y != Root && a.nodes[y].children == []
    ensures var r := RemoveChild(a, a.nodes[y].parent, Label(a.nodes[y]));
      forall z | z in a.nodes && z != y :: z in r.nodes
  {
    var p := a.nodes[y].parent;
    var s := Label(a.nodes[y]);
    var cs := a.nodes[p].children;
    assert ParentOk(a, y) && ChildrenOk(a, p);
    var k :| 0 <= k < |cs| && cs[k] == y;
    RemoveChildIs(a, p, s);
    var i := FindLabel(a, cs, s, 0).value;
    LabelUnique(a, p, i, k);
    forall z | z in a.nodes && z != y
      ensures z in RemoveChild(a, p, s).nodes
    {
      ChildlessSubtree(a, y, z);
    }
  }

  /** One pruning step stores every word but the word of `y`, with its positions. */
  lemma {:induction false} PruneStepLookup(a: Arena, y: nat)
    requires Wf(a) && Shape(a) && CompressedLeaves(a, {}) && LeavesAreWords(a, {y})
    requires y in a.nodes && y != Root && a.nodes[y].children == []
    ensures var r := RemoveChild(a, a.nodes[y].parent, Label(a.nodes[y]));
      && Wf(r) && Shape(r) && CompressedLeaves(r, {}) && LeavesAreWords(r, {a.nodes[y].parent})
      && KeepsLabels(a, r)
      && Lookup(r, Word(a, y)) == None
      && forall v | v != Word(a, y) :: Lookup(r, v) == Lookup(a, v)
  {
    var p := a.nodes[y].parent;
    var s := Label(a.nodes[y]);
    var r := RemoveChild(a, p, s);
    assert ParentOk(a, y);
    RemoveChildKeeps(a, p, s, {y});
    PruneStep(a, y);
    CutPrefixGone(a, r, y, Word(a, y));
    forall z | z in r.nodes
      ensures Word(r, z) == Word(a, z)
    {
      WordSame(a, r, z);
    }
    forall v | v != Word(a, y)
      ensures Lookup(r, v) == Lookup(a, v)
    {
      LookupTransfer(a, r, v);
    }
  }

  /**
   * Pruning the childless node `y` keeps the tree valid, removes the word of
   * `y` and keeps every other stored word with its positions.
   */
  lemma {:induction false} PruneKeeps(a: Arena, y: nat)
    requires Wf(a) && Shape(a) && CompressedLeaves(a, {}) && LeavesAreWords(a, {y})
    requires y in a.nodes && y != Root && a.nodes[y].children == []
    ensures var r := PruneF(a, y);
      && Valid(r)
      && Lookup(r, Word(a, y)) == None
      && forall v | v != Word(a, y) :: Lookup(r, v) == Lookup(a, v)
    decreases y
  {
    var p := a.nodes[y].parent;
    var a1 := RemoveChild(a, p, Label(a.nodes[y]));
    PruneStepLookup(a, y);
    var q := a1.nodes[p];
    if p != Root && q.children == [] && !q.isWord {
      PruneKeeps(a1, p);
      WordSame(a, a1, p);
      LookupOwn(a1, p);
      assert ParentOk(a, y);
      assert Word(a, y) == Word(a, p) + Label(a.nodes[y]);
    }
  }

  /** When `w` is not stored, the intended `delete(w)` changes nothing. */
  lemma {:induction false} WordDeleteMiss(a: Arena, w: string)
    requires Valid(a) && Lookup(a, w).None?
    ensures WordDeleteF(a, w) == a
  {
    match Descend(a, Root, w, 0)
    case None =>
    case Some((x, _)) =>
      LookupOwn(a, x);
  }

  /**
   * Pruning the node of `w`, which has no children, leaves no stored word
   * that starts with `w`.
   */
  lemma {:induction false} PrunedPrefix(a: Arena, y: nat, w: string)
    requires Valid(a) && WordAt(a, y, w) && y != Root && a.nodes[y].children == []
    ensures forall t | w <= t :: Lookup(PruneF(a, y), t) == None
  {
    PruneKeeps(a, y);
    forall t | w <= t && t != w && Lookup(a, t).Some?
      ensures false
    {
      var b :| WordAt(a, b, t);
      PrefixMeansAncestor(a, y, b);
      ChildlessSubtree(a, y, b);
    }
  }

  /**
   * The intended `delete(w)` keeps the tree valid, removes `w` and keeps
   * every other stored word with its positions; when `w` was stored,
   * `search(w)` then returns null.
   */
  lemma {:induction false} WordDeleteExact(a: Arena, w: string)
    requires Valid(a)
    ensures var r := WordDeleteF(a, w);
      && Valid(r)
      && (forall v :: Lookup(r, v) == if v == w then None else Lookup(a, v))
      && (Lookup(a, w).Some? ==> SearchF(r, w) == None)
  {
    if Lookup(a, w).None? {
      WordDeleteMiss(a, w);
    } else {
      var y := DescendToWord(a, w);
      var n := a.nodes[y];
      assert NodeShape(n);
      if n.children == [] {
        assert WordDeleteF(a, w) == PruneF(a, y);
        PruneKeeps(a, y);
        PrunedPrefix(a, y, w);
        SearchGone(PruneF(a, y), y, w);
      } else {
        var m := n.(isWord := false, data := None);
        assert WordDeleteF(a, w) == SetNode(a, y, m);
        assert CompressedLeaves(a, {}) && n.chars == [];
        SetNodeKeeps(a, y, m, {});
        assert {} - {y} == {};
        DemoteLookup(a, y, m);
        SetFlagsWords(a, y, m);
        SearchGone(SetNode(a, y, m), y, w);
      }
    }
  }
}
