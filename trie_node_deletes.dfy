/**
 * What `merge` and `delete` of TrieNode.java do to the tree: they keep the
 * shape invariants, `merge` keeps every stored word and its positions, and
 * `delete` only ever removes words, never adds or changes one.
 */
module TrieNodeDeletes {
  import opened Wrappers
  import opened TrieNodes
  import opened Descent
  import opened TrieContents
  import opened TrieNodeUpdates

  /** A childless node is alone in its subtree. */
  lemma {:induction false} ChildlessSubtree(a: Arena, x: nat, y: nat)
    requires Wf(a) && x in a.nodes && a.nodes[x].children == [] && y in a.nodes
    ensures IsAncestor(a, x, y) <==> y == x
  {
    if IsAncestor(a, x, y) && y != x {
      var c := AncestorViaChild(a, x, y);
    }
  }

  /**
   * The words of nodes off the path through `p` depend only on the labels
   * and parent links of the nodes other than `p`.
   */
  lemma {:induction false} WordOffPath(a: Arena, r: Arena, p: nat, y: nat)
    requires Linked(a) && Linked(r) && y in r.nodes && !IsAncestor(r, p, y)
    requires forall z | z in r.nodes && z != p ::
      z in a.nodes && r.nodes[z].parent == a.nodes[z].parent
      && r.nodes[z].start == a.nodes[z].start && r.nodes[z].chars == a.nodes[z].chars
    ensures Word(r, y) == Word(a, y)
    decreases y
  {
    if y != Root {
      WordOffPath(a, r, p, r.nodes[y].parent);
    }
  }

  // ---------------------------------------------------------------------
  // merge

  /** One step of `merge()` written out: the parent of `x`. */
  lemma {:induction false} AbsorbIs(a: Arena, x: nat)
    requires Wf(a) && x in a.nodes && x != Root && MergesUp(a, x)
    ensures var p := a.nodes[x].parent;
      && p != Root && a.nodes[p].children == [x] && p in Absorb(a, x).nodes
      && Absorb(a, x).nodes[p] == a.nodes[p].(children := [], isWord := true, isLeaf := true,
                                   data := a.nodes[x].data, chars := a.nodes[p].chars + Label(a.nodes[x]))
  {
    var p := AbsorbUnfold(a, x);
  }

  /** One step of `merge()` written out: the subtree of `x` leaves, every other node stays as it was. */
  lemma {:induction false} AbsorbOthers(a: Arena, x: nat)
    requires Wf(a) && x in a.nodes && x != Root && MergesUp(a, x)
    ensures var r := Absorb(a, x);
      && (forall y :: y in r.nodes <==> y in a.nodes && !IsAncestor(a, x, y))
      && (forall y | y in r.nodes && y != a.nodes[x].parent :: r.nodes[y] == a.nodes[y])
  {
    var p := AbsorbUnfold(a, x);
  }

  /** `Absorb` as the parent update after detaching `x`, its only child. */
  lemma {:induction false} AbsorbUnfold(a: Arena, x: nat) returns (p: nat)
    requires Wf(a) && x in a.nodes && x != Root && MergesUp(a, x)
    ensures p == a.nodes[x].parent && p != Root && a.nodes[p].children == [x] && p < x
    ensures var b := Detach(a, p, 0);
      && (forall y :: y in b.nodes <==> y in a.nodes && !IsAncestor(a, x, y))
      && p in b.nodes && b.nodes[p] == a.nodes[p].(children := [])
      && (forall y | y in b.nodes && y != p :: b.nodes[y] == a.nodes[y])
      && Absorb(a, x) == SetNode(b, p, b.nodes[p].(isWord := true, isLeaf := true, data := a.nodes[x].data,
                                                  chars := a.nodes[p].chars + Label(a.nodes[x])))
  {
    p := a.nodes[x].parent;
    var cs := a.nodes[p].children;
    assert ParentOk(a, x);
    assert x in cs && |cs| == 1;
    assert cs == [x];
    assert ChildrenOk(a, p);
    DetachNodes(a, p, 0);
    assert RemoveAt(cs, 0) == [];
  }

  /**
   * The step of `merge()` on a childless node `x`: the tree stays valid, the
   * parent now spells the word `x` spelled (its `toString()` is the former
   * `toString()` of `x`) and holds the data of `x`, and `x` is gone.
   */
  lemma {:induction false} AbsorbKeeps(a: Arena, x: nat)
    requires Valid(a) && x in a.nodes && x != Root && a.nodes[x].children == [] && MergesUp(a, x)
    ensures var p := a.nodes[x].parent;
      var r := Absorb(a, x);
      && Valid(r) && x !in r.nodes && r.nodes[p].children == []
      && Word(r, p) == Word(a, x) && r.nodes[p].isWord && r.nodes[p].data == a.nodes[x].data
      && (forall y | y in r.nodes && y != p :: Word(r, y) == Word(a, y) && r.nodes[y] == a.nodes[y])
  {
    var p := a.nodes[x].parent;
    var r := Absorb(a, x);
    AbsorbIs(a, x);
    AbsorbOthers(a, x);
    forall y | y in a.nodes
      ensures IsAncestor(a, x, y) <==> y == x
    {
      ChildlessSubtree(a, x, y);
    }
    assert NodeShape(a.nodes[x]);
    assert Valid(r);
    forall y | y in r.nodes && y != p
      ensures Word(r, y) == Word(a, y)
    {
      ChildlessSubtree(r, p, y);
      WordOffPath(a, r, p, y);
    }
    AbsorbWord(a, x, r);
  }

  lemma {:induction false} AbsorbWord(a: Arena, x: nat, r: Arena)
    requires Wf(a) && x in a.nodes && x != Root
    requires var p := a.nodes[x].parent;
      && p != Root && Linked(r) && p in r.nodes && r.nodes[p].parent == a.nodes[p].parent
      && r.nodes[p].start == a.nodes[p].start
      && r.nodes[p].chars == a.nodes[p].chars + Label(a.nodes[x])
      && Word(r, a.nodes[p].parent) == Word(a, a.nodes[p].parent)
    ensures Word(r, a.nodes[x].parent) == Word(a, x)
  {
    var p := a.nodes[x].parent;
    assert ParentOk(a, p);
    var u := Word(a, a.nodes[p].parent);
    var st := [a.nodes[p].start.value];
    assert Label(r.nodes[p]) == st + (a.nodes[p].chars + Label(a.nodes[x]));
    assert Word(a, p) == u + (st + a.nodes[p].chars);
  }

  /** `merge()` on a childless node keeps the tree valid. */
  lemma {:induction false} MergeValid(a: Arena, x: nat)
    requires Valid(a) && x in a.nodes && x != Root && a.nodes[x].children == []
    ensures Valid(MergeF(a, x))
    decreases x
  {
    if MergesUp(a, x) {
      AbsorbKeeps(a, x);
      MergeValid(Absorb(a, x), a.nodes[x].parent);
    }
  }

  /** The step of `merge()` changes no stored word and no position list. */
  lemma {:induction false} AbsorbLookup(a: Arena, x: nat, v: string)
    requires Valid(a) && x in a.nodes && x != Root && a.nodes[x].children == [] && MergesUp(a, x)
    ensures Lookup(Absorb(a, x), v) == Lookup(a, v)
  {
    var p := a.nodes[x].parent;
    var r := Absorb(a, x);
    AbsorbKeeps(a, x);
    forall y | y in a.nodes && y != x
      ensures y in r.nodes
    {
      AbsorbOthers(a, x);
      ChildlessSubtree(a, x, y);
    }
    if y :| WordAt(a, y, v) {
      LookupAt(a, y, v);
      var y' := if y == x then p else y;
      assert WordAt(r, y', v);
      LookupAt(r, y', v);
    } else {
      forall y | WordAt(r, y, v)
        ensures false
      {
        assert WordAt(a, if y == p then x else y, v);
      }
    }
  }

  /**
   * `merge()` on a childless node changes no stored word and no position
   * list: the data of every word, the merged one included, is as before.
   */
  lemma {:induction false} MergeLookup(a: Arena, x: nat, v: string)
    requires Valid(a) && x in a.nodes && x != Root && a.nodes[x].children == []
    ensures Lookup(MergeF(a, x), v) == Lookup(a, v)
    decreases x
  {
    if MergesUp(a, x) {
      AbsorbKeeps(a, x);
      AbsorbLookup(a, x, v);
      MergeLookup(Absorb(a, x), a.nodes[x].parent, v);
    }
  }

  // ---------------------------------------------------------------------
  // delete

  /**
   * The first step of `delete(s)` written out: when some child's full label
   * is `s`, the first such child leaves the child list together with its
   * subtree and `isLeaf` becomes "no children left"; otherwise nothing
   * changes.
   */
  lemma {:induction false} RemoveChildIs(a: Arena, id: nat, s: string)
    requires Wf(a) && id in a.nodes
    ensures var cs := a.nodes[id].children;
      var r := RemoveChild(a, id, s);
      match FindLabel(a, cs, s, 0)
      case None => r == a
      case Some(i) =>
        && r.next == a.next
        && (forall y :: y in r.nodes <==> y in a.nodes && !IsAncestor(a, cs[i], y))
        && r.nodes[id] == a.nodes[id].(children := RemoveAt(cs, i), isLeaf := |cs| == 1)
        && (forall y | y in r.nodes && y != id :: r.nodes[y] == a.nodes[y])
  {
    var cs := a.nodes[id].children;
    assert ChildrenOk(a, id);
    match FindLabel(a, cs, s, 0)
    case None =>
    case Some(i) =>
      DetachNodes(a, id, i);
  }

  /** Two children of one node with the same full label are the same child. */
  lemma {:induction false} LabelUnique(a: Arena, id: nat, j: nat, k: nat)
    requires Wf(a) && id in a.nodes && j < |a.nodes[id].children| && k < |a.nodes[id].children|
    requires Label(a.nodes[a.nodes[id].children[j]]) == Label(a.nodes[a.nodes[id].children[k]])
    ensures j == k
  {
    var cs := a.nodes[id].children;
    assert ChildrenOk(a, id);
    assert ParentOk(a, cs[j]) && ParentOk(a, cs[k]);
    assert Label(a.nodes[cs[j]])[0] == a.nodes[cs[j]].start.value;
    assert Label(a.nodes[cs[k]])[0] == a.nodes[cs[k]].start.value;
  }

  /** Removing a child changes no label, parent link, word flag or data. */
  lemma {:induction false} RemoveChildLabels(a: Arena, id: nat, s: string)
    requires Wf(a) && id in a.nodes
    ensures var r := RemoveChild(a, id, s);
      && KeepsLabels(a, r)
      && (forall z | z in r.nodes :: r.nodes[z].isWord == a.nodes[z].isWord && r.nodes[z].data == a.nodes[z].data)
  {
    var cs := a.nodes[id].children;
    RemoveChildIs(a, id, s);
    match FindLabel(a, cs, s, 0)
    case None =>
    case Some(i) =>
      var r := RemoveChild(a, id, s);
      forall z | z in r.nodes
        ensures z in a.nodes && r.nodes[z] == a.nodes[z].(children := r.nodes[z].children, isLeaf := r.nodes[z].isLeaf)
      {
      }
  }

  /** Removing a child keeps the shape of every node and of the root. */
  lemma {:induction false} RemoveChildShape(a: Arena, id: nat, s: string)
    requires Wf(a) && Shape(a) && CompressedLeaves(a, {}) && id in a.nodes
    ensures var r := RemoveChild(a, id, s);
      Shape(r) && CompressedLeaves(r, {})
  {
    var cs := a.nodes[id].children;
    RemoveChildIs(a, id, s);
    match FindLabel(a, cs, s, 0)
    case None =>
    case Some(i) =>
      var r := RemoveChild(a, id, s);
      assert NodeShape(a.nodes[id]);
      forall y | y in r.nodes
        ensures NodeShape(r.nodes[y]) && (r.nodes[y].chars != [] ==> r.nodes[y].children == [])
      {
        if y != id {
          assert r.nodes[y] == a.nodes[y];
        }
      }
  }

  /**
   * After removing the child labelled `s`, every childless non-root node
   * other than `id` is a word. `exempt` holds the childless non-words the
   * call is about to remove (in the upward cascade, the child that asked to
   * be deleted).
   */
  lemma {:induction false} RemoveChildLeaves(a: Arena, id: nat, s: string, exempt: set<nat>)
    requires Wf(a) && id in a.nodes
    requires LeavesAreWords(a, {id} + exempt)
    requires forall c | c in exempt :: c in a.nodes[id].children && c in a.nodes && Label(a.nodes[c]) == s
    ensures LeavesAreWords(RemoveChild(a, id, s), {id})
    ensures forall c | c in exempt :: c !in RemoveChild(a, id, s).nodes
  {
    var cs := a.nodes[id].children;
    var r := RemoveChild(a, id, s);
    RemoveChildIs(a, id, s);
    match FindLabel(a, cs, s, 0)
    case None =>
    case Some(i) =>
      forall c | c in exempt
        ensures c !in r.nodes
      {
        var k :| 0 <= k < |cs| && cs[k] == c;
        LabelUnique(a, id, i, k);
      }
  }

  /**
   * Removing the child labelled `s` keeps the shape invariants, except that
   * `id` itself may be left a childless non-word; no label, word flag or
   * data of a remaining node changes.
   */
  lemma {:induction false} RemoveChildKeeps(a: Arena, id: nat, s: string, exempt: set<nat>)
    requires Wf(a) && Shape(a) && CompressedLeaves(a, {}) && id in a.nodes
    requires LeavesAreWords(a, {id} + exempt)
    requires forall c | c in exempt :: c in a.nodes[id].children && c in a.nodes && Label(a.nodes[c]) == s
    ensures var r := RemoveChild(a, id, s);
      && Wf(r) && Shape(r) && CompressedLeaves(r, {}) && LeavesAreWords(r, {id})
      && (forall c | c in exempt :: c !in r.nodes)
      && KeepsLabels(a, r)
      && (forall z | z in r.nodes :: r.nodes[z].isWord == a.nodes[z].isWord && r.nodes[z].data == a.nodes[z].data)
  {
    RemoveChildLabels(a, id, s);
    RemoveChildShape(a, id, s);
    RemoveChildLeaves(a, id, s, exempt);
  }

  /**
   * `delete(s)` called on `id` keeps the tree valid. `exempt` is as in
   * `RemoveChildKeeps`: in the upward cascade, the childless node that asked
   * its parent to delete it.
   */
  lemma {:induction false} DeleteValid(a: Arena, id: nat, s: string, exempt: set<nat>)
    requires Wf(a) && Shape(a) && CompressedLeaves(a, {}) && id in a.nodes
    requires LeavesAreWords(a, {id} + exempt)
    requires forall c | c in exempt :: c in a.nodes[id].children && c in a.nodes && Label(a.nodes[c]) == s
    ensures Valid(DeleteF(a, id, s))
    decreases id
  {
    var a1 := RemoveChild(a, id, s);
    RemoveChildKeeps(a, id, s, exempt);
    var n := a1.nodes[id];
    assert NodeShape(n);
    if n.start.Some? && n.isLeaf {
      assert id != Root && ParentOk(a1, id);
      DeleteValid(a1, n.parent, Label(n), {id});
    } else if n.start.Some? && s == [n.start.value] && !n.isLeaf {
      SetNodeKeeps(a1, id, n.(isWord := false, data := None), {});
      assert {} - {id} == {};
    } else if !n.isLeaf {
      match GetLeaf(a1, id)
      case Some(l) =>
        if l != id {
          ChainInSubtree(a1, id, l);
          AncestorBelow(a1, id, l);
          MergeValid(a1, l);
        }
      case None =>
    } else {
      assert id == Root;
    }
  }

  /**
   * A node left childless by `delete(s)` that is not the root asks its
   * parent to delete it, by its full label, and that is all it does.
   */
  lemma {:induction false} DeleteCascades(a: Arena, id: nat, s: string)
    requires Wf(a) && id in a.nodes
    requires RemoveChild(a, id, s).nodes[id].start.Some? && RemoveChild(a, id, s).nodes[id].isLeaf
    ensures var a1 := RemoveChild(a, id, s);
      var n := a1.nodes[id];
      && id != Root && n.parent in a1.nodes && id in a1.nodes[n.parent].children
      && DeleteF(a, id, s) == DeleteF(a1, n.parent, Label(n))
  {
    var a1 := RemoveChild(a, id, s);
    assert ParentOk(a1, id);
  }

  /** What `delete(s)` asks of the tree it is called on. */
  ghost predicate DeletePre(a: Arena, id: nat, s: string, exempt: set<nat>)
  {
    && Wf(a) && Shape(a) && CompressedLeaves(a, {}) && id in a.nodes
    && LeavesAreWords(a, {id} + exempt)
    && (forall c | c in exempt :: c in a.nodes[id].children && c in a.nodes && Label(a.nodes[c]) == s)
  }

  /**
   * Whatever `delete(s)` called on `id` leaves stored, it leaves stored
   * with the positions it had after the child labelled `s` was removed.
   */
  lemma {:induction false} DeleteShrinks(a: Arena, id: nat, s: string, exempt: set<nat>, v: string)
    requires DeletePre(a, id, s, exempt)
    ensures var a1 := RemoveChild(a, id, s);
      Wf(a1) && (Lookup(DeleteF(a, id, s), v).Some? ==> Lookup(DeleteF(a, id, s), v) == Lookup(a1, v))
    decreases id, 1
  {
    var a1 := RemoveChild(a, id, s);
    RemoveChildKeeps(a, id, s, exempt);
    var n := a1.nodes[id];
    assert NodeShape(n);
    if n.start.Some? && n.isLeaf {
      CascadeShrinks(a, id, s, exempt, v);
    } else if n.start.Some? && s == [n.start.value] && !n.isLeaf {
      DemoteShrinks(a, id, s, exempt, v);
    } else if !n.isLeaf {
      match GetLeaf(a1, id)
      case Some(l) =>
        if l != id {
          ChainInSubtree(a1, id, l);
          AncestorBelow(a1, id, l);
          MergeLookup(a1, l, v);
        }
      case None =>
    }
  }

  /** The cascade branch of `DeleteShrinks`: the parent deletes the now childless node. */
  lemma {:induction false} CascadeShrinks(a: Arena, id: nat, s: string, exempt: set<nat>, v: string)
    requires DeletePre(a, id, s, exempt)
    requires RemoveChild(a, id, s).nodes[id].start.Some? && RemoveChild(a, id, s).nodes[id].isLeaf
    ensures var a1 := RemoveChild(a, id, s);
      Wf(a1) && (Lookup(DeleteF(a, id, s), v).Some? ==> Lookup(DeleteF(a, id, s), v) == Lookup(a1, v))
    decreases id, 0
  {
    var a1 := RemoveChild(a, id, s);
    var p, lbl := CascadePre(a, id, s, exempt);
    DeleteShrinks(a1, p, lbl, {id}, v);
    RemoveShrinks(a1, p, lbl, {id}, v);
  }

  /** The cascade: `delete` goes on at the parent, which meets what `delete` asks. */
  lemma {:induction false} CascadePre(a: Arena, id: nat, s: string, exempt: set<nat>) returns (p: nat, lbl: string)
    requires DeletePre(a, id, s, exempt)
    requires RemoveChild(a, id, s).nodes[id].start.Some? && RemoveChild(a, id, s).nodes[id].isLeaf
    ensures var a1 := RemoveChild(a, id, s);
      && Wf(a1) && id in a1.nodes && p == a1.nodes[id].parent && p < id && lbl == Label(a1.nodes[id])
      && DeletePre(a1, p, lbl, {id}) && DeleteF(a, id, s) == DeleteF(a1, p, lbl)
  {
    var a1 := RemoveChild(a, id, s);
    RemoveChildKeeps(a, id, s, exempt);
    var n := a1.nodes[id];
    DeleteCascades(a, id, s);
    p, lbl := n.parent, Label(n);
    LeavesWeaken(a1, {id}, {p} + {id});
    assert forall c | c in {id} :: c in a1.nodes[p].children && c in a1.nodes && Label(a1.nodes[c]) == lbl;
  }

  /** Exempting more nodes keeps `LeavesAreWords`. */
  lemma {:induction false} LeavesWeaken(a: Arena, e1: set<nat>, e2: set<nat>)
    requires LeavesAreWords(a, e1) && e1 <= e2
    ensures LeavesAreWords(a, e2)
  {
  }

  /** Removing a child stores no word that was not stored before. */
  lemma {:induction false} RemoveShrinks(a: Arena, id: nat, s: string, exempt: set<nat>, v: string)
    requires DeletePre(a, id, s, exempt)
    ensures var r := RemoveChild(a, id, s);
      Lookup(r, v).Some? ==> Lookup(r, v) == Lookup(a, v)
  {
    RemoveChildKeeps(a, id, s, exempt);
    LookupShrinks(a, RemoveChild(a, id, s), v);
  }

  /** The demotion branch of `DeleteShrinks`. */
  lemma {:induction false} DemoteShrinks(a: Arena, id: nat, s: string, exempt: set<nat>, v: string)
    requires DeletePre(a, id, s, exempt)
    requires var n := RemoveChild(a, id, s).nodes[id];
      n.start.Some? && s == [n.start.value] && !n.isLeaf
    ensures var a1 := RemoveChild(a, id, s);
      Wf(a1) && (Lookup(DeleteF(a, id, s), v).Some? ==> Lookup(DeleteF(a, id, s), v) == Lookup(a1, v))
  {
    var a1 := RemoveChild(a, id, s);
    RemoveChildKeeps(a, id, s, exempt);
    var n := a1.nodes[id];
    assert NodeShape(n);
    var n' := n.(isWord := false, data := None);
    assert DeleteF(a, id, s) == SetNode(a1, id, n');
    SetNodeKeeps(a1, id, n', {});
    assert {} - {id} == {};
    SetFlagsLookup(a1, id, n', v);
  }

  /**
   * `delete(s)` never stores a word or a position that was not there: every
   * word still stored afterwards has the positions it had before.
   */
  lemma {:induction false} DeleteLookup(a: Arena, id: nat, s: string, v: string)
    requires Valid(a) && id in a.nodes
    ensures Lookup(DeleteF(a, id, s), v).Some? ==> Lookup(DeleteF(a, id, s), v) == Lookup(a, v)
  {
    assert DeletePre(a, id, s, {});
    DeleteShrinks(a, id, s, {}, v);
    RemoveChildKeeps(a, id, s, {});
    LookupShrinks(a, RemoveChild(a, id, s), v);
  }

  /**
   * `delete` called on a node with its own full label, which is what the
   * descent of Trie.java does for an exact word: afterwards the word of
   * that node is no longer stored.
   */
  lemma {:induction false} DeleteOwnWord(a: Arena, y: nat)
    requires Valid(a) && y in a.nodes && y != Root
    ensures Lookup(DeleteF(a, y, Label(a.nodes[y])), Word(a, y)) == None
  {
    var s := Label(a.nodes[y]);
    var w := Word(a, y);
    var a1 := RemoveChild(a, y, s);
    RemoveChildKeeps(a, y, s, {});
    WordSame(a, a1, y);
    var n := a1.nodes[y];
    assert NodeShape(n) && ParentOk(a1, y);
    if n.isLeaf {
      var p := n.parent;
      var a2 := RemoveChild(a1, p, s);
      assert DeletePre(a1, p, s, {y});
      DeleteShrinks(a1, p, s, {y}, w);
      RemoveChildKeeps(a1, p, s, {y});
      forall z | WordAt(a2, z, w)
        ensures false
      {
        WordSame(a1, a2, z);
        WordInjective(a1, z, y);
      }
    } else {
      assert a1.nodes[y].chars == [];
      SetNodeKeeps(a1, y, n.(isWord := false, data := None), {});
      assert {} - {y} == {};
      SetFlagsLookup(a1, y, n.(isWord := false, data := None), w);
    }
  }

  /**
   * `delete` called on a node with its own full label either leaves that
   * node in place as a non-word, or leaves no word stored that starts with
   * the node's word: the cascade removes the node's whole subtree.
   */
  lemma {:induction false} DeleteOwnPrefix(a: Arena, y: nat)
    requires Valid(a) && y in a.nodes && y != Root
    ensures var r := DeleteF(a, y, Label(a.nodes[y]));
      || (y in r.nodes && Word(r, y) == Word(a, y) && !r.nodes[y].isWord)
      || (forall t | Word(a, y) <= t :: Lookup(r, t) == None)
  {
    var s := Label(a.nodes[y]);
    var w := Word(a, y);
    var a1 := RemoveChild(a, y, s);
    RemoveChildKeeps(a, y, s, {});
    WordSame(a, a1, y);
    var n := a1.nodes[y];
    assert NodeShape(n) && ParentOk(a1, y);
    if n.isLeaf {
      var p := n.parent;
      var a2 := RemoveChild(a1, p, s);
      assert DeletePre(a1, p, s, {y});
      RemoveChildKeeps(a1, p, s, {y});
      forall t | w <= t
        ensures Lookup(DeleteF(a, y, s), t) == None
      {
        DeleteShrinks(a1, p, s, {y}, t);
        CutPrefixGone(a1, a2, y, t);
      }
    } else {
      var m := n.(isWord := false, data := None);
      assert DeleteF(a, y, s) == SetNode(a1, y, m);
      SetFlagsWords(a1, y, m);
    }
  }

  /** Once node `y` is cut off, no word that starts with the word of `y` is stored. */
  lemma {:induction false} CutPrefixGone(a: Arena, r: Arena, y: nat, t: string)
    requires Wf(a) && CompressedLeaves(a, {}) && Wf(r) && KeepsLabels(a, r)
    requires y in a.nodes && y !in r.nodes && Word(a, y) <= t
    ensures Lookup(r, t) == None
  {
    forall z | WordAt(r, z, t)
      ensures false
    {
      WordSame(a, r, z);
      PrefixMeansAncestor(a, y, z);
      AncestorKept(a, r, y, z);
    }
  }

  /** The ancestors in `a` of a node that `r` keeps are kept too. */
  lemma {:induction false} AncestorKept(a: Arena, r: Arena, y: nat, z: nat)
    requires Linked(a) && Linked(r) && KeepsLabels(a, r)
    requires z in a.nodes && z in r.nodes && IsAncestor(a, y, z)
    ensures y in r.nodes
    decreases z
  {
    if z != y {
      AncestorKept(a, r, y, a.nodes[z].parent);
    }
  }

  /**
   * `delete(s)` on a node with children whose start character is `s`, when
   * no child is labelled `s`: only the word flag and the data of the node
   * are cleared; its children and every other node are untouched.
   */
  lemma {:induction false} DeleteDemotes(a: Arena, id: nat, s: string)
    requires Wf(a) && id in a.nodes && a.nodes[id].start.Some? && !a.nodes[id].isLeaf
    requires s == [a.nodes[id].start.value]
    requires FindLabel(a, a.nodes[id].children, s, 0).None?
    ensures DeleteF(a, id, s) == SetNode(a, id, a.nodes[id].(isWord := false, data := None))
  {
    RemoveChildIs(a, id, s);
  }
}
