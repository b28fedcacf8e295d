/**
 * What Trie.java does to the tree, as functions of the arena: the guard and
 * lowercasing of `insert`, and `search`, `delete` and `autocomplete` on top of
 * the shared descent loop. The laws below say what each one means for the
 * stored words (`Lookup`).
 */
module TrieSpec {
  import opened Wrappers
  import opened TrieNodes
  import opened Descent
  import opened TrieContents
  import opened TrieWalks
  import opened TrieNodeUpdates
  import opened TrieNodeLaws
  import opened TrieNodeDeletes

  // ---------------------------------------------------------------------
  // The word check of `insert`: `[a-zA-Z]+` and `toLowerCase()` on ASCII.

  predicate IsLetter(c: char)
  {
    'a' <= c <= 'z' || 'A' <= c <= 'Z'
  }

  /** The word matches `[a-zA-Z]+`. */
  predicate IsLetters(w: string)
  {
    |w| > 0 && forall i | 0 <= i < |w| :: IsLetter(w[i])
  }

  function LowerChar(c: char): char
  {
    if 'A' <= c <= 'Z' then (c as int + 32) as char else c
  }

  /** `toLowerCase()` for the ASCII letters that `insert` lets through. */
  function Lower(w: string): string
  {
    seq(|w|, i requires 0 <= i < |w| => LowerChar(w[i]))
  }

  /** A non-empty word of lowercase ASCII letters. */
  predicate IsLowerWord(w: string)
  {
    |w| > 0 && forall i | 0 <= i < |w| :: 'a' <= w[i] <= 'z'
  }

  /** Lowercasing a letters-only word gives a lowercase word, and lowercase words stay as they are. */
  lemma {:induction false} LowerLetters(w: string)
    ensures IsLetters(w) ==> IsLowerWord(Lower(w))
    ensures IsLowerWord(w) ==> IsLetters(w) && Lower(w) == w
  {
    if IsLowerWord(w) {
      assert forall i | 0 <= i < |w| :: Lower(w)[i] == w[i];
    }
  }

  // ---------------------------------------------------------------------
  // The operations of Trie.java on the arena.

  /**
   * `insert(word, data)`: a letters-only word is inserted lowercased at the
   * root with the positions `d` of `data`; any other word changes nothing.
   */
  ghost function TrieInsertF(a: Arena, word: string, d: seq<int>): (r: Arena)
    requires Valid(a) && |d| > 0
    ensures Valid(r)
  {
    if IsLetters(word) then
      var r := InsertF(a, Root, Lower(word), d);
      assert CompressedLeaves(r, {});
      r
    else a
  }

  /**
   * `search(prefix)`: None when the descent finds no child for a character,
   * otherwise the data of the node where the descent stopped.
   */
  function SearchF(a: Arena, prefix: string): Option<seq<int>>
    requires Wf(a)
  {
    match Descend(a, Root, prefix, 0)
    case None => None
    case Some((x, _)) => a.nodes[x].data
  }

  /**
   * `delete(prefix)`: nothing when the descent fails, otherwise
   * `delete(prefix.substring(i))` on the node where it stopped at index `i`.
   */
  ghost function TrieDeleteF(a: Arena, prefix: string): (r: Arena)
    requires Wf(a)
    ensures Wf(r)
  {
    match Descend(a, Root, prefix, 0)
    case None => a
    case Some((x, i)) => DeleteF(a, x, prefix[i..])
  }

  /** `autocomplete(prefix)`: empty when the descent fails, otherwise the walk below the node reached. */
  function AutocompleteF(a: Arena, prefix: string): seq<string>
    requires Wf(a)
  {
    match Descend(a, Root, prefix, 0)
    case None => []
    case Some((x, _)) => Autocomplete(a, x)
  }

  // ---------------------------------------------------------------------
  // The descent and the words of the nodes it reaches.

  /**
   * Started at a node without remaining characters whose word is the part
   * of the prefix read so far, the descent stops at a node whose word
   * extends the prefix, and whose word is the prefix when it stopped at a
   * `break`.
   */
  lemma {:induction false} DescendExtends(a: Arena, cur: nat, p: string, i: nat)
    requires Wf(a) && CompressedLeaves(a, {}) && cur in a.nodes && i <= |p|
    requires a.nodes[cur].chars == [] && Word(a, cur) == p[..i]
    requires Descend(a, cur, p, i).Some?
    ensures var x := Descend(a, cur, p, i).value.0;
      p <= Word(a, x) && (Descend(a, cur, p, i).value.1 < |p| ==> Word(a, x) == p)
    decreases |p| - i
  {
    if i < |p| {
      var c := DescendChild(a, cur, p, i);
      var t := a.nodes[c].chars;
      StepWord(p, i, t);
      if t != p[i + 1..] {
        if t == [] {
          DescendExtends(a, c, p, i + 1);
        } else {
          DescendLeaf(a, c, p, i + 1);
        }
      }
    }
  }

  /** One step of the descent from `cur`: the child `c` it goes to, and what follows. */
  lemma {:induction false} DescendChild(a: Arena, cur: nat, p: string, i: nat) returns (c: nat)
    requires Wf(a) && CompressedLeaves(a, {}) && cur in a.nodes && i < |p|
    requires Descend(a, cur, p, i).Some?
    ensures c in a.nodes && c != Root && a.nodes[c].parent == cur
    ensures Word(a, c) == Word(a, cur) + [p[i]] + a.nodes[c].chars
    ensures a.nodes[c].chars != [] ==> a.nodes[c].children == []
    ensures Descend(a, cur, p, i) ==
      if a.nodes[c].chars == p[i + 1..] then Some((c, i)) else Descend(a, c, p, i + 1)
  {
    c := DescendFound(a, cur, p, i);
    assert ChildrenOk(a, cur);
    assert ParentOk(a, c);
    ChildWord(a, c);
  }

  /** The child that one step of the descent goes to, when the descent does not fail. */
  lemma {:induction false} DescendFound(a: Arena, cur: nat, p: string, i: nat) returns (c: nat)
    requires ChildrenIn(a) && cur in a.nodes && i < |p|
    requires Descend(a, cur, p, i).Some?
    ensures c in a.nodes[cur].children && a.nodes[c].start == Some(p[i])
    ensures Descend(a, cur, p, i) ==
      if a.nodes[c].chars == p[i + 1..] then Some((c, i)) else Descend(a, c, p, i + 1)
  {
    c := Find(a, a.nodes[cur].children, p[i]).value;
  }

  /** The word of a child node is its parent's word followed by its label. */
  lemma {:induction false} ChildWord(a: Arena, c: nat)
    requires Linked(a) && c in a.nodes && c != Root && a.nodes[c].start.Some?
    ensures Word(a, c) == Word(a, a.nodes[c].parent) + [a.nodes[c].start.value] + a.nodes[c].chars
  {
  }

  /** At a childless node the descent ends, with a result only when the prefix is used up. */
  lemma {:induction false} DescendLeaf(a: Arena, c: nat, p: string, j: nat)
    requires Wf(a) && c in a.nodes && a.nodes[c].children == [] && j <= |p|
    ensures Descend(a, c, p, j) == if j == |p| then Some((c, j)) else None
  {
  }

  /** The word read after one more step of the descent, for each way the step can end. */
  lemma {:induction false} StepWord(p: string, i: nat, t: string)
    requires i < |p|
    ensures t == p[i + 1..] ==> p[..i] + [p[i]] + t == p
    ensures t == [] ==> p[..i] + [p[i]] + t == p[..i + 1]
    ensures i + 1 == |p| ==> p <= p[..i] + [p[i]] + t
  {
    if t == p[i + 1..] {
      assert p[..i] + [p[i]] + t == p[..i] + p[i..];
      assert p == p[..i] + p[i..];
    }
    if i + 1 == |p| {
      assert p[..i] + [p[i]] == p;
    }
  }

  /** The descent along a word that a node spells ends at that node, at a `break`. */
  lemma {:induction false} DescendToWord(a: Arena, w: string) returns (y: nat)
    requires Valid(a) && Lookup(a, w).Some?
    ensures WordAt(a, y, w) && y != Root && Lookup(a, w) == a.nodes[y].data
    ensures Descend(a, Root, w, 0).Some? && Descend(a, Root, w, 0).value.0 == y
    ensures Descend(a, Root, w, 0).value.1 < |w|
    ensures w[Descend(a, Root, w, 0).value.1..] == Label(a.nodes[y])
  {
    y :| WordAt(a, y, w);
    LookupAt(a, y, w);
    DescendFindsNode(a, y);
  }

  // ---------------------------------------------------------------------
  // search

  /** `search` finds the data of every stored word. */
  lemma {:induction false} SearchFindsWord(a: Arena, w: string)
    requires Valid(a) && Lookup(a, w).Some?
    ensures SearchF(a, w) == Lookup(a, w)
  {
    var y := DescendToWord(a, w);
  }

  /**
   * Whatever `search(p)` returns that is not null is the data of a stored
   * word that starts with `p` (not necessarily `p` itself).
   */
  lemma {:induction false} SearchSound(a: Arena, p: string) returns (w: string)
    requires Valid(a) && SearchF(a, p).Some?
    ensures p <= w && Lookup(a, w) == SearchF(a, p)
  {
    var x := Descend(a, Root, p, 0).value.0;
    DescendExtends(a, Root, p, 0);
    assert NodeShape(a.nodes[x]);
    w := Word(a, x);
    LookupAt(a, x, w);
  }

  // ---------------------------------------------------------------------
  // insert

  /**
   * `insert(word, data)` stores the lowercased word, with the positions of
   * `data` when it is new and with the first of them appended when it was
   * there, and leaves every other word as it was; a word that is not made
   * of letters changes nothing.
   */
  lemma {:induction false} TrieInsertContents(a: Arena, word: string, d: seq<int>, v: string)
    requires Valid(a) && |d| > 0
    ensures Lookup(TrieInsertF(a, word, d), v) ==
      if IsLetters(word) && v == Lower(word) then Some(Added(Lookup(a, v), d)) else Lookup(a, v)
  {
    if IsLetters(word) {
      var w := Lower(word);
      assert Word(a, Root) + w == w by {
        assert Word(a, Root) == [];
      }
      InsertContents(a, Root, w, d, v);
    }
  }

  /** After inserting a letters-only word, searching its lowercase form finds its data. */
  lemma {:induction false} InsertThenSearch(a: Arena, word: string, d: seq<int>)
    requires Valid(a) && |d| > 0 && IsLetters(word)
    ensures SearchF(TrieInsertF(a, word, d), Lower(word)) == Some(Added(Lookup(a, Lower(word)), d))
  {
    var r := TrieInsertF(a, word, d);
    TrieInsertContents(a, word, d, Lower(word));
    SearchFindsWord(r, Lower(word));
  }

  // ---------------------------------------------------------------------
  // delete

  /** `delete` keeps the tree well-formed. */
  lemma {:induction false} TrieDeleteValid(a: Arena, p: string)
    requires Valid(a)
    ensures Valid(TrieDeleteF(a, p))
  {
    match Descend(a, Root, p, 0)
    case None =>
    case Some((x, i)) =>
      DeleteValid(a, x, p[i..], {});
  }

  /** `delete` only removes words: a word still stored keeps its data. */
  lemma {:induction false} TrieDeleteShrinks(a: Arena, p: string, v: string)
    requires Valid(a)
    ensures Lookup(TrieDeleteF(a, p), v).Some? ==> Lookup(TrieDeleteF(a, p), v) == Lookup(a, v)
  {
    match Descend(a, Root, p, 0)
    case None =>
    case Some((x, i)) =>
      DeleteLookup(a, x, p[i..], v);
  }

  /** `delete(w)` of a stored word removes it, and `search(w)` then returns null. */
  lemma {:induction false} TrieDeleteWord(a: Arena, w: string)
    requires Valid(a) && Lookup(a, w).Some?
    ensures Lookup(TrieDeleteF(a, w), w) == None
    ensures SearchF(TrieDeleteF(a, w), w) == None
  {
    var y := DescendToWord(a, w);
    DeleteOwnWord(a, y);
    DeleteOwnPrefix(a, y);
    TrieDeleteValid(a, w);
    SearchGone(TrieDeleteF(a, w), y, w);
  }

  /**
   * `search(w)` returns null when the node spelling `w` is not a word, or
   * when no stored word starts with `w`.
   */
  lemma {:induction false} SearchGone(r: Arena, y: nat, w: string)
    requires Valid(r)
    requires || (y in r.nodes && Word(r, y) == w && !r.nodes[y].isWord)
             || (forall t | w <= t :: Lookup(r, t) == None)
    ensures SearchF(r, w) == None
  {
    if y in r.nodes && Word(r, y) == w && !r.nodes[y].isWord {
      if y == Root {
        assert Descend(r, Root, w, 0) == Some((Root, 0));
      } else {
        DescendFindsNode(r, y);
      }
      assert NodeShape(r.nodes[Descend(r, Root, w, 0).value.0]);
    } else if Descend(r, Root, w, 0).Some? {
      var x := Descend(r, Root, w, 0).value.0;
      DescendExtends(r, Root, w, 0);
      LookupOwn(r, x);
      assert NodeShape(r.nodes[x]);
    }
  }

  /**
   * `delete(w)` of a stored word whose node has children and no child
   * labelled by the word's last character only clears the word: `search(w)`
   * then returns null and every other word keeps its data. The second
   * condition holds when no stored word starts with `w` followed by its own
   * last character; otherwise that child is removed as well.
   */
  lemma {:induction false} TrieDeleteDemotes(a: Arena, w: string, u: string, v: string)
    requires Valid(a) && |w| > 0 && Lookup(a, w).Some?
    requires w < u && Lookup(a, u).Some?
    requires forall t | Lookup(a, t).Some? :: !(w + [w[|w| - 1]] <= t)
    ensures var r := TrieDeleteF(a, w);
      SearchF(r, w) == None && Lookup(r, w) == None && (v != w ==> Lookup(r, v) == Lookup(a, v))
  {
    var y := DemoteTarget(a, w, u);
    assert w[|w| - 1..] == [w[|w| - 1]];
    assert TrieDeleteF(a, w) == DeleteF(a, y, [w[|w| - 1]]);
    DemoteEffect(a, y, w, v);
  }

  /** Deleting `[last character of w]` at the node of `w` clears its word flag and data only. */
  lemma {:induction false} DemoteEffect(a: Arena, y: nat, w: string, v: string)
    requires Valid(a) && y in a.nodes && y != Root && Word(a, y) == w && |w| > 0
    requires Descend(a, Root, w, 0) == Some((y, |w| - 1))
    requires a.nodes[y].start == Some(w[|w| - 1]) && !a.nodes[y].isLeaf
    requires FindLabel(a, a.nodes[y].children, [w[|w| - 1]], 0).None?
    ensures var r := DeleteF(a, y, [w[|w| - 1]]);
      SearchF(r, w) == None && Lookup(r, w) == None && (v != w ==> Lookup(r, v) == Lookup(a, v))
  {
    var s := [w[|w| - 1]];
    var m := a.nodes[y].(isWord := false, data := None);
    DemoteState(a, y, s);
    DemoteLookup(a, y, m);
    SetFlagsWords(a, y, m);
    SearchGone(SetNode(a, y, m), y, w);
  }

  /** The arena after the demoting delete: only the node's flags changed, and it is still valid. */
  lemma {:induction false} DemoteState(a: Arena, y: nat, s: string)
    requires Valid(a) && y in a.nodes && a.nodes[y].start.Some? && !a.nodes[y].isLeaf
    requires s == [a.nodes[y].start.value]
    requires FindLabel(a, a.nodes[y].children, s, 0).None?
    ensures var m := a.nodes[y].(isWord := false, data := None);
      DeleteF(a, y, s) == SetNode(a, y, m) && Valid(SetNode(a, y, m))
  {
    DeleteDemotes(a, y, s);
    DeleteValid(a, y, s, {});
  }

  /** Clearing the word flag and data of `y` removes its word and keeps the others. */
  lemma {:induction false} DemoteLookup(a: Arena, y: nat, m: Node)
    requires Wf(a) && CompressedLeaves(a, {}) && y in a.nodes && m == a.nodes[y].(isWord := false, data := None)
    requires Wf(SetNode(a, y, m)) && CompressedLeaves(SetNode(a, y, m), {})
    ensures forall v :: Lookup(SetNode(a, y, m), v) == if v == Word(a, y) then None else Lookup(a, v)
  {
    assert SameLabel(a, y, m);
    forall v
      ensures Lookup(SetNode(a, y, m), v) == if v == Word(a, y) then None else Lookup(a, v)
    {
      SetFlagsLookup(a, y, m, v);
    }
  }

  /**
   * The node of a stored word `w` that has a longer stored word below it:
   * the descent stops there at the last character of `w`, and no child
   * carries that character alone as its label.
   */
  lemma {:induction false} DemoteTarget(a: Arena, w: string, u: string) returns (y: nat)
    requires Valid(a) && |w| > 0 && Lookup(a, w).Some?
    requires w < u && Lookup(a, u).Some?
    requires forall t | Lookup(a, t).Some? :: !(w + [w[|w| - 1]] <= t)
    ensures y in a.nodes && y != Root && Word(a, y) == w
    ensures Descend(a, Root, w, 0) == Some((y, |w| - 1))
    ensures a.nodes[y].start == Some(w[|w| - 1]) && !a.nodes[y].isLeaf
    ensures FindLabel(a, a.nodes[y].children, [w[|w| - 1]], 0).None?
  {
    y := DescendToWord(a, w);
    var j := Descend(a, Root, w, 0).value.1;
    var z := DescendToWord(a, u);
    PrefixMeansAncestor(a, y, z);
    var c0 := AncestorViaChild(a, y, z);
    var n := a.nodes[y];
    assert NodeShape(n) && n.children != [] && n.chars == [];
    assert j == |w| - 1;
    NoChildLabelled(a, y, w);
  }

  /** No child of the node of `w` is labelled `[c]` when no stored word starts with `w + [c]`. */
  lemma {:induction false} NoChildLabelled(a: Arena, y: nat, w: string)
    requires Valid(a) && y in a.nodes && Word(a, y) == w && |w| > 0
    requires forall t | Lookup(a, t).Some? :: !(w + [w[|w| - 1]] <= t)
    ensures FindLabel(a, a.nodes[y].children, [w[|w| - 1]], 0).None?
  {
    var s := [w[|w| - 1]];
    var cs := a.nodes[y].children;
    assert ChildrenOk(a, y);
    if FindLabel(a, cs, s, 0).Some? {
      var c := cs[FindLabel(a, cs, s, 0).value];
      assert ParentOk(a, c);
      var b := WordNodeBelow(a, c);
      AncestorWordPrefix(a, c, b);
      assert Word(a, c) == w + s;
      assert NodeShape(a.nodes[b]);
      LookupOwn(a, b);
    }
  }

  /** Below every non-root node of a valid tree lies a word node. */
  lemma {:induction false} WordNodeBelow(a: Arena, c: nat) returns (z: nat)
    requires Valid(a) && c in a.nodes && c != Root
    ensures z in a.nodes && IsAncestor(a, c, z) && a.nodes[z].isWord
    decreases a.next - c
  {
    var cs := a.nodes[c].children;
    if cs == [] {
      z := c;
    } else {
      assert ChildrenOk(a, c);
      var c0 := cs[0];
      z := WordNodeBelow(a, c0);
      AncestorOfChild(a, c, c0, z);
    }
  }

  // ---------------------------------------------------------------------
  // delete of two stored words that differ by a repeated last letter

  /**
   * When `w` and `w` followed by its own last letter are both stored, the
   * node of the longer word is a child of the node of `w`, both carry that
   * letter alone as their label, and `delete` of either word is called on
   * its node with that label.
   */
  lemma {:induction false} RepeatChild(a: Arena, w: string) returns (y: nat, z: nat)
    requires Valid(a) && |w| > 0 && Lookup(a, w).Some? && Lookup(a, w + [w[|w| - 1]]).Some?
    ensures WordAt(a, y, w) && WordAt(a, z, w + [w[|w| - 1]]) && y != Root && z != Root
    ensures z in a.nodes[y].children && a.nodes[z].parent == y
    ensures Label(a.nodes[y]) == [w[|w| - 1]] && Label(a.nodes[z]) == [w[|w| - 1]]
    ensures TrieDeleteF(a, w) == DeleteF(a, y, Label(a.nodes[y]))
    ensures TrieDeleteF(a, w + [w[|w| - 1]]) == DeleteF(a, z, Label(a.nodes[z]))
  {
    var u := w + [w[|w| - 1]];
    y := DescendToWord(a, w);
    z := DescendToWord(a, u);
    assert w <= u;
    PrefixMeansAncestor(a, y, z);
    var c := AncestorViaChild(a, y, z);
    assert ChildrenOk(a, y) && ParentOk(a, c);
    AncestorWordPrefix(a, c, z);
    assert Word(a, c) == w + Label(a.nodes[c]);
    assert Word(a, c) == u;
    WordInjective(a, c, z);
    var n := a.nodes[y];
    assert NodeShape(n) && n.chars == [];
    assert w == Word(a, n.parent) + [n.start.value];
  }

  /** A stored word that no longer stored word extends belongs to a childless node. */
  lemma {:induction false} LongestIsLeaf(a: Arena, z: nat, u: string)
    requires Valid(a) && WordAt(a, z, u) && z != Root
    requires forall t | Lookup(a, t).Some? :: !(u < t)
    ensures a.nodes[z].children == []
  {
    if a.nodes[z].children != [] {
      var c := a.nodes[z].children[0];
      assert ChildrenOk(a, z);
      assert ParentOk(a, c);
      var b := WordNodeBelow(a, c);
      AncestorWordPrefix(a, c, b);
      assert Word(a, c) == u + Label(a.nodes[c]);
      LookupOwn(a, b);
    }
  }

  /**
   * As written, `delete(w)` of a stored word also removes `w` followed by its
   * own last letter: the node of `w` is asked to delete its own label, and
   * its child with that label is the node of the longer word.
   */
  lemma {:induction false} TrieDeleteTakesRepeat(a: Arena, w: string)
    requires Valid(a) && |w| > 0 && Lookup(a, w).Some? && Lookup(a, w + [w[|w| - 1]]).Some?
    ensures Lookup(TrieDeleteF(a, w), w + [w[|w| - 1]]) == None
  {
    var u := w + [w[|w| - 1]];
    var y, z := RepeatChild(a, w);
    var s := Label(a.nodes[y]);
    assert DeletePre(a, y, s, {});
    DeleteShrinks(a, y, s, {}, u);
    RemoveChildKeeps(a, y, s, {z});
    CutPrefixGone(a, RemoveChild(a, y, s), z, u);
  }

  /**
   * As written, `delete` of `w` followed by its own last letter also removes
   * `w` when no longer word is stored: the childless node asks its parent,
   * the node of `w`, to delete its label, which is the parent's own label,
   * so the parent is removed in the cascade or has its word cleared.
   */
  lemma {:induction false} TrieDeleteTakesShorter(a: Arena, w: string)
    requires Valid(a) && |w| > 0 && Lookup(a, w).Some? && Lookup(a, w + [w[|w| - 1]]).Some?
    requires forall t | Lookup(a, t).Some? :: !(w + [w[|w| - 1]] < t)
    ensures Lookup(TrieDeleteF(a, w + [w[|w| - 1]]), w) == None
  {
    var y, z := RepeatChild(a, w);
    var s := Label(a.nodes[z]);
    LongestIsLeaf(a, z, w + [w[|w| - 1]]);
    RemoveChildIs(a, z, s);
    assert RemoveChild(a, z, s) == a;
    assert NodeShape(a.nodes[z]);
    DeleteCascades(a, z, s);
    DeleteOwnWord(a, y);
  }

  /**
   * As written, `delete(p)` whose descent uses up `p` inside the label of a
   * childless node removes the word stored there, which starts with `p`: the
   * node is asked to delete the empty string and cascades as if its own word
   * had been deleted.
   */
  lemma {:induction false} TrieDeleteRunsOut(a: Arena, p: string)
    requires Valid(a) && Descend(a, Root, p, 0).Some? && Descend(a, Root, p, 0).value.1 == |p|
    requires Descend(a, Root, p, 0).value.0 != Root && a.nodes[Descend(a, Root, p, 0).value.0].children == []
    ensures var x := Descend(a, Root, p, 0).value.0;
      && p <= Word(a, x) && Lookup(a, Word(a, x)).Some?
      && Lookup(TrieDeleteF(a, p), Word(a, x)) == None
  {
    var x := Descend(a, Root, p, 0).value.0;
    var s := Label(a.nodes[x]);
    DescendExtends(a, Root, p, 0);
    assert NodeShape(a.nodes[x]);
    LookupOwn(a, x);
    assert TrieDeleteF(a, p) == DeleteF(a, x, []);
    RemoveChildIs(a, x, []);
    RemoveChildIs(a, x, s);
    DeleteCascades(a, x, []);
    DeleteCascades(a, x, s);
    DeleteOwnWord(a, x);
  }

  // ---------------------------------------------------------------------
  // autocomplete

  /** Every word `autocomplete(p)` returns is a stored word that starts with `p`. */
  lemma {:induction false} TrieAutocompleteSound(a: Arena, p: string, v: string)
    requires Valid(a) && v in AutocompleteF(a, p)
    ensures p <= v && Lookup(a, v).Some?
  {
    var x := Descend(a, Root, p, 0).value.0;
    DescendExtends(a, Root, p, 0);
    AutocompleteSound(a, x, v);
    var y :| WordBelow(a, x, y, v);
    AncestorWordPrefix(a, x, y);
    LookupAt(a, y, v);
    assert NodeShape(a.nodes[y]);
  }

  /**
   * For a prefix `p` that spells a node, a word node or not (the root for
   * the empty prefix), `autocomplete(p)` returns exactly the stored words
   * that start with `p`.
   */
  lemma {:induction false} TrieAutocompleteExact(a: Arena, y: nat, v: string)
    requires Valid(a) && y in a.nodes
    ensures v in AutocompleteF(a, Word(a, y)) <==> Word(a, y) <= v && Lookup(a, v).Some?
  {
    var p := Word(a, y);
    if y == Root {
      assert Descend(a, Root, p, 0) == Some((Root, 0));
    } else {
      DescendFindsNode(a, y);
    }
    AutocompleteExact(a, y, v);
    if v in AutocompleteF(a, p) {
      TrieAutocompleteSound(a, p, v);
    }
    if p <= v && Lookup(a, v).Some? {
      var z := DescendToWord(a, v);
      PrefixMeansAncestor(a, y, z);
      assert WordBelow(a, y, z, v);
    }
  }
}
