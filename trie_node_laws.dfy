/**
 * What `insert`, `merge` and `delete` of TrieNode.java do to the contents of
 * the tree, the words it stores and the position lists stored under them.
 */
module TrieNodeLaws {
  import opened Wrappers
  import opened TrieNodes
  import opened Descent
  import opened TrieContents
  import opened TrieNodeUpdates

  // ---------------------------------------------------------------------
  // insert

  /**
   * During an insert, a node keeps its word as long as its own characters
   * do: only childless nodes lose their characters, and those are never
   * above another node.
   */
  lemma {:induction false} WordKeptInsert(a: Arena, r: Arena, k: nat, y: nat)
    requires Wf(a) && Linked(r) && InsertFrame(a, r, k) && y in a.nodes
    requires r.nodes[y].chars == a.nodes[y].chars
    ensures Word(r, y) == Word(a, y)
    decreases y
  {
    if y != Root {
      assert ParentOk(a, y);
      WordKeptInsert(a, r, k, a.nodes[y].parent);
    }
  }

  /** The word of a child below a node without remaining characters. */
  lemma {:induction false} ChildWord(a: Arena, p: nat, c: nat)
    requires Wf(a) && CompressedLeaves(a, {}) && p in a.nodes && c in a.nodes[p].children
    ensures c in a.nodes && c != Root && a.nodes[c].parent == p && a.nodes[p].chars == []
    ensures Word(a, c) == Word(a, p) + Label(a.nodes[c])
  {
    assert ChildrenOk(a, p);
    ParentHasNoChars(a, c);
  }

  /**
   * A node whose word extends `toString() + word` of `id` lies below the
   * child of `id` that starts with `word[0]`.
   */
  lemma {:induction false} ChildTowards(a: Arena, id: nat, word: string, y: nat) returns (c: nat)
    requires Wf(a) && CompressedLeaves(a, {}) && id in a.nodes && |word| > 0
    requires y in a.nodes && Word(a, id) + word <= Word(a, y)
    ensures c in a.nodes[id].children && a.nodes[c].start == Some(word[0])
  {
    var n := |Word(a, id)|;
    assert Word(a, id) <= Word(a, y);
    PrefixMeansAncestor(a, id, y);
    assert y != id;
    c := AncestorViaChild(a, id, y);
    AncestorWordPrefix(a, c, y);
    ChildWord(a, id, c);
    assert Word(a, c)[n] == a.nodes[c].start.value;
    assert Word(a, y)[n] == word[0];
  }

  /**
   * When no child of `id` starts with `word[0]`, no node spells
   * `toString() + word` yet.
   */
  lemma {:induction false} NewWordAbsent(a: Arena, id: nat, word: string, y: nat)
    requires Wf(a) && CompressedLeaves(a, {}) && id in a.nodes && |word| > 0
    requires Find(a, a.nodes[id].children, word[0]).None?
    requires y in a.nodes
    ensures Word(a, y) != Word(a, id) + word
  {
    if Word(a, y) == Word(a, id) + word {
      var c := ChildTowards(a, id, word, y);
    }
  }

  /** The words of the tree after a new leaf is added below `id`. */
  lemma {:induction false} AddLeafWords(a: Arena, id: nat, word: string, d: seq<int>)
    requires Wf(a) && CompressedLeaves(a, {}) && id in a.nodes && |word| > 0
    requires Find(a, a.nodes[id].children, word[0]).None?
    ensures var r := AddLeaf(a, id, word, d);
      && Wf(r) && a.next in r.nodes && a.next !in a.nodes
      && Word(r, a.next) == Word(a, id) + word
      && (forall y | y in a.nodes :: Word(r, y) == Word(a, y) && Word(a, y) != Word(a, id) + word)
  {
    var r := AddLeaf(a, id, word, d);
    assert Bounded(a);
    AddLeafWf(a, id, word, d);
    AddLeafFrame(a, id, word, d);
    AddLeafWordsKept(a, r, id, word);
    AddLeafNewWord(a, r, id, word, d);
  }

  lemma {:induction false} AddLeafNewWord(a: Arena, r: Arena, id: nat, word: string, d: seq<int>)
    requires Linked(a) && Bounded(a) && id in a.nodes && |word| > 0
    requires r == AddLeaf(a, id, word, d) && Linked(r) && Word(r, id) == Word(a, id)
    ensures a.next in r.nodes && Word(r, a.next) == Word(a, id) + word
  {
    var leaf := r.nodes[a.next];
    assert leaf.parent == id && Label(leaf) == word;
  }

  lemma {:induction false} AddLeafWordsKept(a: Arena, r: Arena, id: nat, word: string)
    requires Wf(a) && CompressedLeaves(a, {}) && id in a.nodes && |word| > 0
    requires Find(a, a.nodes[id].children, word[0]).None?
    requires Linked(r) && InsertFrame(a, r, id)
    requires forall y | y in a.nodes :: y in r.nodes && r.nodes[y].chars == a.nodes[y].chars
    ensures forall y | y in a.nodes :: Word(r, y) == Word(a, y) && Word(a, y) != Word(a, id) + word
  {
    forall y | y in a.nodes
      ensures Word(r, y) == Word(a, y) && Word(a, y) != Word(a, id) + word
    {
      WordKeptInsert(a, r, id, y);
      NewWordAbsent(a, id, word, y);
    }
  }

  /** The new leaf added by `insert` spells `toString() + word`; nothing else moves. */
  lemma {:induction false} AddLeafContents(a: Arena, id: nat, word: string, d: seq<int>, v: string)
    requires Valid(a) && id in a.nodes && a.nodes[id].chars == [] && |word| > 0 && |d| > 0
    requires Find(a, a.nodes[id].children, word[0]).None?
    ensures var r := AddLeaf(a, id, word, d);
      Wf(r) &&
      Lookup(r, v) == if v == Word(a, id) + word then Some(d) else Lookup(a, v)
  {
    var r := AddLeaf(a, id, word, d);
    AddLeafWords(a, id, word, d);
    AddLeafShape(a, id, word, d);
    assert CompressedLeaves(r, {});
    if v == Word(a, id) + word {
      LookupAt(r, a.next, v);
    } else {
      AddLeafOthers(a, id, word, d, v);
    }
  }

  lemma {:induction false} AddLeafOthers(a: Arena, id: nat, word: string, d: seq<int>, v: string)
    requires Wf(a) && CompressedLeaves(a, {}) && id in a.nodes && |word| > 0
    requires Find(a, a.nodes[id].children, word[0]).None?
    requires CompressedLeaves(AddLeaf(a, id, word, d), {})
    requires v != Word(a, id) + word
    ensures Lookup(AddLeaf(a, id, word, d), v) == Lookup(a, v)
  {
    var r := AddLeaf(a, id, word, d);
    AddLeafWords(a, id, word, d);
    AddLeafWordsBack(a, id, word, d, v);
    AddLeafWordsForth(a, id, word, d, v);
    LookupTransfer(a, r, v);
  }

  /** A word node spelling `v` after the new leaf was added was one before, with the same data. */
  lemma {:induction false} AddLeafWordsBack(a: Arena, id: nat, word: string, d: seq<int>, v: string)
    requires Linked(a) && id in a.nodes && |word| > 0 && v != Word(a, id) + word
    requires var r := AddLeaf(a, id, word, d);
      && Linked(r) && a.next in r.nodes && a.next !in a.nodes
      && Word(r, a.next) == Word(a, id) + word
      && (forall y | y in a.nodes :: Word(r, y) == Word(a, y))
    ensures var r := AddLeaf(a, id, word, d);
      forall y | WordAt(r, y, v) :: WordAt(a, y, v) && r.nodes[y].data == a.nodes[y].data
  {
    var r := AddLeaf(a, id, word, d);
    forall y | WordAt(r, y, v)
      ensures WordAt(a, y, v) && r.nodes[y].data == a.nodes[y].data
    {
      assert y != a.next && y in a.nodes;
      assert r.nodes[y].isWord == a.nodes[y].isWord && r.nodes[y].data == a.nodes[y].data;
    }
  }

  /** A word node spelling `v` before the new leaf was added still is one. */
  lemma {:induction false} AddLeafWordsForth(a: Arena, id: nat, word: string, d: seq<int>, v: string)
    requires Linked(a) && id in a.nodes && |word| > 0
    requires var r := AddLeaf(a, id, word, d);
      && Linked(r) && a.next !in a.nodes
      && (forall y | y in a.nodes :: Word(r, y) == Word(a, y))
    ensures var r := AddLeaf(a, id, word, d);
      forall y | WordAt(a, y, v) :: WordAt(r, y, v)
  {
    var r := AddLeaf(a, id, word, d);
    forall y | WordAt(a, y, v)
      ensures WordAt(r, y, v)
    {
      assert y in r.nodes && r.nodes[y].isWord == a.nodes[y].isWord;
    }
  }

  /**
   * Splitting a compressed child moves its word and data into the new leaf
   * below it, so nothing stored changes.
   */
  lemma {:induction false} SplitContents(a1: Arena, c: nat, a2: Arena, v: string)
    requires Wf(a1) && CompressedLeaves(a1, {}) && c in a1.nodes && c != Root
    requires a1.nodes[c].chars != [] && a1.nodes[c].children == [] && a1.nodes[c].data.Some?
    requires a1.nodes[c].isWord
    requires a2 == SplitShape(a1, c) && Wf(a2) && CompressedLeaves(a2, {})
    ensures Lookup(a2, v) == Lookup(a1, v)
  {
    SplitWords(a1, c, a2);
    if v == Word(a1, c) {
      LookupAt(a2, a1.next, v);
      LookupAt(a1, c, v);
    } else {
      SplitOthers(a1, c, a2, v);
    }
  }

  lemma {:induction false} SplitOthers(a1: Arena, c: nat, a2: Arena, v: string)
    requires Wf(a1) && CompressedLeaves(a1, {}) && Wf(a2) && CompressedLeaves(a2, {})
    requires c in a1.nodes && a1.nodes[c].chars != [] && a1.nodes[c].data.Some?
    requires a2 == SplitShape(a1, c)
    requires a1.next !in a1.nodes && v != Word(a1, c) && Word(a2, a1.next) == Word(a1, c)
    requires forall y | y in a1.nodes && y != c :: Word(a2, y) == Word(a1, y)
    ensures Lookup(a2, v) == Lookup(a1, v)
  {
    SplitWordsBack(a1, c, a2, v);
    SplitWordsForth(a1, c, a2, v);
    LookupTransfer(a1, a2, v);
  }

  /** A word node spelling `v` after the split was one before, with the same data. */
  lemma {:induction false} SplitWordsBack(a1: Arena, c: nat, a2: Arena, v: string)
    requires Linked(a1) && Linked(a2)
    requires c in a1.nodes && a1.nodes[c].chars != [] && a1.nodes[c].data.Some?
    requires a2 == SplitShape(a1, c)
    requires a1.next !in a1.nodes && v != Word(a1, c) && Word(a2, a1.next) == Word(a1, c)
    requires forall y | y in a1.nodes && y != c :: Word(a2, y) == Word(a1, y)
    ensures forall y | WordAt(a2, y, v) :: WordAt(a1, y, v) && a2.nodes[y].data == a1.nodes[y].data
  {
    forall y | WordAt(a2, y, v)
      ensures WordAt(a1, y, v) && a2.nodes[y].data == a1.nodes[y].data
    {
      assert y != a1.next && y != c;
      assert a2.nodes[y] == a1.nodes[y];
    }
  }

  /** A word node spelling `v` before the split still is one after it. */
  lemma {:induction false} SplitWordsForth(a1: Arena, c: nat, a2: Arena, v: string)
    requires Linked(a1) && Linked(a2)
    requires c in a1.nodes && a1.nodes[c].chars != [] && a1.nodes[c].data.Some?
    requires a2 == SplitShape(a1, c)
    requires a1.next !in a1.nodes && v != Word(a1, c)
    requires forall y | y in a1.nodes && y != c :: Word(a2, y) == Word(a1, y)
    ensures forall y | WordAt(a1, y, v) :: WordAt(a2, y, v)
  {
    forall y | WordAt(a1, y, v)
      ensures WordAt(a2, y, v)
    {
      assert y != c && y != a1.next;
      assert a2.nodes[y] == a1.nodes[y];
    }
  }

  /** The words after a split: the new leaf spells the word of the split child. */
  lemma {:induction false} SplitWords(a1: Arena, c: nat, a2: Arena)
    requires Wf(a1) && c in a1.nodes && c != Root
    requires a1.nodes[c].chars != [] && a1.nodes[c].children == [] && a1.nodes[c].data.Some?
    requires a2 == SplitShape(a1, c) && Linked(a2)
    ensures a1.next !in a1.nodes && a1.next in a2.nodes
    ensures forall y | y in a1.nodes && y != c :: Word(a2, y) == Word(a1, y)
    ensures Word(a2, a1.next) == Word(a1, c)
    ensures Word(a2, c) == Word(a1, a1.nodes[c].parent) + [a1.nodes[c].start.value]
  {
    assert a1.next !in a1.nodes;
    forall y | y in a1.nodes && y != c
      ensures Word(a2, y) == Word(a1, y)
    {
      SplitWordKept(a1, c, a2, y);
    }
    SplitLeafWord(a1, c, a2);
  }

  lemma {:induction false} SplitLeafWord(a1: Arena, c: nat, a2: Arena)
    requires Wf(a1) && c in a1.nodes && c != Root
    requires a1.nodes[c].chars != [] && a1.nodes[c].children == [] && a1.nodes[c].data.Some?
    requires a2 == SplitShape(a1, c) && Linked(a2)
    ensures a1.next in a2.nodes && Word(a2, a1.next) == Word(a1, c)
    ensures Word(a2, c) == Word(a1, a1.nodes[c].parent) + [a1.nodes[c].start.value]
  {
    var p := a1.nodes[c].parent;
    assert ParentOk(a1, c);
    SplitWordKept(a1, c, a2, p);
    assert a1.nodes[c].start.Some? && c < a1.next;
    LeafWordAfterSplit(a1, c, a2);
  }

  lemma {:induction false} LeafWordAfterSplit(a1: Arena, c: nat, a2: Arena)
    requires Linked(a1) && c in a1.nodes && c != Root && a1.nodes[c].start.Some?
    requires a1.nodes[c].chars != [] && a1.nodes[c].data.Some? && a1.next !in a1.nodes
    requires c < a1.next && a2 == SplitShape(a1, c) && Linked(a2)
    requires Word(a2, a1.nodes[c].parent) == Word(a1, a1.nodes[c].parent)
    ensures a1.next in a2.nodes && Word(a2, a1.next) == Word(a1, c)
    ensures Word(a2, c) == Word(a1, a1.nodes[c].parent) + [a1.nodes[c].start.value]
  {
    var ch := a1.nodes[c];
    var wp := Word(a1, ch.parent);
    assert a2.nodes[c].parent == ch.parent && Label(a2.nodes[c]) == [ch.start.value];
    assert Word(a2, c) == wp + [ch.start.value];
    var leaf := a2.nodes[a1.next];
    assert leaf.parent == c && leaf.start == Some(ch.chars[0]) && leaf.chars == ch.chars[1..];
    assert Label(leaf) == ch.chars;
  }

  lemma {:induction false} SplitWordKept(a1: Arena, c: nat, a2: Arena, y: nat)
    requires Wf(a1) && c in a1.nodes && a1.nodes[c].chars != [] && a1.nodes[c].data.Some?
    requires a1.nodes[c].children == []
    requires a2 == SplitShape(a1, c) && Linked(a2) && y in a1.nodes && y != c
    ensures Word(a2, y) == Word(a1, y)
    decreases y
  {
    if y != Root {
      assert ParentOk(a1, y);
      var p := a1.nodes[y].parent;
      assert p != c by { assert ChildrenOk(a1, p); }
      SplitWordKept(a1, c, a2, p);
    }
  }

  /**
   * The position list stored under a word after inserting it with the
   * positions `d`: the first position of `d` appended to the list already
   * there, or `d` itself for a new word.
   */
  function Added(stored: Option<seq<int>>, d: seq<int>): seq<int>
    requires |d| > 0
  {
    if stored.Some? then stored.value + [d[0]] else d
  }

  /**
   * `insert(word, newData)` on a node without remaining characters stores
   * the word `toString() + word`: with the positions of `newData` when it is
   * new, with the first of them appended when it was there; every other
   * word keeps its positions.
   */
  lemma {:induction false} InsertContents(a: Arena, id: nat, word: string, d: seq<int>, v: string)
    requires Valid(a) && id in a.nodes && a.nodes[id].chars == [] && |word| > 0 && |d| > 0
    ensures Lookup(InsertF(a, id, word, d), v) ==
      if v == Word(a, id) + word then Some(Added(Lookup(a, v), d)) else Lookup(a, v)
    decreases if a.nodes[id].children == [] then 0 else 1, |word|, 3
  {
    match Find(a, a.nodes[id].children, word[0])
    case None =>
      AddLeafContents(a, id, word, d, v);
      if v == Word(a, id) + word {
        forall y | y in a.nodes
          ensures Word(a, y) != v
        {
          NewWordAbsent(a, id, word, y);
        }
      }
    case Some(c) =>
      InsertAtChildContents(a, id, c, word, d, v);
  }

  lemma {:induction false} InsertAtChildContents(a: Arena, id: nat, c: nat, word: string, d: seq<int>, v: string)
    requires Valid(a) && id in a.nodes && a.nodes[id].chars == [] && |word| > 0 && |d| > 0
    requires Find(a, a.nodes[id].children, word[0]) == Some(c)
    ensures Lookup(InsertAtChild(a, id, c, word, d), v) ==
      if v == Word(a, id) + word then Some(Added(Lookup(a, v), d)) else Lookup(a, v)
    decreases 1, |word|, 2
  {
    ClearLeafPost(a, id);
    ChildIn(a, id, c);
    var a1 := SetNode(a, id, a.nodes[id].(isLeaf := false));
    ClearLeafContents(a, id, v);
    ChildWord(a1, id, c);
    var ch := a1.nodes[c];
    if ch.isWord && word == Label(ch) {
      var n := ch.(data := Some(ch.data.value + [d[0]]));
      AddPositionPost(a1, c, id, d);
      SetFlagsLookup(a1, c, n, v);
      LookupOwn(a1, c);
    } else {
      InsertBelowContents(a1, c, word, d, v);
    }
  }

  /** Clearing `isLeaf` of a node with children changes no word and no position list. */
  lemma {:induction false} ClearLeafContents(a: Arena, id: nat, v: string)
    requires Valid(a) && id in a.nodes && a.nodes[id].children != []
    ensures var a1 := SetNode(a, id, a.nodes[id].(isLeaf := false));
      && Linked(a1) && (forall y | y in a1.nodes :: Word(a1, y) == Word(a, y))
      && Lookup(a1, v) == Lookup(a, v)
  {
    var n := a.nodes[id].(isLeaf := false);
    ClearLeafPost(a, id);
    SetFlagsWords(a, id, n);
    SetFlagsLookup(a, id, n, v);
    LookupOwn(a, id);
  }

  lemma {:induction false} InsertBelowContents(a1: Arena, c: nat, word: string, d: seq<int>, v: string)
    requires Valid(a1) && c in a1.nodes && c != Root && |word| > 0 && |d| > 0
    requires a1.nodes[c].start == Some(word[0])
    requires !(a1.nodes[c].isWord && word == Label(a1.nodes[c]))
    ensures Lookup(InsertBelow(a1, c, word, d), v) ==
      var t := Word(a1, a1.nodes[c].parent) + word;
      if v == t then Some(Added(Lookup(a1, v), d)) else Lookup(a1, v)
    decreases 1, |word|, 1
  {
    if |word| == 1 {
      BelowMarkContents(a1, c, word, d, v);
    } else {
      BelowDeeperContents(a1, c, word, d, v);
      assert InsertBelow(a1, c, word, d) == InsertF(Decompress(a1, c), c, word[1..], d);
    }
  }

  /** `insert` of a longer rest: it goes on below the (split) child. */
  lemma {:induction false} BelowDeeperContents(a1: Arena, c: nat, word: string, d: seq<int>, v: string)
    requires Valid(a1) && c in a1.nodes && c != Root && |word| > 1 && |d| > 0
    requires a1.nodes[c].start == Some(word[0])
    ensures Lookup(InsertF(Decompress(a1, c), c, word[1..], d), v) ==
      var t := Word(a1, a1.nodes[c].parent) + word;
      if v == t then Some(Added(Lookup(a1, v), d)) else Lookup(a1, v)
    decreases 1, |word|, 0
  {
    DeeperTarget(a1, c, word, v);
    InsertContents(Decompress(a1, c), c, word[1..], d, v);
  }

  lemma {:induction false} DeeperTarget(a1: Arena, c: nat, word: string, v: string)
    requires Valid(a1) && c in a1.nodes && c != Root && |word| > 1
    requires a1.nodes[c].start == Some(word[0])
    ensures ParentOk(a1, c)
    ensures var a2 := Decompress(a1, c);
      && Word(a2, c) + word[1..] == Word(a1, a1.nodes[c].parent) + word
      && Lookup(a2, v) == Lookup(a1, v)
  {
    SplitKeeps(a1, c, v);
    AppendFirst(Word(a1, a1.nodes[c].parent), word);
  }

  lemma {:induction false} AppendFirst(u: string, w: string)
    requires |w| > 0
    ensures (u + [w[0]]) + w[1..] == u + w
  {
    assert w == [w[0]] + w[1..];
  }

  /** `insert` of a one-character rest: the (split) child becomes the word. */
  lemma {:induction false} BelowMarkContents(a1: Arena, c: nat, word: string, d: seq<int>, v: string)
    requires Valid(a1) && c in a1.nodes && c != Root && |word| == 1 && |d| > 0
    requires a1.nodes[c].start == Some(word[0])
    requires !(a1.nodes[c].isWord && word == Label(a1.nodes[c]))
    ensures var a2 := Decompress(a1, c);
      Lookup(SetNode(a2, c, a2.nodes[c].(isWord := true, data := Some(d))), v) ==
      var t := Word(a1, a1.nodes[c].parent) + word;
      if v == t then Some(Added(Lookup(a1, v), d)) else Lookup(a1, v)
  {
    var t := Word(a1, a1.nodes[c].parent) + word;
    var a2 := Decompress(a1, c);
    SplitKeeps(a1, c, v);
    SplitKeeps(a1, c, t);
    OneChar(Word(a1, a1.nodes[c].parent), word, a1.nodes[c]);
    MarkWordContents(a2, c, d, v);
  }

  lemma {:induction false} OneChar(u: string, w: string, n: Node)
    requires |w| == 1 && n.start == Some(w[0])
    ensures u + [w[0]] == u + w
    ensures n.chars == [] ==> Label(n) == w
  {
    assert w == [w[0]];
  }

  /** Making a child that is not yet a word the word, with the positions `d`. */
  lemma {:induction false} MarkWordContents(a2: Arena, c: nat, d: seq<int>, v: string)
    requires Valid(a2) && c in a2.nodes && c != Root && a2.nodes[c].chars == [] && |d| > 0
    requires !a2.nodes[c].isWord
    ensures Lookup(SetNode(a2, c, a2.nodes[c].(isWord := true, data := Some(d))), v) ==
      if v == Word(a2, c) then Some(d) else Lookup(a2, v)
    ensures Lookup(a2, Word(a2, c)) == None
  {
    var n := a2.nodes[c].(isWord := true, data := Some(d));
    MarkWordPost(a2, c, c, d);
    SetFlagsLookup(a2, c, n, v);
    LookupOwn(a2, c);
  }

  /**
   * The split that `insert` performs on a compressed child (nothing when it
   * has no remaining characters): the child then spells its parent's word
   * and its start character, and no position list changes.
   */
  lemma {:induction false} SplitKeeps(a1: Arena, c: nat, v: string)
    requires Valid(a1) && c in a1.nodes && c != Root
    ensures ParentOk(a1, c)
    ensures var a2 := Decompress(a1, c);
      && a2.nodes[c].start == a1.nodes[c].start
      && (a2.nodes[c].isWord ==> a2.nodes[c] == a1.nodes[c])
      && Word(a2, c) == Word(a1, a1.nodes[c].parent) + [a1.nodes[c].start.value]
      && Lookup(a2, v) == Lookup(a1, v)
  {
    ParentHasNoChars(a1, c);
    if a1.nodes[c].chars != [] {
      SplitChildKeeps(a1, c, v);
    }
  }

  lemma {:induction false} SplitChildKeeps(a1: Arena, c: nat, v: string)
    requires Valid(a1) && c in a1.nodes && c != Root && a1.nodes[c].chars != []
    ensures var a2 := SplitChild(a1, c);
      && c in a2.nodes && a2.nodes[c].start == a1.nodes[c].start && !a2.nodes[c].isWord
      && Word(a2, c) == Word(a1, a1.nodes[c].parent) + [a1.nodes[c].start.value]
      && Lookup(a2, v) == Lookup(a1, v)
  {
    var a2 := SplitChild(a1, c);
    SplitChildIs(a1, c);
    assert a1.nodes[c].isWord;
    SplitWords(a1, c, a2);
    SplitContents(a1, c, a2, v);
  }
}
