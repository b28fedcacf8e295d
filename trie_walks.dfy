/**
 * The read-only pre-order walks of TrieNode.java: `autocomplete()`,
 * `getAlfabeticalOrder(depth)` and `getFrequencyOrder()`. Each visits a node,
 * then its children in list order, and descends only when `isLeaf` is false.
 */
module TrieWalks {
  import opened Wrappers
  import opened TrieNodes

  /** `y` is a word node in the subtree of `x` and its reconstructed word is `w`. */
  ghost predicate WordBelow(a: Arena, x: nat, y: nat, w: string)
    requires Linked(a)
  {
    y in a.nodes && IsAncestor(a, x, y) && a.nodes[y].isWord && Word(a, y) == w
  }

  /** The children `cs` of `p` are in the arena and have larger ids. */
  ghost predicate ChildIds(a: Arena, cs: seq<nat>, p: nat)
  {
    forall k | 0 <= k < |cs| :: cs[k] in a.nodes && p < cs[k]
  }

  lemma {:induction false} ChildIdsOf(a: Arena, x: nat)
    requires Wf(a) && x in a.nodes
    ensures ChildIds(a, a.nodes[x].children, x)
  {
    assert ChildrenOk(a, x);
  }

  // ---------------------------------------------------------------------
  // autocomplete()

  /** `autocomplete()`: the words of the subtree of `x`, in pre-order. */
  function Autocomplete(a: Arena, x: nat): seq<string>
    requires Wf(a) && x in a.nodes
    decreases a.next - x, 1
  {
    var n := a.nodes[x];
    (if n.isWord then [Word(a, x)] else [])
    + (if !n.isLeaf then ChildIdsOf(a, x); AutocompleteAll(a, n.children, x) else [])
  }

  function AutocompleteAll(a: Arena, cs: seq<nat>, p: nat): seq<string>
    requires Wf(a) && p in a.nodes && ChildIds(a, cs, p)
    decreases a.next - p, 0, |cs|
  {
    if cs == [] then [] else Autocomplete(a, cs[0]) + AutocompleteAll(a, cs[1..], p)
  }

  /** Every word `autocomplete()` returns is the word of a word node of the subtree. */
  lemma {:induction false} AutocompleteSound(a: Arena, x: nat, w: string)
    requires Wf(a) && x in a.nodes && w in Autocomplete(a, x)
    ensures exists y :: WordBelow(a, x, y, w)
    decreases a.next - x, 1
  {
    var n := a.nodes[x];
    if n.isWord && w == Word(a, x) {
      assert WordBelow(a, x, x, w);
    } else {
      ChildIdsOf(a, x);
      var k := AutocompleteAllSound(a, n.children, x, w);
      var c := n.children[k];
      assert ChildrenOk(a, x);
      var y :| WordBelow(a, c, y, w);
      AncestorOfChild(a, x, c, y);
      assert WordBelow(a, x, y, w);
    }
  }

  lemma {:induction false} AutocompleteAllSound(a: Arena, cs: seq<nat>, p: nat, w: string) returns (k: nat)
    requires Wf(a) && p in a.nodes && ChildIds(a, cs, p) && w in AutocompleteAll(a, cs, p)
    ensures k < |cs| && exists y :: WordBelow(a, cs[k], y, w)
    decreases a.next - p, 0, |cs|
  {
    if w in Autocomplete(a, cs[0]) {
      AutocompleteSound(a, cs[0], w);
      k := 0;
    } else {
      var k' := AutocompleteAllSound(a, cs[1..], p, w);
      k := k' + 1;
    }
  }

  /** Everything the walk of child `cs[k]` returns is in the walk of the list. */
  lemma {:induction false} AutocompleteAllHas(a: Arena, cs: seq<nat>, p: nat, k: nat, w: string)
    requires Wf(a) && p in a.nodes && ChildIds(a, cs, p) && k < |cs|
    requires w in Autocomplete(a, cs[k])
    ensures w in AutocompleteAll(a, cs, p)
    decreases k
  {
    if k > 0 {
      AutocompleteAllHas(a, cs[1..], p, k - 1, w);
    }
  }

  /** The word of every word node of the subtree is returned by `autocomplete()`. */
  lemma {:induction false} AutocompleteComplete(a: Arena, x: nat, y: nat)
    requires Wf(a) && Shape(a) && x in a.nodes && y in a.nodes
    requires IsAncestor(a, x, y) && a.nodes[y].isWord
    ensures Word(a, y) in Autocomplete(a, x)
    decreases a.next - x
  {
    if y != x {
      var c := AncestorViaChild(a, x, y);
      assert ChildrenOk(a, x);
      AncestorBelow(a, c, y);
      AutocompleteComplete(a, c, y);
      var cs := a.nodes[x].children;
      var k :| 0 <= k < |cs| && cs[k] == c;
      assert NodeShape(a.nodes[x]);
      ChildIdsOf(a, x);
      AutocompleteAllHas(a, cs, x, k, Word(a, y));
    }
  }

  /** `autocomplete()` returns exactly the words of the word nodes of the subtree. */
  lemma {:induction false} AutocompleteExact(a: Arena, x: nat, w: string)
    requires Wf(a) && Shape(a) && x in a.nodes
    ensures w in Autocomplete(a, x) <==> exists y :: WordBelow(a, x, y, w)
  {
    if w in Autocomplete(a, x) {
      AutocompleteSound(a, x, w);
    }
    if y :| WordBelow(a, x, y, w) {
      AutocompleteComplete(a, x, y);
    }
  }

  // ---------------------------------------------------------------------
  // getAlfabeticalOrder(depth)

  /**
   * `getAlfabeticalOrder(depth)`: every word of the subtree of `x`, mapped
   * to `depth` plus the number of edges from `x` down to its node. The Java
   * TreeMap keeps its keys sorted; as a map, the order is not modelled.
   */
  function AlphabeticalOrder(a: Arena, x: nat, depth: int): map<string, int>
    requires Wf(a) && x in a.nodes
    decreases a.next - x, 1
  {
    var n := a.nodes[x];
    (if n.isWord then map[Word(a, x) := depth] else map[])
    + (if !n.isLeaf then ChildIdsOf(a, x); AlphabeticalOrderAll(a, n.children, x, depth + 1) else map[])
  }

  function AlphabeticalOrderAll(a: Arena, cs: seq<nat>, p: nat, depth: int): map<string, int>
    requires Wf(a) && p in a.nodes && ChildIds(a, cs, p)
    decreases a.next - p, 0, |cs|
  {
    if cs == [] then map[]
    else AlphabeticalOrder(a, cs[0], depth) + AlphabeticalOrderAll(a, cs[1..], p, depth)
  }

  /** The keys of the alphabetical table are the words `autocomplete()` returns. */
  lemma {:induction false} AlphabeticalOrderKeys(a: Arena, x: nat, depth: int)
    requires Wf(a) && x in a.nodes
    ensures AlphabeticalOrder(a, x, depth).Keys == set w | w in Autocomplete(a, x)
    decreases a.next - x, 1
  {
    var n := a.nodes[x];
    if !n.isLeaf {
      ChildIdsOf(a, x);
      AlphabeticalOrderAllKeys(a, n.children, x, depth + 1);
    }
  }

  lemma {:induction false} AlphabeticalOrderAllKeys(a: Arena, cs: seq<nat>, p: nat, depth: int)
    requires Wf(a) && p in a.nodes && ChildIds(a, cs, p)
    ensures AlphabeticalOrderAll(a, cs, p, depth).Keys == set w | w in AutocompleteAll(a, cs, p)
    decreases a.next - p, 0, |cs|
  {
    if cs != [] {
      AlphabeticalOrderKeys(a, cs[0], depth);
      AlphabeticalOrderAllKeys(a, cs[1..], p, depth);
    }
  }

  /**
   * Each word in the alphabetical table is the word of a word node of the
   * subtree, mapped to `depth` plus that node's distance below `x`.
   */
  lemma {:induction false} AlphabeticalOrderValues(a: Arena, x: nat, depth: int, w: string)
    requires Wf(a) && x in a.nodes && w in AlphabeticalOrder(a, x, depth)
    ensures exists y :: WordBelow(a, x, y, w) && AlphabeticalOrder(a, x, depth)[w] == depth + Depth(a, y) - Depth(a, x)
    decreases a.next - x, 1
  {
    var n := a.nodes[x];
    var below := if !n.isLeaf then ChildIdsOf(a, x); AlphabeticalOrderAll(a, n.children, x, depth + 1) else map[];
    if w in below {
      ChildIdsOf(a, x);
      var k := AlphabeticalOrderAllValues(a, n.children, x, depth + 1, w);
      var c := n.children[k];
      assert ChildrenOk(a, x);
      var y :| WordBelow(a, c, y, w) && below[w] == depth + 1 + Depth(a, y) - Depth(a, c);
      AncestorOfChild(a, x, c, y);
      assert WordBelow(a, x, y, w);
    } else {
      assert WordBelow(a, x, x, w);
    }
  }

  lemma {:induction false} AlphabeticalOrderAllValues(a: Arena, cs: seq<nat>, p: nat, depth: int, w: string) returns (k: nat)
    requires Wf(a) && p in a.nodes && ChildIds(a, cs, p) && w in AlphabeticalOrderAll(a, cs, p, depth)
    ensures k < |cs|
    ensures exists y :: WordBelow(a, cs[k], y, w) && AlphabeticalOrderAll(a, cs, p, depth)[w] == depth + Depth(a, y) - Depth(a, cs[k])
    decreases a.next - p, 0, |cs|
  {
    if w in AlphabeticalOrderAll(a, cs[1..], p, depth) {
      var k' := AlphabeticalOrderAllValues(a, cs[1..], p, depth, w);
      k := k' + 1;
    } else {
      AlphabeticalOrderValues(a, cs[0], depth, w);
      k := 0;
    }
  }

  // ---------------------------------------------------------------------
  // getFrequencyOrder()

  /** Every word node holds a non-empty position list (part of `Shape`). */
  ghost predicate WordsHaveData(a: Arena)
  {
    forall x | x in a.nodes && a.nodes[x].isWord :: a.nodes[x].data.Some? && |a.nodes[x].data.value| > 0
  }

  lemma {:induction false} ShapeHasData(a: Arena)
    requires Shape(a)
    ensures WordsHaveData(a)
  {
    forall x | x in a.nodes && a.nodes[x].isWord
      ensures a.nodes[x].data.Some? && |a.nodes[x].data.value| > 0
    {
      assert NodeShape(a.nodes[x]);
    }
  }

  /**
   * `getFrequencyOrder()`: every word of the subtree of `x`, mapped to the
   * number of positions in its Data object.
   */
  function FrequencyOrder(a: Arena, x: nat): map<string, int>
    requires Wf(a) && WordsHaveData(a) && x in a.nodes
    decreases a.next - x, 1
  {
    var n := a.nodes[x];
    (if n.isWord then map[Word(a, x) := |n.data.value|] else map[])
    + (if !n.isLeaf then ChildIdsOf(a, x); FrequencyOrderAll(a, n.children, x) else map[])
  }

  function FrequencyOrderAll(a: Arena, cs: seq<nat>, p: nat): map<string, int>
    requires Wf(a) && WordsHaveData(a) && p in a.nodes && ChildIds(a, cs, p)
    decreases a.next - p, 0, |cs|
  {
    if cs == [] then map[]
    else FrequencyOrder(a, cs[0]) + FrequencyOrderAll(a, cs[1..], p)
  }

  /** The keys of the frequency table are the words `autocomplete()` returns. */
  lemma {:induction false} FrequencyOrderKeys(a: Arena, x: nat)
    requires Wf(a) && WordsHaveData(a) && x in a.nodes
    ensures FrequencyOrder(a, x).Keys == set w | w in Autocomplete(a, x)
    decreases a.next - x, 1
  {
    var n := a.nodes[x];
    if !n.isLeaf {
      ChildIdsOf(a, x);
      FrequencyOrderAllKeys(a, n.children, x);
    }
  }

  lemma {:induction false} FrequencyOrderAllKeys(a: Arena, cs: seq<nat>, p: nat)
    requires Wf(a) && WordsHaveData(a) && p in a.nodes && ChildIds(a, cs, p)
    ensures FrequencyOrderAll(a, cs, p).Keys == set w | w in AutocompleteAll(a, cs, p)
    decreases a.next - p, 0, |cs|
  {
    if cs != [] {
      FrequencyOrderKeys(a, cs[0]);
      FrequencyOrderAllKeys(a, cs[1..], p);
    }
  }

  /**
   * Each word in the frequency table is the word of a word node of the
   * subtree, mapped to the length of that node's position list, which is
   * at least one.
   */
  lemma {:induction false} FrequencyOrderValues(a: Arena, x: nat, w: string)
    requires Wf(a) && WordsHaveData(a) && x in a.nodes && w in FrequencyOrder(a, x)
    ensures FrequencyOrder(a, x)[w] >= 1
    ensures exists y :: WordBelow(a, x, y, w) && a.nodes[y].data.Some? && FrequencyOrder(a, x)[w] == |a.nodes[y].data.value|
    decreases a.next - x, 1
  {
    var n := a.nodes[x];
    var below := if !n.isLeaf then ChildIdsOf(a, x); FrequencyOrderAll(a, n.children, x) else map[];
    if w in below {
      ChildIdsOf(a, x);
      var k := FrequencyOrderAllValues(a, n.children, x, w);
      var c := n.children[k];
      assert ChildrenOk(a, x);
      var y :| WordBelow(a, c, y, w) && a.nodes[y].data.Some? && below[w] == |a.nodes[y].data.value|;
      AncestorOfChild(a, x, c, y);
      assert WordBelow(a, x, y, w);
    } else {
        assert WordBelow(a, x, x, w);
    }
  }

  lemma {:induction false} FrequencyOrderAllValues(a: Arena, cs: seq<nat>, p: nat, w: string) returns (k: nat)
    requires Wf(a) && WordsHaveData(a) && p in a.nodes && ChildIds(a, cs, p) && w in FrequencyOrderAll(a, cs, p)
    ensures k < |cs|
    ensures exists y :: WordBelow(a, cs[k], y, w) && a.nodes[y].data.Some? && FrequencyOrderAll(a, cs, p)[w] == |a.nodes[y].data.value|
    decreases a.next - p, 0, |cs|
  {
    if w in FrequencyOrderAll(a, cs[1..], p) {
      var k' := FrequencyOrderAllValues(a, cs[1..], p, w);
      k := k' + 1;
    } else {
      FrequencyOrderValues(a, cs[0], w);
      k := 0;
    }
  }
}
