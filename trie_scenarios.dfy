/**
 * Sequences of `insert` calls on a new trie, the scenarios of TestTrie.java,
 * and the post-condition that Trie.java's `insert` asserts as written.
 */
module TrieScenarios {
  import opened Wrappers
  import opened TrieNodes
  import opened TrieContents
  import opened TrieSpec
  import opened TrieNodeLaws
  import opened WordDeletes

  /** A new trie after `insert(ws[k].0, new Data(ws[k].1))` for each `k` in turn. */
  ghost function Inserted(ws: seq<(string, int)>): (r: Arena)
    ensures Valid(r)
    decreases |ws|
  {
    if ws == [] then
      EmptyArenaValid();
      EmptyArena()
    else
      TrieInsertF(Inserted(ws[..|ws| - 1]), ws[|ws| - 1].0, [ws[|ws| - 1].1])
  }

  /** The positions inserted under `v`, in insertion order: those of the letters-only words that lowercase to `v`. */
  function PositionsOf(ws: seq<(string, int)>, v: string): seq<int>
    decreases |ws|
  {
    if ws == [] then []
    else
      var (w, pos) := ws[|ws| - 1];
      PositionsOf(ws[..|ws| - 1], v) + (if IsLetters(w) && Lower(w) == v then [pos] else [])
  }

  /**
   * After a sequence of inserts the trie stores exactly the lowercased
   * letters-only words, each with the positions it was inserted with, in
   * insertion order.
   */
  lemma {:induction false} InsertedLookup(ws: seq<(string, int)>, v: string)
    ensures Lookup(Inserted(ws), v) == if PositionsOf(ws, v) == [] then None else Some(PositionsOf(ws, v))
    decreases |ws|
  {
    if ws == [] {
      EmptyArenaValid();
      NothingStored(v);
    } else {
      var init := ws[..|ws| - 1];
      var (w, pos) := ws[|ws| - 1];
      var prev := Inserted(init);
      assert Inserted(ws) == TrieInsertF(prev, w, [pos]);
      assert PositionsOf(ws, v) == PositionsOf(init, v) + (if IsLetters(w) && Lower(w) == v then [pos] else []);
      InsertedLookup(init, v);
      TrieInsertContents(prev, w, [pos], v);
      AddedStep(Lookup(prev, v), PositionsOf(init, v), pos, IsLetters(w) && Lower(w) == v);
    }
  }

  /** One more insert in terms of the position lists. */
  lemma {:induction false} AddedStep(stored: Option<seq<int>>, ps: seq<int>, pos: int, hit: bool)
    requires stored == if ps == [] then None else Some(ps)
    ensures var qs := ps + (if hit then [pos] else []);
      (if hit then Some(Added(stored, [pos])) else stored) == if qs == [] then None else Some(qs)
  {
    if hit {
      assert [pos][0] == pos;
      assert |ps + [pos]| > 0;
      if ps == [] {
        assert ps + [pos] == [pos];
      }
    } else {
      assert ps + [] == ps;
    }
  }

  /** A new trie stores no word. */
  lemma {:induction false} NothingStored(v: string)
    ensures Lookup(EmptyArena(), v) == None
  {
    assert forall y | y in EmptyArena().nodes :: y == Root;
  }

  // ---------------------------------------------------------------------
  // TestTrie.java

  function ThreeWords(): seq<(string, int)>
  {
    [("do", 1), ("dorm", 4), ("doll", 7)]
  }

  function FiveWords(): seq<(string, int)>
  {
    ThreeWords() + [("send", 8), ("sense", 5)]
  }

  lemma {:induction false} ScenarioWordsLower()
    ensures Lower("do") == "do" && Lower("dorm") == "dorm" && Lower("doll") == "doll"
    ensures Lower("send") == "send" && Lower("sense") == "sense"
    ensures IsLetters("do") && IsLetters("dorm") && IsLetters("doll") && IsLetters("send") && IsLetters("sense")
  {
    LowerLetters("do");
    LowerLetters("dorm");
    LowerLetters("doll");
    LowerLetters("send");
    LowerLetters("sense");
  }

  /** The positions inserted under each word in ThreeWords. */
  lemma {:induction false} ThreePositions(v: string)
    ensures PositionsOf(ThreeWords(), v) ==
      if v == "do" then [1] else if v == "dorm" then [4] else if v == "doll" then [7] else []
  {
    ScenarioWordsLower();
    var ws := ThreeWords();
    assert ws[..2] == [("do", 1), ("dorm", 4)] && ws[..2][..1] == [("do", 1)] && ws[..2][..1][..0] == [];
    var p1 := if v == "do" then [1] else [];
    var p2 := p1 + if v == "dorm" then [4] else [];
    assert PositionsOf(ws[..2][..1], v) == [] + p1 == p1;
    assert PositionsOf(ws[..2], v) == p2;
    assert PositionsOf(ws, v) == p2 + if v == "doll" then [7] else [];
  }

  /** The words stored after inserting do@1, dorm@4 and doll@7. */
  lemma {:induction false} ThreeStored(v: string)
    ensures Lookup(Inserted(ThreeWords()), v) ==
      if v == "do" then Some([1]) else if v == "dorm" then Some([4]) else if v == "doll" then Some([7]) else None
  {
    InsertedLookup(ThreeWords(), v);
    ThreePositions(v);
  }

  /** testInsertAndSearch: the three searches return positions 1, 4 and 7. */
  lemma {:induction false} ScenarioSearch()
    ensures var a := Inserted(ThreeWords());
      SearchF(a, "do") == Some([1]) && SearchF(a, "dorm") == Some([4]) && SearchF(a, "doll") == Some([7])
  {
    var a := Inserted(ThreeWords());
    ThreeStored("do");
    ThreeStored("dorm");
    ThreeStored("doll");
    SearchFindsWord(a, "do");
    SearchFindsWord(a, "dorm");
    SearchFindsWord(a, "doll");
  }

  /** No word stored in the three-word trie starts with "doo". */
  lemma {:induction false} NoneStartsDoo(w: string)
    requires w == "do"
    ensures forall t | Lookup(Inserted(ThreeWords()), t).Some? :: !(w + [w[|w| - 1]] <= t)
  {
    assert w + [w[|w| - 1]] == "doo";
    forall t | Lookup(Inserted(ThreeWords()), t).Some?
      ensures !("doo" <= t)
    {
      ThreeStored(t);
      assert "dorm"[2] == 'r' && "doll"[2] == 'l' && "doo"[2] == 'o';
    }
  }

  /** `delete("do")` on the three-word trie clears "do" and keeps the other words. */
  lemma {:induction false} DeleteDo(v: string)
    ensures var a := Inserted(ThreeWords());
      var r := TrieDeleteF(a, "do");
      SearchF(r, "do") == None && (v != "do" ==> Lookup(r, v) == Lookup(a, v))
  {
    var a := Inserted(ThreeWords());
    ThreeStored("do");
    ThreeStored("dorm");
    NoneStartsDoo("do");
    assert "do" < "dorm";
    TrieDeleteDemotes(a, "do", "dorm", v);
  }

  /** testDelete: after `delete("do")`, `search("do")` is null; dorm and doll are still found. */
  lemma {:induction false} ScenarioDelete()
    ensures var a := Inserted(ThreeWords());
      var r := TrieDeleteF(a, "do");
      SearchF(a, "do").Some? && SearchF(r, "do") == None
      && SearchF(r, "dorm") == Some([4]) && SearchF(r, "doll") == Some([7])
  {
    var a := Inserted(ThreeWords());
    var r := TrieDeleteF(a, "do");
    ScenarioSearch();
    DeleteDo("dorm");
    DeleteDo("doll");
    ThreeStored("dorm");
    ThreeStored("doll");
    TrieDeleteValid(a, "do");
    SearchFindsWord(r, "dorm");
    SearchFindsWord(r, "doll");
  }

  /** The words that have positions in FiveWords. */
  lemma {:induction false} FivePositions(v: string)
    ensures PositionsOf(FiveWords(), v) != [] <==> v in {"do", "dorm", "doll", "send", "sense"}
  {
    ScenarioWordsLower();
    var ws := FiveWords();
    assert ws[..4] == ThreeWords() + [("send", 8)] && ws[..4][..3] == ThreeWords();
    ThreePositions(v);
  }

  /** The words stored after inserting do, dorm, doll, send and sense. */
  lemma {:induction false} FiveStored(v: string)
    ensures Lookup(Inserted(FiveWords()), v).Some? <==> v in {"do", "dorm", "doll", "send", "sense"}
  {
    InsertedLookup(FiveWords(), v);
    FivePositions(v);
  }

  /** testAutocomplete: `autocomplete("do")` has do, dorm and doll and neither send nor sense. */
  lemma {:induction false} ScenarioAutocomplete()
    ensures var r := AutocompleteF(Inserted(FiveWords()), "do");
      "do" in r && "dorm" in r && "doll" in r && "send" !in r && "sense" !in r
  {
    var a := Inserted(FiveWords());
    FiveStored("do");
    FiveStored("dorm");
    FiveStored("doll");
    var y := DescendToWord(a, "do");
    TrieAutocompleteExact(a, y, "do");
    TrieAutocompleteExact(a, y, "dorm");
    TrieAutocompleteExact(a, y, "doll");
    TrieAutocompleteExact(a, y, "send");
    TrieAutocompleteExact(a, y, "sense");
  }

  // ---------------------------------------------------------------------
  // `delete` of one of "to" and "too".

  function ToToo(): seq<(string, int)>
  {
    [("to", 1), ("too", 2)]
  }

  function ToTooTom(): seq<(string, int)>
  {
    [("to", 1), ("too", 2), ("tom", 3)]
  }

  /** "too" is "to" followed by its own last letter. */
  lemma {:induction false} TooRepeatsTo()
    ensures "to" + ["to"[|"to"| - 1]] == "too"
  {
  }

  /** The positions inserted under each word in ToToo and ToTooTom. */
  lemma {:induction false} ToPositions(v: string)
    ensures PositionsOf(ToToo(), v) == if v == "to" then [1] else if v == "too" then [2] else []
    ensures PositionsOf(ToTooTom(), v) ==
      if v == "to" then [1] else if v == "too" then [2] else if v == "tom" then [3] else []
  {
    LowerLetters("to");
    LowerLetters("too");
    LowerLetters("tom");
    var ws := ToToo();
    assert ToTooTom()[..2] == ws && ws[..1] == [("to", 1)] && ws[..1][..0] == [];
    var p1 := if v == "to" then [1] else [];
    assert PositionsOf(ws[..1], v) == [] + p1 == p1;
    var p2 := p1 + if v == "too" then [2] else [];
    assert PositionsOf(ws, v) == p2;
    assert PositionsOf(ToTooTom(), v) == p2 + if v == "tom" then [3] else [];
  }

  /** The words stored after inserting to@1 and too@2. */
  lemma {:induction false} ToTooStored(v: string)
    ensures Lookup(Inserted(ToToo()), v) ==
      if v == "to" then Some([1]) else if v == "too" then Some([2]) else None
  {
    InsertedLookup(ToToo(), v);
    ToPositions(v);
  }

  /** The words stored after inserting to@1, too@2 and tom@3. */
  lemma {:induction false} ToTooTomStored(v: string)
    ensures Lookup(Inserted(ToTooTom()), v) ==
      if v == "to" then Some([1]) else if v == "too" then Some([2]) else if v == "tom" then Some([3]) else None
  {
    InsertedLookup(ToTooTom(), v);
    ToPositions(v);
  }

  /** No word stored in either trie extends "too". */
  lemma {:induction false} NothingBeyondToo()
    ensures forall t | Lookup(Inserted(ToToo()), t).Some? :: !("too" < t)
    ensures forall t | Lookup(Inserted(ToTooTom()), t).Some? :: !("too" < t)
  {
    forall t | Lookup(Inserted(ToToo()), t).Some?
      ensures !("too" < t)
    {
      ToTooStored(t);
    }
    forall t | Lookup(Inserted(ToTooTom()), t).Some?
      ensures !("too" < t)
    {
      ToTooTomStored(t);
    }
  }

  /** As written: with to@1 and too@2 stored, `delete("to")` removes "too" as well. */
  lemma {:induction false} DeleteToTakesToo()
    ensures var a := Inserted(ToToo());
      Lookup(a, "too") == Some([2]) && Lookup(TrieDeleteF(a, "to"), "too") == None
  {
    ToTooStored("to");
    ToTooStored("too");
    TooRepeatsTo();
    TrieDeleteTakesRepeat(Inserted(ToToo()), "to");
  }

  /**
   * As written: with to@1 and too@2 stored, `delete("too")` removes "to" as
   * well, whose node is left childless and is removed in the cascade.
   */
  lemma {:induction false} DeleteTooTakesTo()
    ensures var a := Inserted(ToToo());
      Lookup(a, "to") == Some([1]) && Lookup(TrieDeleteF(a, "too"), "to") == None
  {
    ToTooStored("to");
    ToTooStored("too");
    NothingBeyondToo();
    TooRepeatsTo();
    TrieDeleteTakesShorter(Inserted(ToToo()), "to");
  }

  /**
   * As written: with to@1, too@2 and tom@3 stored, `delete("too")` clears
   * "to", whose node keeps tom and is asked to delete its own label.
   */
  lemma {:induction false} DeleteTooClearsTo()
    ensures var a := Inserted(ToTooTom());
      Lookup(a, "to") == Some([1]) && Lookup(TrieDeleteF(a, "too"), "to") == None
  {
    ToTooTomStored("to");
    ToTooTomStored("too");
    NothingBeyondToo();
    TooRepeatsTo();
    TrieDeleteTakesShorter(Inserted(ToTooTom()), "to");
  }

  /** The intended delete on the same tries removes only the word it is given. */
  lemma {:induction false} WordDeleteToToo()
    ensures var a := Inserted(ToToo());
      && Lookup(WordDeleteF(a, "to"), "to") == None && Lookup(WordDeleteF(a, "to"), "too") == Some([2])
      && Lookup(WordDeleteF(a, "too"), "too") == None && Lookup(WordDeleteF(a, "too"), "to") == Some([1])
    ensures var b := Inserted(ToTooTom());
      && Lookup(WordDeleteF(b, "too"), "too") == None
      && Lookup(WordDeleteF(b, "too"), "to") == Some([1]) && Lookup(WordDeleteF(b, "too"), "tom") == Some([3])
  {
    ToTooStored("to");
    ToTooStored("too");
    ToTooTomStored("to");
    ToTooTomStored("too");
    ToTooTomStored("tom");
    WordDeleteExact(Inserted(ToToo()), "to");
    WordDeleteExact(Inserted(ToToo()), "too");
    WordDeleteExact(Inserted(ToTooTom()), "too");
  }

  // ---------------------------------------------------------------------
  // The assertion `search(word) != null` at the end of Trie.insert.

  /**
   * As written, the assertion searches the word as given rather than the
   * lowercased word that was inserted: after inserting "Do" into a new
   * trie, `search("Do")` is null although "do" is stored.
   */
  lemma {:induction false} PostAssertAsWritten()
    ensures var r := TrieInsertF(EmptyArena(), "Do", [1]);
      IsLetters("Do") && SearchF(r, "Do") == None && SearchF(r, "do") == Some([1])
  {
    EmptyArenaValid();
    assert IsLetter('D') && IsLetter('o');
    assert Lower("Do") == "do";
    var r := TrieInsertF(EmptyArena(), "Do", [1]);
    NothingStored("do");
    TrieInsertContents(EmptyArena(), "Do", [1], "do");
    SearchFindsWord(r, "do");
    if SearchF(r, "Do").Some? {
      var w := SearchSound(r, "Do");
      NothingStored(w);
      TrieInsertContents(EmptyArena(), "Do", [1], w);
    }
  }

  /**
   * The assertion also fails for every word the guard refuses: "a1" is not
   * inserted, so `search("a1")` is null.
   */
  lemma {:induction false} PostAssertRefused()
    ensures !IsLetters("a1") && SearchF(TrieInsertF(EmptyArena(), "a1", [1]), "a1") == None
  {
    EmptyArenaValid();
    assert "a1"[1] == '1' && !IsLetter('1');
    assert !IsLetters("a1");
    assert TrieInsertF(EmptyArena(), "a1", [1]) == EmptyArena();
  }
}
