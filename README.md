# A path-compressed trie of words and their positions

The system indexes the words of a text. Each word is stored in a
path-compressed trie (a reduced radix tree) together with the list of
positions at which it occurs in the text.

Each `TrieNode` holds:
- a start character, which is absent at the root;
- the remaining characters of its label (`characters`);
- an ordered list of children;
- the flags `isLeaf` and `isWord`;
- a `Data` object holding the position list of the word that ends at the node.

`Trie` wraps the root node. Its `insert` accepts only words made of ASCII letters, and it lowercases them. Its `search`, `delete` and `autocomplete` all descend from the root with one shared loop.

## Model

The model has two layers: a value layer and a class layer.

**Value layer.** The tree is an arena: a map from node ids to `Node` records, plus the next free id. The root is id `0`. A child always has a larger id than its parent, so both upward and downward recursion terminate.

The module `TrieNodeUpdates` states each mutating `TrieNode` operation as a function from the arena before the call to the arena after it: `insert` is `InsertF`, `merge` is `MergeF` and `delete` is `DeleteF`.

`Lookup` reads the contents of the tree as a dictionary: the position list stored under a word is the data of the word node whose reconstructed word (`toString()`) is that word.

**Class layer.** `NodeHeaps.NodeHeap` holds the arena in fields and updates them in place, step by step, in the same order as the Java methods. `Tries.Trie` wraps a `NodeHeap` and runs the descent loop.

Each method's postcondition ties the new state to the matching function. The lemmas then prove what those functions do to the shape of the tree and to its contents.

**Intended delete.** `delete` as written also removes other stored words in some trees (see "## Findings"). The module `WordDeletes` defines `WordDeleteF`, a delete that removes exactly the word it is given, and proves that it does. The class layer does not use it: `Tries.Trie.Delete` follows the code as written.

`Valid` is the invariant of the tree. It is made of the following parts:
- parent and child links agree with each other;
- no two siblings share a start character;
- `isLeaf` holds exactly when a node has no children;
- a node with remaining characters is a word and has no children;
- a word has a non-empty position list, and a non-word has none;
- every childless non-root node is a word.

| member | source | states |
|---|---|---|
| Positions.Data.constructor | src/nl/saxion/dna/Data.java:10-13 | a new Data has exactly the position list `[pos]` |
| Positions.Data.GetPosition | src/nl/saxion/dna/Data.java:15-17 | returns the position list, which is never empty |
| Positions.Data.AddPosition | src/nl/saxion/dna/Data.java:19-21 | appends `pos` at the end; the list grows by exactly one and its earlier entries keep their order |
| TrieNodes.EmptyArenaValid | src/nl/saxion/dna/TrieNode.java:32-38 | the tree built by the root constructor is valid, and its root has no children |
| TrieNodes.Find | src/nl/saxion/dna/TrieNode.java:59-66 | `findNode(s)`: returns the first child whose start character is `s`; returns None exactly when no child starts with `s` |
| NodeHeaps.NodeHeap.FindNode | src/nl/saxion/dna/TrieNode.java:59-66 | the loop returns the first child whose start character matches, or None exactly when there is no such child |
| TrieNodes.GetLeaf | src/nl/saxion/dna/TrieNode.java:171-187 | `getLeaf()`: returns a childless node reached from `x` through single-child links, or None only when a node on that chain has two or more children |
| NodeHeaps.NodeHeap.constructor | src/nl/saxion/dna/TrieNode.java:32-38 | the new tree holds only a root without children, and it is valid |
| NodeHeaps.NodeHeap.Insert | src/nl/saxion/dna/TrieNode.java:76-119 | `insert` updates the nodes in place exactly as `InsertF` states: a new leaf, a position added to an existing word, or an insert continued below the matching child |
| NodeHeaps.NodeHeap.InsertBelow | src/nl/saxion/dna/TrieNode.java:100-116 | the insert below a matched child: split it, then either make it the word or insert the rest of the word below it |
| NodeHeaps.NodeHeap.Decompress | src/nl/saxion/dna/TrieNode.java:102-107 | a child with remaining characters pushes them, its word flag and its data into a new leaf, and is left with no characters, no word flag and no data |
| NodeHeaps.NodeHeap.Merge | src/nl/saxion/dna/TrieNode.java:196-213 | `merge` updates the nodes in place exactly as `MergeF` states |
| NodeHeaps.NodeHeap.Delete | src/nl/saxion/dna/TrieNode.java:128-164 | `delete` updates the nodes in place exactly as `DeleteF` states, including the upward cascade and the final merge |
| NodeHeaps.NodeHeap.RemoveLabelled | src/nl/saxion/dna/TrieNode.java:131-141 | the index loop removes the first child whose full label is `s` (with its subtree) and sets `isLeaf` to "no children left" |
| NodeHeaps.NewLeafIs | src/nl/saxion/dna/TrieNode.java:82-89 | when no child starts with the first character, insert appends one new word leaf, with the remaining word as its label, the data as its positions and `id` as its parent |
| NodeHeaps.FoundWordIs | src/nl/saxion/dna/TrieNode.java:95-98 | re-inserting a word whose child node already spells it appends the first new position to its data and creates no node |
| NodeHeaps.DecompressIs | src/nl/saxion/dna/TrieNode.java:102-107 | the split is an insert of the child's remaining characters and data below it, after which the child has no characters, no word flag and no data |
| NodeHeaps.RemoveLabelledIs | src/nl/saxion/dna/TrieNode.java:131-141 | removing the child at the index the loop found is `RemoveChild` |
| TrieNodes.Word | src/nl/saxion/dna/TrieNode.java:326-332 | `toString()`: the empty string at the root, otherwise the parent's word followed by the node's start character and characters; `Descent.WordInjective` and `Descent.PrefixMeansAncestor` state what it determines |
| Descent.Descend | src/nl/saxion/dna/Trie.java:56-69 | the shared descent loop: the node reached is in the tree, and a `break` at index `i` happens at a node that starts with `prefix[i]` and whose characters are the rest of the prefix |
| TrieWalks.Autocomplete | src/nl/saxion/dna/TrieNode.java:220-237 | `autocomplete()`: the node's own word, if it is one, then the words of its children in list order; `TrieWalks.AutocompleteExact` states which words it returns |
| TrieWalks.AlphabeticalOrder | src/nl/saxion/dna/TrieNode.java:244-265 | `getAlfabeticalOrder(depth)`: the node's word mapped to `depth`, then the children's maps at `depth + 1`, merged in list order as `putAll` does; `TrieWalks.AlphabeticalOrderKeys` and `TrieWalks.AlphabeticalOrderValues` state its keys and values |
| TrieWalks.FrequencyOrder | src/nl/saxion/dna/TrieNode.java:273-296 | `getFrequencyOrder()`: the node's word mapped to the size of its position list, then the children's maps merged in list order; `TrieWalks.FrequencyOrderKeys` and `TrieWalks.FrequencyOrderValues` state its keys and values |
| TrieSpec.IsLetters | src/nl/saxion/dna/Trie.java:37 | the guard `word.matches("[a-zA-Z]+")`: a non-empty word of ASCII letters |
| TrieSpec.Lower | src/nl/saxion/dna/Trie.java:38 | `toLowerCase()` on ASCII: upper-case letters are mapped to lower case and every other character is kept; `TrieSpec.LowerLetters` states its effect on letters-only words |
| TrieSpec.SearchF | src/nl/saxion/dna/Trie.java:49-70 | `search(prefix)`: None when the descent fails, otherwise the data of the node reached; `TrieSpec.SearchFindsWord`, `TrieSpec.SearchSound` and `TrieSpec.SearchGone` state what it returns |
| TrieSpec.TrieDeleteF | src/nl/saxion/dna/Trie.java:76-98 | `delete(prefix)`: nothing when the descent fails, otherwise `delete` of the rest of the prefix at the node reached; keeps the links well-formed |
| TrieSpec.AutocompleteF | src/nl/saxion/dna/Trie.java:128-146 | `autocomplete(prefix)`: empty when the descent fails, otherwise `autocomplete()` of the node reached; `TrieSpec.TrieAutocompleteSound` and `TrieSpec.TrieAutocompleteExact` state what it returns |
| TrieNodeUpdates.InsertAtChild | src/nl/saxion/dna/TrieNode.java:90-118 | `insert` once `findNode` found a child: a duplicate word gets a position appended, otherwise the insert goes on below the child; keeps the shape invariants and the frame of `insert` |
| TrieNodeUpdates.InsertBelow | src/nl/saxion/dna/TrieNode.java:100-116 | split the child, then make it the word or insert the rest of the word below it; keeps the tree valid and the frame of `insert` |
| TrieNodeUpdates.Decompress | src/nl/saxion/dna/TrieNode.java:102-107 | the split, when the child has characters left: keeps the tree valid and leaves the child with no characters |
| TrieNodeUpdates.SplitChild | src/nl/saxion/dna/TrieNode.java:103-106 | `child.insert(child.characters, child.data)`, then the child's word, data and characters are cleared; the child keeps its parent and start character and is no leaf |
| TrieNodeUpdates.MergesUp | src/nl/saxion/dna/TrieNode.java:197 | the guard of `merge()`: the parent is not the root, not a word, and has exactly one child |
| TrieNodeUpdates.Absorb | src/nl/saxion/dna/TrieNode.java:204-208 | one step of `merge()`: the parent takes the node's label, data and word flag, becomes a leaf and drops the node; `TrieNodeDeletes.AbsorbKeeps` states the result |
| TrieNodeUpdates.FindLabel | src/nl/saxion/dna/TrieNode.java:131-141 | the search of `delete`'s loop: the first index from `k` whose child has the full label `s`, or None exactly when no such child remains |
| TrieNodeUpdates.RemoveChild | src/nl/saxion/dna/TrieNode.java:131-141 | the loop of `delete`: removes the first child labelled `s` and recomputes `isLeaf`; `TrieNodeDeletes.RemoveChildIs` states the result |
| TrieNodeUpdates.InsertF | src/nl/saxion/dna/TrieNode.java:76-119 | after `insert` the tree keeps its shape invariants, the node called on has children and is no leaf, no node disappears, nodes with smaller ids are unchanged, and every node keeps its parent and start character |
| TrieNodeUpdates.MergeF | src/nl/saxion/dna/TrieNode.java:196-213 | `merge` keeps the parent and child links well-formed |
| TrieNodeUpdates.DeleteF | src/nl/saxion/dna/TrieNode.java:128-164 | `delete` keeps the parent and child links well-formed |
| TrieNodeLaws.InsertContents | src/nl/saxion/dna/TrieNode.java:76-119 | `insert(word, d)` on a node stores the node's word followed by `word`: with `d` if it is new, with `d[0]` appended if it was stored; every other word keeps its positions |
| TrieNodeLaws.SplitKeeps | src/nl/saxion/dna/TrieNode.java:102-107 | the split keeps the child's start character and every stored word with its positions |
| TrieNodeDeletes.AbsorbKeeps | src/nl/saxion/dna/TrieNode.java:196-212 | one merge step removes the leaf, gives its parent the leaf's word, word flag and data, keeps the tree valid and leaves every other node and word unchanged |
| TrieNodeDeletes.MergeValid | src/nl/saxion/dna/TrieNode.java:196-213 | `merge` keeps the tree valid |
| TrieNodeDeletes.MergeLookup | src/nl/saxion/dna/TrieNode.java:196-213 | `merge` keeps every stored word with its positions |
| TrieNodeDeletes.RemoveChildIs | src/nl/saxion/dna/TrieNode.java:131-141 | removing the child labelled `s` changes nothing if there is none; otherwise it drops exactly that child's subtree, removes it from the list, sets `isLeaf` and leaves every other node as it was |
| TrieNodeDeletes.DeleteValid | src/nl/saxion/dna/TrieNode.java:128-164 | `delete` keeps the tree valid |
| TrieNodeDeletes.DeleteCascades | src/nl/saxion/dna/TrieNode.java:145-147 | a non-root node left without children asks its parent to delete its own label |
| TrieNodeDeletes.DeleteShrinks | src/nl/saxion/dna/TrieNode.java:128-164 | after the child is removed, any word `delete` still stores has the positions it had |
| TrieNodeDeletes.DeleteLookup | src/nl/saxion/dna/TrieNode.java:128-164 | `delete` only removes words: every word still stored keeps its positions |
| TrieNodeDeletes.DeleteOwnWord | src/nl/saxion/dna/TrieNode.java:128-164 | asking a node's parent to delete that node's label removes the node's word |
| TrieNodeDeletes.DeleteOwnPrefix | src/nl/saxion/dna/TrieNode.java:128-164 | `delete` of a node's own label either leaves the node in place as a non-word, or leaves no stored word that starts with the node's word |
| TrieNodeDeletes.CutPrefixGone | src/nl/saxion/dna/TrieNode.java:137 | once a node is removed from its parent's children, no word that starts with its word is stored |
| TrieNodeDeletes.DeleteDemotes | src/nl/saxion/dna/TrieNode.java:150-153 | a node with children whose start character is `s` only loses its word flag and data; its children and links are unchanged |
| Descent.DescendFindsNode | src/nl/saxion/dna/Trie.java:56-69 | the descent loop on a node's reconstructed word stops at that node, at an index inside the word |
| Descent.WordInjective | src/nl/saxion/dna/TrieNode.java:326-332 | no two nodes of a valid tree reconstruct the same word |
| Descent.PrefixMeansAncestor | src/nl/saxion/dna/TrieNode.java:326-332 | a node whose word is a prefix of another node's word is its ancestor |
| TrieWalks.AutocompleteSound | src/nl/saxion/dna/TrieNode.java:220-237 | every string `autocomplete()` returns is the word of a word node in the subtree |
| TrieWalks.AutocompleteComplete | src/nl/saxion/dna/TrieNode.java:220-237 | the word of every word node in the subtree is returned |
| TrieWalks.AutocompleteExact | src/nl/saxion/dna/TrieNode.java:220-237 | a string is returned exactly when it is the word of a word node in the subtree |
| TrieWalks.AlphabeticalOrderKeys | src/nl/saxion/dna/TrieNode.java:244-265 | the keys of `getAlfabeticalOrder` are exactly the words `autocomplete()` returns |
| TrieWalks.AlphabeticalOrderValues | src/nl/saxion/dna/TrieNode.java:244-265 | each word is mapped to `depth` plus the distance of its node below the start node |
| TrieWalks.FrequencyOrderKeys | src/nl/saxion/dna/TrieNode.java:273-296 | the keys of `getFrequencyOrder` are exactly the words `autocomplete()` returns |
| TrieWalks.FrequencyOrderValues | src/nl/saxion/dna/TrieNode.java:273-296 | each word is mapped to the length of its position list, which is at least 1 |
| TrieSpec.TrieInsertF | src/nl/saxion/dna/Trie.java:32-42 | `Trie.insert` keeps the tree valid |
| TrieSpec.LowerLetters | src/nl/saxion/dna/Trie.java:37-38 | lowercasing a letters-only word gives a lowercase letters-only word, and leaves a lowercase word unchanged |
| TrieSpec.TrieInsertContents | src/nl/saxion/dna/Trie.java:32-42 | a letters-only word is stored lowercased: with the new positions if it is new, with the first one appended otherwise; any other word leaves every stored word as it was |
| TrieSpec.InsertThenSearch | src/nl/saxion/dna/Trie.java:32-42 | after inserting a letters-only word, `search` of its lowercase form returns its positions |
| TrieSpec.SearchFindsWord | src/nl/saxion/dna/Trie.java:49-70 | `search` of a stored word returns its positions |
| TrieSpec.SearchSound | src/nl/saxion/dna/Trie.java:49-70 | whatever `search(p)` returns is the position list of a stored word that extends `p` |
| TrieSpec.TrieDeleteValid | src/nl/saxion/dna/Trie.java:76-98 | `Trie.delete` keeps the tree valid |
| TrieSpec.TrieDeleteShrinks | src/nl/saxion/dna/Trie.java:76-98 | `Trie.delete` only removes words: every word still stored keeps its positions |
| TrieSpec.TrieDeleteWord | src/nl/saxion/dna/Trie.java:76-98 | after `delete(w)` of a stored word `w`, `w` is no longer stored and `search(w)` returns None |
| TrieSpec.SearchGone | src/nl/saxion/dna/Trie.java:49-70 | `search(w)` returns None when the node spelling `w` is not a word, or when no stored word starts with `w` |
| TrieSpec.TrieDeleteDemotes | src/nl/saxion/dna/Trie.java:76-98 | deleting a word that is a proper prefix of another stored word, when no stored word extends it by its own last letter, removes only that word, and `search` of it returns None |
| TrieSpec.RepeatChild | src/nl/saxion/dna/Trie.java:76-98 | when `w` and `w` followed by its own last letter are both stored, the longer word's node is a child of the node of `w`, both are labelled by that letter alone, and `delete` of either word calls its node's `delete` with the node's own label |
| TrieSpec.LongestIsLeaf | src/nl/saxion/dna/TrieNode.java:145-147 | the node of a stored word that no longer stored word extends has no children, so `delete` there takes the upward cascade |
| TrieSpec.TrieDeleteTakesRepeat | src/nl/saxion/dna/TrieNode.java:131-147 | as written, `delete(w)` of a stored word also removes the stored word `w` followed by its own last letter |
| TrieSpec.TrieDeleteTakesShorter | src/nl/saxion/dna/TrieNode.java:145-153 | as written, `delete` of `w` followed by its own last letter also removes `w` when no longer word is stored |
| TrieSpec.TrieDeleteRunsOut | src/nl/saxion/dna/Trie.java:84-97 | when the descent of `p` uses up `p` inside the label of a childless node, `delete(p)` removes the word stored there, which starts with `p` |
| TrieSpec.TrieAutocompleteSound | src/nl/saxion/dna/Trie.java:128-146 | every word `autocomplete(p)` returns is stored and extends `p` |
| TrieSpec.TrieAutocompleteExact | src/nl/saxion/dna/Trie.java:128-146 | when `p` spells a node (a word node, an inner node such as "sen" above send and sense, or the root for the empty prefix), `autocomplete(p)` returns exactly the stored words that extend `p` |
| WordDeletes.PruneStep | src/nl/saxion/dna/TrieNode.java:131-141 | removing a childless node from its parent's children keeps every other node |
| WordDeletes.PruneStepLookup | src/nl/saxion/dna/TrieNode.java:131-141 | that removal keeps the invariant everywhere but at the parent, removes the node's word and keeps every other stored word with its positions |
| WordDeletes.PruneKeeps | src/nl/saxion/dna/TrieNode.java:145-147 | pruning a childless node, and then each ancestor left childless that stores no word, keeps the tree valid, removes the node's word and keeps every other stored word |
| WordDeletes.PrunedPrefix | src/nl/saxion/dna/TrieNode.java:145-147 | after pruning the childless node of `w`, no stored word starts with `w` |
| WordDeletes.WordDeleteMiss | src/nl/saxion/dna/Trie.java:76-98 | the intended delete of a word that is not stored changes nothing |
| WordDeletes.WordDeleteExact | src/nl/saxion/dna/Trie.java:76-98 | the intended `delete(w)` keeps the tree valid, removes `w`, keeps every other stored word with its positions, and makes `search(w)` return None when `w` was stored |
| Tries.Trie.constructor | src/nl/saxion/dna/Trie.java:22-24 | a new trie's root has no children |
| Tries.Trie.Insert | src/nl/saxion/dna/Trie.java:32-42 | inserts the lowercased word only if it is made of letters; the tree stays valid, and `search` of the lowercased word then finds data |
| Tries.Trie.Walk | src/nl/saxion/dna/Trie.java:56-69 | the descent loop computes `Descend`: None as soon as a character has no matching child, otherwise the node where the loop stopped and the index reached |
| Tries.Trie.Search | src/nl/saxion/dna/Trie.java:49-70 | returns None when the descent fails and otherwise the data of the node reached; the tree is not changed |
| Tries.Trie.Delete | src/nl/saxion/dna/Trie.java:76-98 | does nothing when the descent fails, and otherwise deletes the rest of the prefix at the node reached; the tree stays valid |
| Tries.Trie.Autocomplete | src/nl/saxion/dna/Trie.java:128-146 | returns nothing when the descent fails, and otherwise the `autocomplete()` of the node reached |
| Tries.Trie.GetRoot | src/nl/saxion/dna/Trie.java:166-168 | returns the root, which has no start character and is an ancestor of every node |
| TrieScenarios.InsertedLookup | src/nl/saxion/dna/Trie.java:32-42 | after a sequence of inserts on a new trie, each word stores exactly the positions inserted under its lowercase form, in insertion order |
| TrieScenarios.ScenarioSearch | src/nl/saxion/dna/TestTrie.java:33-52 | with do@1, dorm@4 and doll@7 inserted, the three searches return `[1]`, `[4]` and `[7]` |
| TrieScenarios.ScenarioDelete | src/nl/saxion/dna/TestTrie.java:58-66 | in that trie, `delete("do")` makes `search("do")` None and leaves dorm and doll found |
| TrieScenarios.ScenarioAutocomplete | src/nl/saxion/dna/TestTrie.java:72-87 | with do, dorm, doll, send and sense inserted, `autocomplete("do")` has do, dorm and doll and neither send nor sense |
| TrieScenarios.ToPositions | src/nl/saxion/dna/Trie.java:32-42 | the positions inserted under each word by to@1 and too@2, and by to@1, too@2 and tom@3 |
| TrieScenarios.ToTooStored | src/nl/saxion/dna/Trie.java:32-42 | after inserting to@1 and too@2, exactly to and too are stored, with `[1]` and `[2]` |
| TrieScenarios.ToTooTomStored | src/nl/saxion/dna/Trie.java:32-42 | after inserting to@1, too@2 and tom@3, exactly those three are stored, with `[1]`, `[2]` and `[3]` |
| TrieScenarios.NothingBeyondToo | src/nl/saxion/dna/Trie.java:32-42 | no word stored in either of those tries extends "too" |
| TrieScenarios.DeleteToTakesToo | src/nl/saxion/dna/TrieNode.java:131-147 | with to@1 and too@2 stored, `delete("to")` also removes too |
| TrieScenarios.DeleteTooTakesTo | src/nl/saxion/dna/TrieNode.java:145-147 | with to@1 and too@2 stored, `delete("too")` also removes to |
| TrieScenarios.DeleteTooClearsTo | src/nl/saxion/dna/TrieNode.java:150-153 | with to@1, too@2 and tom@3 stored, `delete("too")` also clears to |
| TrieScenarios.WordDeleteToToo | src/nl/saxion/dna/Trie.java:76-98 | the intended delete on those tries removes only the word it is given: to, too and tom keep `[1]`, `[2]` and `[3]` when another word is deleted |
| TrieScenarios.PostAssertAsWritten | src/nl/saxion/dna/Trie.java:41 | after inserting "Do", searching "Do" returns None although "do" is stored |
| TrieScenarios.PostAssertRefused | src/nl/saxion/dna/Trie.java:37-41 | a word the guard refuses, such as "a1", is not inserted, so searching it returns None |

## Left out

- Apl.java is not part of this model: it is the driver that reads the input file and prints results.
- `prettyPrint`, `print`, the dot export (`toDotString`, `nodesToDot`, `edgesToDot`) and the static `NR`/`nr` counter are not modelled, because they only render output.
- The console traces inside `delete` are not modelled, because they are output only.
- The printing loops of `Trie.getAlfabeticalOrder` and `Trie.getFrequencyOrder` are not modelled, because they are output only. Their maps are the `TrieNode` walks, which are modelled.
- `MapUtil.sortByValue` is not part of this model. `getFrequencyOrder` is modelled as the unsorted map from word to count.
- The key order of Java's `TreeMap` and `HashMap` is not modelled: the maps are Dafny `map`s.
- The regular expression `[a-zA-Z]+` and `toLowerCase` are modelled as the ASCII predicates `IsLetters` and `Lower`.
- The generic parameter `T` is fixed to `Data`, since the code casts to `Data`.
- Aliasing of `Data` objects is not modelled. The tree stores a node's position list by value, so a caller that keeps its `Data` object and adds positions later is not reflected in the tree.
- Null references become `Option`. The entry assertions of `Trie.insert`, `search` and `delete` reject null or empty arguments. An empty string can be represented but never reaches a stored node, and those methods accept it with the behaviour the code has when assertions are disabled. The check `word != ""` compares references and is not modelled.
- The getters `getCharacters`, `getChildren` and `getData` are not modelled as members. They are read as fields of the `Node` record.
- The `TrieNode` child constructor is not modelled as a member. It is the `NewLeaf` record that `insert` builds.
- `search`, `delete` and `autocomplete` run one descent loop. It is modelled once, as `Tries.Trie.Walk`, which the three methods call.
- Exact-match search is not proved, because the code does not provide it. `search` of a proper prefix of a compressed label returns the longer word's data.
- Completeness of `autocomplete` for prefixes that end inside a label is not proved, because the code does not provide it.
- Recompression after insert is not proved, because the code does not provide it.
- TrieNodeUpdates.MergeF and TrieNodeUpdates.DeleteF: their own postconditions state only that the links stay well-formed. The full invariant and the effect on the contents are stated by the lemmas in `TrieNodeDeletes`.
- TrieSpec.TrieDeleteDemotes: requires that no stored word extends the deleted word by its own last letter. The inputs this excludes are exactly those where the code deletes the longer word as well (TrieSpec.TrieDeleteTakesRepeat, second row of "## Findings"). Deletes that go through the cascade or merge are covered by TrieSpec.TrieDeleteShrinks, and the words they remove besides the deleted one by the last two Findings rows.
- WordDeletes.WordDeleteF: the intended delete does not re-merge the nodes above a removed word, because merging changes no stored word.

## Findings

| source | as written | input that shows it | evidently intended | confidence | as-written member | corrected member |
|---|---|---|---|---|---|---|
| src/nl/saxion/dna/Trie.java:41 | after inserting, `insert` asserts `search(word) != null` on the word as given, but the tree stores `word.toLowerCase()`, and stores nothing for a word the guard refused | insert("Do", data) into a new trie: "do" is stored, `search("Do")` is null and the assertion fails; insert("a1", data) fails the same way | assert that `search` of the lowercased word is non-null, and only for a word that passed the guard | not executed | TrieScenarios.PostAssertAsWritten | Tries.Trie.Insert |
| src/nl/saxion/dna/TrieNode.java:131-147 | `Trie.delete(w)` calls `delete` on the node of `w` with the node's own label; when that label is one letter, the loop removes the node's child carrying the same letter, which holds a different word (TrieSpec.TrieDeleteTakesRepeat) | with to@1 and too@2 stored, `delete("to")` also removes "too" | `delete(w)` removes `w` only; a word node with children only loses its word | not executed | TrieScenarios.DeleteToTakesToo | WordDeletes.WordDeleteExact |
| src/nl/saxion/dna/TrieNode.java:145-147 | a node left childless asks its parent to delete it even when it stores a word, so the cascade removes word nodes above the deleted word (TrieSpec.TrieDeleteTakesShorter) | with to@1 and too@2 stored, `delete("too")` also removes "to" | the cascade stops at the first ancestor that stores a word | not executed | TrieScenarios.DeleteTooTakesTo | WordDeletes.WordDeleteExact |
| src/nl/saxion/dna/TrieNode.java:150-153 | the parent asked to delete a child's label clears its own word when that label equals its own start character, although the word being deleted is the child's (TrieSpec.TrieDeleteTakesShorter) | with to@1, too@2 and tom@3 stored, `delete("too")` also clears "to" | only the node of the deleted word loses its word | not executed | TrieScenarios.DeleteTooClearsTo | WordDeletes.WordDeleteExact |
