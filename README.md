# Longest compound word, modelled in Dafny

The program reads a list of words, puts every word into a trie, and returns
the longest word of the list that can be built by joining two or more words
of the same list. This project models its core, `find_compound.py`: the two
kinds of trie node, the trie with its `insert`, `lookup` and
`isWordCompound`, and `longestCompoundWord`. The model proves these
operations correct against a ghost description of what the trie holds.

- `trie_nodes.dfy` (module `TrieNodes`) holds the two node kinds.
  - `MemNode` keeps its children in a linked list threaded through
    `firstChild` and `next`, and puts a new child at the head.
  - `Node` keeps a 26-slot array indexed by `ord(c) - ord('a')`.
  - `NodeRef` holds a node of either kind.
  - `GetChild`, `AddChild` and `SetWord` on a `NodeRef` are the one
    contract both kinds meet. The ghost functions `ChildOf` and `IsWord`
    state that contract.
- `trie_shape.dfy` (module `TrieShapes`) defines `Sound`. It ties the heap
  nodes to a ghost `Shape`, which records three things: the node that
  spells each prefix, the inserted words, and which prefix owns each node.
  Its lemmas show that the trie's two changes keep the trie sound: adding a
  child and marking a word.
- `trie.dfy` (module `Tries`) is the `Trie` class. Its ghost state is
  `Words` (the inserted words) and `NodeAt` (the node of each spelled
  prefix).
  - `Insert` adds the word to `Words`.
  - `Lookup` answers `w in Words`.
  - `IsWordCompound` fills the `opt` table from the right. Its result is
    proved equal to `Compound(w, Words)`.
  - The inner scan over the trie, `PieceFollows`, is a method of its own.
  - These proofs use only `ChildOf` and `IsWord`, so they hold for either
    node kind.
- `segmentation.dfy` (module `Segmentation`) says what a compound word is.
  - `SegmentableFrom` is the recursive meaning of one table entry.
  - `Compound` is the meaning of `opt[0]`.
  - Both are proved equivalent to splitting the word into an explicit list
    of non-empty dictionary words. A compound word takes at least two of
    them.
- `find_compound.dfy` (module `FindCompound`) holds the final answer.
  - `LongestCompoundWord` is proved to return the answer that
    `IsLongestCompound` describes, and that answer is unique.
  - `BuildTrie` inserts a list of words the way the entry point does.
  - `FirstOfEqualLength` shows the tie-break on the list "rat", "ratcat",
    "catrat", "cat": the six-letter compound listed first wins.

The empty word is a special case. A word of length 0 is often described as
never compound, but `isWordCompound("")` as written returns `opt[0]`, and for
the empty word that entry is `opt[n]`, which is true. The model follows the
code: `Trie.IsWordCompound` returns true for the empty word. This does not
affect `longestCompoundWord`, which only tests words longer than the best
found so far, so it never tests the empty word.

## Model

| member | source | states |
|---|---|---|
| `TrieNodes.Slot` | find_compound.py:83 | a lower-case letter indexes one of the 26 slots of an array node |
| `TrieNodes.FirstKeyIndex` | find_compound.py:41-43 | the position where the child scan stops: every earlier child has another key, and the child there, if any, has key `c` |
| `TrieNodes.MemNode.ChildFor` | find_compound.py:35-44 | the child found for `c` is null exactly when no child in the list has key `c`; otherwise it is a child with key `c` |
| `TrieNodes.MemNode.constructor` | find_compound.py:20-33 | a new linked node has the given key, no word flag, no successor and no children |
| `TrieNodes.MemNode.GetChild` | find_compound.py:35-44 | walking `first_child`/`next` returns the first child whose key is `c`, or null when none has it |
| `TrieNodes.MemNode.AddChild` | find_compound.py:46-58 | the fresh child is put at the head of the list; afterwards a lookup of `c` finds it, and lookups of other characters find what they found before |
| `TrieNodes.Node.constructor` | find_compound.py:65-75 | a new array node has the given key, no word flag, and 26 empty slots |
| `TrieNodes.Node.ChildFor` | find_compound.py:77-83 | the child an array node holds for `c`: none for a character outside 'a' to 'z', otherwise the content of the letter's slot |
| `TrieNodes.Node.GetChild` | find_compound.py:77-83 | returns the content of the slot of the letter `c` |
| `TrieNodes.Node.AddChild` | find_compound.py:85-93 | the fresh child is stored in the slot of `c`; the other 25 slots are unchanged |
| `TrieNodes.GetChild` | find_compound.py:35-44 | `get_child` on a node of either kind (defined at find_compound.py:35-44 and :77-83, called at :120) returns the child for `c` under the one shared contract |
| `TrieNodes.AddChild` | find_compound.py:46-58 | `addChild` on a node of either kind (defined at find_compound.py:46-58 and :85-93, called at :121-122) gives a fresh, empty, unmarked child for `c`, and the node keeps its word flag and its other edges |
| `TrieNodes.SetWord` | find_compound.py:126 | setting `isWord` marks the node and leaves its edges as they were |
| `TrieShapes.RootSound` | find_compound.py:103-107 | a trie holding only a fresh root, with no word, is sound |
| `TrieShapes.EdgeFact` | find_compound.py:133-135 | in a sound trie, the edge for `c` from the node of `p` exists exactly when `p + [c]` is spelled, and it leads to that prefix's node |
| `TrieShapes.Unspelled` | find_compound.py:133-135 | when a prefix has no node, no longer string that starts with it is spelled or is a word |
| `TrieShapes.NoWordBeyond` | find_compound.py:171-174 | once the edge for `w[j]` is missing, no piece `w[i..k]` with `k > j` is a word, so the scan may stop |
| `TrieShapes.ExtendSound` | find_compound.py:121-122 | adding a child for a missing edge keeps the trie sound, with the new prefix mapped to the new node |
| `TrieShapes.MarkSound` | find_compound.py:126 | marking the node of a spelled prefix keeps the trie sound, with that prefix added to the words |
| `Segmentation.SegmentableFromHasSplit` | find_compound.py:146-149 | a suffix that an `opt` entry accepts has an explicit split into non-empty dictionary words |
| `Segmentation.SplitIsSegmentable` | find_compound.py:146-149 | a suffix with such a split is accepted |
| `Segmentation.CompoundIffTwoPieces` | find_compound.py:139-144 | a word is compound exactly when it splits into two or more non-empty dictionary words |
| `Segmentation.CompoundHasSplit` | find_compound.py:139-144 | a compound word has a split into at least two non-empty dictionary words |
| `Segmentation.SplitIsCompound` | find_compound.py:139-144 | a split into at least two non-empty dictionary words makes a word compound |
| `Segmentation.ShortWordNotCompound` | find_compound.py:158 | a word of length 0 or 1 is not compound |
| `Segmentation.WholeWordNotOwnPiece` | find_compound.py:164-167 | whether a word is compound is the same with or without the word itself in the dictionary, so a dictionary word that does not split into other dictionary words is not compound |
| `Segmentation.SuffixWithoutWhole` | find_compound.py:164-167 | a proper suffix splits into dictionary words exactly when it splits into dictionary words other than the whole word |
| `Segmentation.TwoWordsCompound` | find_compound.py:139-144 | two non-empty dictionary words, joined, form a compound word |
| `Segmentation.ConcatNonEmpty` | find_compound.py:146-149 | a split into non-empty pieces spells a string at least as long as its first piece |
| `Tries.PieceEnd` | find_compound.py:158 | the bound `i + min(n - i, n - 1)` lets a piece run to the end of the word, except the piece starting at 0, which must stop one character short |
| `Tries.EntryRecurrence` | find_compound.py:158-181 | the table entry at `i` holds exactly when some piece `w[i..k]`, with `k` at most `i + min(n-i, n-1)`, is a word and the entry at `k` holds |
| `Tries.EntryFound` | find_compound.py:178-180 | a piece that is a word, followed by a set entry, sets the entry at `i` |
| `Tries.EntryMissing` | find_compound.py:168-180 | when no allowed piece is a word followed by a set entry, the entry at `i` is false |
| `Tries.GrownStep` | find_compound.py:114-123 | each step of the insertion walk adds the next prefix of the word and keeps every node already there |
| `Tries.PrefixesAll` | find_compound.py:114-123 | the prefixes the walk adds are exactly the prefixes of the word |
| `Tries.Trie.constructor` | find_compound.py:97-107 | a new trie has the chosen node kind, holds no word, and spells only the empty prefix |
| `Tries.Trie.Extend` | find_compound.py:121-122 | adding a child at a missing edge spells one more prefix and adds no word |
| `Tries.Trie.Descend` | find_compound.py:120-123 | one step of the walk moves to the child for `c`, creating it only when it is missing |
| `Tries.Trie.Insert` | find_compound.py:109-126 | afterwards the words are the old words plus `w`, the spelled prefixes are the old ones plus the prefixes of `w` (`IsPrefix`), every node already there is kept, and re-inserting a spelled word adds no node |
| `Tries.Trie.Mark` | find_compound.py:126 | setting the flag of the last node adds its prefix to the words |
| `Tries.Trie.Lookup` | find_compound.py:128-137 | the result is true exactly when `w` was inserted, and the trie is not changed |
| `Tries.Trie.IsWordCompound` | find_compound.py:139-181 | the result is true exactly when `w` is compound over the inserted words, or is empty |
| `Tries.Trie.PieceFollows` | find_compound.py:168-181 | the scan from `i` finds a word piece followed by a set entry exactly when the entry at `i` should hold |
| `FindCompound.LongestCompoundUnique` | find_compound.py:183-196 | at most one string meets the description of the answer |
| `FindCompound.LongestCompoundWord` | find_compound.py:183-196 | the result is empty when no word of the list is compound; otherwise it is a compound word of the list that no compound word outlengths, and no earlier compound word has its length |
| `FindCompound.BuildTrie` | find_compound.py:203-209 | inserting each word of a list, in order, leaves a trie whose words are exactly those of the list |
| `FindCompound.FirstSixLetterWord` | find_compound.py:190-195 | between "ratcat" and "catrat", with "rat" and "cat" words, the one listed first is the answer |
| `FindCompound.FirstOfEqualLength` | find_compound.py:190-195 | the search returns "ratcat" for one order of the list and "catrat" for the other |

## Left out

- The entry point (find_compound.py:198-214) is left out: reading `sys.argv`, opening and reading the file, `strip`, printing and timing. These are I/O and instrumentation. `BuildTrie` models only the insertion loop, and the model ignores the choice of node kind made there.
- The memory and speed difference between the two node kinds is not modelled. Only their shared `get_child`/`addChild` behaviour is.
- Array nodes and characters outside 'a' to 'z' are not modelled. In Python, `ord(c) - ord('a')` is a valid list index only from -26 to 25. For the characters 'G' to '`' it is negative in that range, so `get_child` reads and `addChild` overwrites the slot of another letter. For characters below 'G' (digits, 'A' to 'F', space) and above 'z', indexing raises `IndexError`. The model instead requires lower-case letters of words given to a trie of array nodes (`Tries.Trie.Supports`). Linked nodes accept any character.
- The `key` of an array node is stored but never read by the program; the model stores it too and proves nothing about it.
- Node identity beyond what the ghost `Repr` and ownership map need to show that no node is shared is not modelled. Neither is garbage collection.
