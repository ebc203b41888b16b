# Four data-structure assignments, modelled and verified in Dafny

This project models the cores of four independent Java programs and proves
what they do:

- **Compressed suffix trie and DNA similarity** (`assn4/CompressedSuffixTrie.java`).
  - The loader reads a DNA word (A, C, G, T and whitespace) from the lines of a file.
  - The trie stores every suffix of the word. Edge labels are `[start, end]`
    ranges into the word. Children sit in five slots indexed by the character
    code modulo 5.
  - `findString` walks a pattern down the trie.
  - The similarity analyser fills the longest-common-subsequence table of two
    words, reads one longest common subsequence back, and reports the ratio
    of its length to the longer word's length.
- **Task scheduler** (`assn3/TaskScheduler.java`).
  - `validAttributes` checks a task triple (name, release, deadline).
  - A 1-based array min-heap backs a heap sort of tasks by release time.
  - `createValidSchedule` simulates time: tasks released at the current time
    enter a heap keyed by deadline, and up to `cores` of them start in
    earliest-deadline order.
- **Extended AVL tree** (`assn2/ExtendedAVLTree.java`).
  - `clone` copies a tree node by node.
  - `merge` lists both trees in order, merges the two lists stably, and
    rebuilds a balanced tree from the middle outwards.
- **Doubly-linked word lists** (`assn1/MyDlist.java`).
  - `cloneList` copies a list.
  - `union` concatenates two lists and strips later duplicates in place.
  - `intersection` runs nested loops over the shorter list and the other one.

Each Java file has its own modules:

| Java file | Modules |
|---|---|
| assn4 | `Dna`, `DnaLoader`, `SuffixTrieModel` (the trie as a node arena), `SuffixTrie` (the class over that arena), `Similarity` |
| assn3 | `MinHeaps`, `TaskScheduler` |
| assn2 | `ExtendedAvl` |
| assn1 | `WordSets` (the list contents as sequences), `MyDlists` (the node-and-pointer list) |

`Sequences` and `Wrappers` hold shared helpers: subsequences, `Map`, and `Option`.

Some operations change state step by step. For those the model is
imperative Dafny with the source's own loops:

- the trie's arena;
- the LCS table (an `array2`);
- the heap (an array of slots);
- the sort's and the schedule's output arrays;
- the in-order and merge arrays of the AVL tree;
- the linked lists (`DNode` objects with `prev` and `next`).

Each method is proved equal to a specification function, or states the new
state outright. Lemmas prove what the source promises about those
functions.

### The trie search is modelled as written

When `splitChild` splits a label part-way, the node's existing children stay
under the shortened node. They are not moved below the new node that
carries the rest of the old label.

`SuffixTrieModel.AgacacCounterexample` shows the effect on the word AGACAC:

- `findString("AAC")` returns 3, although AAC does not occur;
- `findString("ACAC")` returns -1, although ACAC occurs at 2.

What holds in general is weaker, and is proved:

- the empty pattern gives 1;
- any other result r ≠ -1 makes the pattern a subsequence of the word's
  first `r + |p|` letters, ending at the letter at position `r + |p| - 1`
  (`FindBounds`);
- the search is exact for one-letter patterns (`FindSingle`);
- the search is exact on words whose letters are all different (`FindDistinct`).

## Model

| member | source | states |
|---|---|---|
| Dna.Slot | assn4/CompressedSuffixTrie.java:572-577 | The slot of a character is its code modulo 5, in 0..4; A, G, C and T go to slots 0, 1, 2 and 4. |
| Dna.SlotInjective | assn4/CompressedSuffixTrie.java:572-577 | Over A/C/G/T two characters share a slot exactly when they are equal, so the five-slot table never collides. |
| DnaLoader.LinkedList.constructor | assn4/CompressedSuffixTrie.java:673-676 | A new stack is empty with size 0. |
| DnaLoader.LinkedList.Add | assn4/CompressedSuffixTrie.java:692-696 | The new letter becomes the head, the old stack follows it, and size grows by one. |
| DnaLoader.PushLetters | assn4/CompressedSuffixTrie.java:160-167 | Pushing a line leaves its non-whitespace letters reversed on top of the old stack. |
| DnaLoader.LoadStep | assn4/CompressedSuffixTrie.java:152-167 | One accepted line extends the accepted prefix of the file and appends that line's kept letters to the word. |
| DnaLoader.PopAll | assn4/CompressedSuffixTrie.java:170-177 | Reading the stack into the array from the back gives the reverse of the stack. |
| DnaLoader.GetSequenceFromFile | assn4/CompressedSuffixTrie.java:129-194 | The result is None for a missing file or a line the filter rejects; otherwise it is the non-whitespace letters of all lines, in file order. The filter is the source's `find()` of `^[ACGT\s]*$`, which also lets a final line terminator through, except that a line ending in NEL is rejected. |
| DnaLoader.ReverseReverse | assn4/CompressedSuffixTrie.java:160-177 | Reversing twice gives back the sequence, so the stack's reverse order is undone on the way out. |
| DnaLoader.ReverseAppend | assn4/CompressedSuffixTrie.java:160-177 | Reversing a concatenation reverses and swaps its parts. |
| DnaLoader.ReverseAt | assn4/CompressedSuffixTrie.java:173-176 | Entry k of the reverse is entry n-1-k of the sequence, which is where the pop loop writes it. |
| DnaLoader.KeptLettersAreDna | assn4/CompressedSuffixTrie.java:136-167 | The kept letters of an accepted line are all A, C, G or T: a final LS or PS is whitespace and is dropped. |
| DnaLoader.SpacedLettersAreDna | assn4/CompressedSuffixTrie.java:160-167 | The kept letters of a line of characters from [ACGT\s] are all A, C, G or T. |
| DnaLoader.FilterAgreesOutsideNel | assn4/CompressedSuffixTrie.java:136-159 | On a line that does not end in NEL, the model's filter accepts exactly what the source's pattern accepts. |
| DnaLoader.LoadAcceptsLineSeparator | assn4/CompressedSuffixTrie.java:136-167 | The one-line file "A" followed by LS (U+2028) loads as "A": `$` matches before the final LS, and LS is whitespace. |
| DnaLoader.LettersAreDna | assn4/CompressedSuffixTrie.java:152-167 | The letters of a file whose lines are all accepted form a DNA word. |
| DnaLoader.LoadIsDna | assn4/CompressedSuffixTrie.java:129-194 | Every word the loader returns is a DNA word, so the trie's five slots never collide. |
| DnaLoader.FilterAdmitsNel | assn4/CompressedSuffixTrie.java:136-163 | The filter as written accepts the line "A" followed by NEL (U+0085), and that NEL reaches the word; the model's filter rejects the line, so the model's loader returns None. |
| SuffixTrieModel.Node.PutLinks | assn4/CompressedSuffixTrie.java:648-650 | The child goes into the character's slot and every other slot and the label stay as they were. |
| SuffixTrieModel.NewNode | assn4/CompressedSuffixTrie.java:606-615 | A new node carries the given label and five empty slots. |
| SuffixTrieModel.MatchEnd | assn4/CompressedSuffixTrie.java:231-238 | The matching loop stops inside the label exactly at the first mismatch, or one past the label's end. |
| SuffixTrieModel.MatchEndAgrees | assn4/CompressedSuffixTrie.java:231-238 | Up to where the matching loop stops, the label and the suffix agree letter by letter. |
| SuffixTrieModel.ParentDiffers | assn4/CompressedSuffixTrie.java:221-266 | The node being split is never its own parent. |
| SuffixTrieModel.RelabelOk | assn4/CompressedSuffixTrie.java:242-251 | After a full match the relabelled trie keeps its shape, the next suffix position is in the word, and the recursive call meets splitChild's precondition. |
| SuffixTrieModel.AddLeafOk | assn4/CompressedSuffixTrie.java:247-248 | Hanging a new leaf under an empty slot keeps the trie's shape. |
| SuffixTrieModel.PartialSlots | assn4/CompressedSuffixTrie.java:255-263 | In a partial split the two new children go to different slots (the mismatching pair), and the match stopped after the label's first letter. |
| SuffixTrieModel.PartialChildren | assn4/CompressedSuffixTrie.java:255-264 | After a partial split every label is in bounds and every slot holds a child whose label starts with a letter of that slot, after its parent's label. |
| SuffixTrieModel.PartialUnique | assn4/CompressedSuffixTrie.java:255-264 | After a partial split no node sits in two slots. |
| SuffixTrieModel.PartialOk | assn4/CompressedSuffixTrie.java:255-264 | A partial split keeps the trie's shape. |
| SuffixTrieModel.SplitFull | assn4/CompressedSuffixTrie.java:242-251 | A full match relabels the node to the new suffix's copy, then adds a leaf for the next letter or splits one level down. |
| SuffixTrieModel.SplitPartial | assn4/CompressedSuffixTrie.java:255-264 | A split that stops inside the label shortens the node and adds the two new children. |
| SuffixTrieModel.SplitShape | assn4/CompressedSuffixTrie.java:221-266 | splitChild keeps the shape: the root keeps (-1,-1), every other label lies within the word, children sit under their first letter's slot and after their parent's label, and no node is shared. Hence every word access is in bounds. |
| SuffixTrieModel.SplitGrows | assn4/CompressedSuffixTrie.java:221-266 | splitChild adds one or two nodes, leaves the root alone, and moves labels only to positions from the inserted suffix on. |
| SuffixTrieModel.InsertShape | assn4/CompressedSuffixTrie.java:71-82 | Inserting a suffix keeps the shape, and afterwards the root has a child for exactly the letters seen so far. |
| SuffixTrieModel.BuildShape | assn4/CompressedSuffixTrie.java:62-84 | Every intermediate trie of the constructor has the shape, at most two new nodes per suffix, and a root child for exactly the letters of the suffixes inserted. |
| SuffixTrieModel.Build | assn4/CompressedSuffixTrie.java:62-84 | The constructor's trie has the shape, and the root has a child for exactly the letters of the word. |
| SuffixTrieModel.WalkDone | assn4/CompressedSuffixTrie.java:334 | When the walk has matched every pattern letter, the reported start is 1 for the empty pattern and a Reported position otherwise. |
| SuffixTrieModel.WalkStep | assn4/CompressedSuffixTrie.java:310-330 | Descending at a label boundary, and matching the next letter, keeps the walk's invariant. |
| SuffixTrieModel.FindFromBounds | assn4/CompressedSuffixTrie.java:310-334 | Whatever the rest of the walk reports is -1 or a Reported position. |
| SuffixTrieModel.FindBounds | assn4/CompressedSuffixTrie.java:301-335 | The empty pattern yields 1. Any result r other than -1 makes the pattern a subsequence of the word's first r + len letters, ending at the letter at position r + len - 1. |
| SuffixTrieModel.SplitFrame | assn4/CompressedSuffixTrie.java:221-266 | splitChild changes no node whose label starts at or before the inserted position; in particular not the parent or the root. |
| SuffixTrieModel.SplitFrameAt | assn4/CompressedSuffixTrie.java:221-266 | The same, for one node. |
| SuffixTrieModel.SpellsStep | assn4/CompressedSuffixTrie.java:221-266 | A node whose slot for w[pos] holds a node labelled [pos, e], which spells w[e+1..], itself spells w[pos..]. |
| SuffixTrieModel.SpellsLeaf | assn4/CompressedSuffixTrie.java:74-76 | A fresh leaf labelled [pos, end of word], in the slot of w[pos], spells w[pos..]. |
| SuffixTrieModel.SpellsDescend | assn4/CompressedSuffixTrie.java:242-251 | After a full match, current is labelled [index, index2 - 1]. If the child it descends into spells w[index2..], current spells w[index..]. |
| SuffixTrieModel.SplitSpells | assn4/CompressedSuffixTrie.java:221-266 | After splitChild, current is labelled from the inserted position on, and below it a path of contiguous labels spells the rest of the inserted suffix. |
| SuffixTrieModel.SplitSpellsLeaf | assn4/CompressedSuffixTrie.java:242-251 | The same, when the whole label matched and a leaf is added below current. |
| SuffixTrieModel.SplitSpellsPartial | assn4/CompressedSuffixTrie.java:252-265 | The same, when the match stopped inside the label and current keeps the matched part. |
| SuffixTrieModel.InsertSpells | assn4/CompressedSuffixTrie.java:71-82 | Right after the constructor inserts w[i..], the root spells w[i..] along a path of contiguous labels. |
| SuffixTrieModel.FindAlongPath | assn4/CompressedSuffixTrie.java:301-335 | Searching for a prefix of the word along the path that spells the word never mismatches or falls off, and reports 0. |
| SuffixTrieModel.FindPrefix | assn4/CompressedSuffixTrie.java:301-335 | On the constructor's trie the search finds every non-empty prefix of the word at position 0. |
| SuffixTrieModel.FindWholeWord | assn4/CompressedSuffixTrie.java:301-335 | On the constructor's trie the search finds the whole (non-empty) word at position 0. |
| SuffixTrieModel.FindSingle | assn4/CompressedSuffixTrie.java:301-335 | A one-letter pattern is found exactly when the letter occurs in the word, and at a position holding it. |
| SuffixTrieModel.DistinctBuildsLeaves | assn4/CompressedSuffixTrie.java:71-77 | On a word with pairwise different letters, the trie after inserting the suffixes from i on is the root plus one leaf per suffix. With n the length of w, node x is the childless leaf labelled [n-x, n-1], and the root's slot for w[k] holds the leaf for w[k..]. |
| SuffixTrieModel.DistinctNeverSplits | assn4/CompressedSuffixTrie.java:71-77 | On a word with pairwise different letters, the root has no child for w[k] when w[k..] is inserted, so splitChild is never called. |
| SuffixTrieModel.LeafWalk | assn4/CompressedSuffixTrie.java:310-334 | Walking along a leaf finds the pattern at the leaf's start exactly when it occurs there. |
| SuffixTrieModel.OccurrenceUnique | assn4/CompressedSuffixTrie.java:301-335 | With distinct letters a non-empty pattern occurs at most once. |
| SuffixTrieModel.OccurrenceStartsAtRootChild | assn4/CompressedSuffixTrie.java:315-322 | Any occurrence begins with the pattern's first letter, which the root then has a child for. |
| SuffixTrieModel.FindFirst | assn4/CompressedSuffixTrie.java:310-330 | The first step of the search returns -1 when the root has no child for the first letter or the label's first letter differs. Otherwise it continues from that child. |
| SuffixTrieModel.FindDistinctHit | assn4/CompressedSuffixTrie.java:301-335 | When every node below the root is a leaf, the search from the root's child is exact. |
| SuffixTrieModel.FindDistinct | assn4/CompressedSuffixTrie.java:301-335 | On a word with distinct letters the search finds a non-empty pattern exactly when it occurs, and where it occurs. |
| SuffixTrieModel.BuildStep | assn4/CompressedSuffixTrie.java:71-82 | Each constructor step inserts the next suffix into the previous trie. |
| SuffixTrieModel.InsertLeafEntries | assn4/CompressedSuffixTrie.java:75-76 | A letter new to the root adds one leaf, the suffix's full range, below the root and changes nothing else. |
| SuffixTrieModel.InsertSplitEntries | assn4/CompressedSuffixTrie.java:77-80 | A letter the root already has leads to a split below that child. |
| SuffixTrieModel.BuildLeafEntries | assn4/CompressedSuffixTrie.java:75-76 | The leaf step, stated on the constructor's intermediate tries. |
| SuffixTrieModel.BuildSplitEntries | assn4/CompressedSuffixTrie.java:77-80 | The split step, stated on the constructor's intermediate tries. |
| SuffixTrieModel.SplitLeafEntries | assn4/CompressedSuffixTrie.java:242-248 | A full match with no child for the next letter relabels the node and adds one leaf below it, changing no other node. |
| SuffixTrieModel.SplitPartialEntries | assn4/CompressedSuffixTrie.java:255-264 | A partial split shortens the node, gives it the two new children, and keeps its old children where they were. |
| SuffixTrieModel.AgacacMatch | assn4/CompressedSuffixTrie.java:231-238 | In the last split of AGACAC the match stops after one letter. |
| SuffixTrieModel.AgacacTrie5 | assn4/CompressedSuffixTrie.java:71-82 | The trie of AGACAC after its last suffix. |
| SuffixTrieModel.AgacacTrie4 | assn4/CompressedSuffixTrie.java:71-82 | The trie after inserting AC. |
| SuffixTrieModel.AgacacTrie3 | assn4/CompressedSuffixTrie.java:242-248 | The trie after inserting CAC: a full match of C and a leaf below it. |
| SuffixTrieModel.AgacacTrie2 | assn4/CompressedSuffixTrie.java:242-248 | The trie after inserting ACAC: a full match of AC and a leaf below it. |
| SuffixTrieModel.AgacacTrie1 | assn4/CompressedSuffixTrie.java:75-76 | The trie after inserting GACAC: a new leaf below the root. |
| SuffixTrieModel.AgacacTrie | assn4/CompressedSuffixTrie.java:255-264 | The finished AGACAC trie: the partial split of AC leaves the old child AC under the shortened node A. |
| SuffixTrieModel.AgacacFind | assn4/CompressedSuffixTrie.java:301-335 | On that trie AAC is reported at 3 and ACAC falls off. |
| SuffixTrieModel.AgacacCounterexample | assn4/CompressedSuffixTrie.java:301-335 | On AGACAC the search is neither sound (AAC reported at 3 but absent) nor complete (ACAC occurs at 2 but yields -1). |
| SuffixTrie.CompressedSuffixTrie.constructor | assn4/CompressedSuffixTrie.java:62-84 | The word is the loaded DNA word (the source's line filter, less lines ending in NEL), or empty when loading fails, and the arena is the constructor's trie for it. |
| SuffixTrie.CompressedSuffixTrie.InsertSuffix | assn4/CompressedSuffixTrie.java:72-81 | One turn of the constructor's loop inserts the suffix starting at i. |
| SuffixTrie.CompressedSuffixTrie.MatchLength | assn4/CompressedSuffixTrie.java:231-238 | The matching loop stops where MatchEnd says. |
| SuffixTrie.CompressedSuffixTrie.SplitChild | assn4/CompressedSuffixTrie.java:221-266 | The arena after splitChild is the Split of the old arena. |
| SuffixTrie.CompressedSuffixTrie.FindString | assn4/CompressedSuffixTrie.java:301-335 | The search's loop computes Find and changes no node. |
| Similarity.Lcs | assn4/CompressedSuffixTrie.java:544-560 | The LCS length of two prefixes is at most the length of each. |
| Similarity.LcsOptimal | assn4/CompressedSuffixTrie.java:544-560 | No common subsequence of two prefixes is longer than their table entry. |
| Similarity.TracebackCommon | assn4/CompressedSuffixTrie.java:466-498 | The traceback has exactly the table entry's length and is a subsequence of both prefixes. |
| Similarity.TracebackSelf | assn4/CompressedSuffixTrie.java:466-498 | For equal words the traceback is the word itself. |
| Similarity.LcsSymmetric | assn4/CompressedSuffixTrie.java:384-391 | The LCS length of two words is the same in either order, so the similarity ratio is symmetric. |
| Similarity.LcsOfWords | assn4/CompressedSuffixTrie.java:466-498 | For whole words the traceback is a longest common subsequence. |
| Similarity.TieMovesLeft | assn4/CompressedSuffixTrie.java:488-492 | On a tie the traceback decrements y: for AG and GA it yields G, not A. |
| Similarity.InitialiseTheLCS | assn4/CompressedSuffixTrie.java:513-520 | Row 0 and column 0 become 0 and every other entry is unchanged. |
| Similarity.PopulateMatrix | assn4/CompressedSuffixTrie.java:544-560 | Every table entry becomes the LCS length of the corresponding prefixes. |
| Similarity.FindSequence | assn4/CompressedSuffixTrie.java:466-498 | The loop reads back the traceback of the full table. |
| Similarity.SimilarityAnalyser | assn4/CompressedSuffixTrie.java:363-394 | When either file fails to load, the result is 0 and nothing is written (None). Otherwise the written word is the traceback (Some), and the ratio is the LCS length over the longer length. |
| MinHeaps.RootIsMin | assn3/TaskScheduler.java:577-600 | In an ordered heap no stored key is below the root's. |
| MinHeaps.SwapKeepsNodes | assn3/TaskScheduler.java:714-718 | Exchanging two stored slots keeps the stored nodes. |
| MinHeaps.SwapRearranged | assn3/TaskScheduler.java:636-692 | A swap followed by a rearrangement is a rearrangement of the original. |
| MinHeaps.MinHeap.constructor | assn3/TaskScheduler.java:552-560 | A new heap has capacity + 1 empty slots, no entries, and lastNode 1. |
| MinHeaps.MinHeap.GetParent | assn3/TaskScheduler.java:702-708 | Both branches give i / 2, which lies below i. |
| MinHeaps.MinHeap.Swap | assn3/TaskScheduler.java:714-718 | Exactly slots x and y are exchanged. |
| MinHeaps.MinHeap.BubbleUp | assn3/TaskScheduler.java:680-692 | The slots become SiftUp of the old slots. |
| MinHeaps.MinHeap.BubbleDown | assn3/TaskScheduler.java:636-664 | The slots become SiftDown of the old slots. |
| MinHeaps.MinHeap.Insert | assn3/TaskScheduler.java:612-618 | The heap stays valid (ordered, lastNode = entries + 1), entries grows by one, and the stored multiset gains exactly the new node. |
| MinHeaps.MinHeap.RemoveMin | assn3/TaskScheduler.java:577-600 | On an empty heap it returns None and changes nothing. Otherwise it returns a stored node of minimum key, entries drops by one, and the heap stays valid holding the old multiset minus that node. |
| MinHeaps.InsertStart | assn3/TaskScheduler.java:612-616 | Writing the new node into the first free slot sets up bubbleUp's invariant. |
| MinHeaps.UpStop | assn3/TaskScheduler.java:682-690 | bubbleUp's stop at the root or under a smaller parent leaves an ordered heap. |
| MinHeaps.UpStep | assn3/TaskScheduler.java:688-690 | A swap with a larger parent moves the fault up to the parent. |
| MinHeaps.DownLeaf | assn3/TaskScheduler.java:641-646 | bubbleDown's stop at a slot without children leaves an ordered heap. |
| MinHeaps.DownStop | assn3/TaskScheduler.java:647-662 | bubbleDown's stop when the smaller child is not smaller leaves an ordered heap. |
| MinHeaps.DownStep | assn3/TaskScheduler.java:659-662 | A swap with the smaller child moves the fault down to that child. |
| MinHeaps.RootIsMinAll | assn3/TaskScheduler.java:577-600 | The root's key bounds every stored key from below. |
| MinHeaps.SwapOccupied | assn3/TaskScheduler.java:714-718 | Swapping two stored slots keeps them stored. |
| MinHeaps.SiftUpRearranged | assn3/TaskScheduler.java:680-692 | bubbleUp from a slot whose only fault is above it leaves an ordered heap of the same nodes and changes no other slot. |
| MinHeaps.SiftDownRearranged | assn3/TaskScheduler.java:636-664 | bubbleDown from a slot whose only fault is below it leaves an ordered heap of the same nodes and changes no other slot. |
| MinHeaps.InsertDone | assn3/TaskScheduler.java:612-618 | Filling the first free slot and bubbling it up gives a full, ordered heap with one more node. |
| MinHeaps.RearrangedFilled | assn3/TaskScheduler.java:636-692 | A rearrangement keeps the occupied slots occupied and the free ones free. |
| MinHeaps.RemoveLast | assn3/TaskScheduler.java:586-589 | Removing the only node empties the heap. |
| MinHeaps.RemoveDone | assn3/TaskScheduler.java:590-597 | Moving the last node to the root, clearing its slot and bubbling down gives an ordered heap of the old nodes minus the root. |
| TaskScheduler.DigitChar | assn3/TaskScheduler.java:219-250 | The digit character for 0..9 is a digit whose value is d. |
| TaskScheduler.Decimal | assn3/TaskScheduler.java:219-250 | The numeral of a number consists of digits. |
| TaskScheduler.DecimalRoundTrip | assn3/TaskScheduler.java:228-238 | Parsing a number's numeral gives back the number. |
| TaskScheduler.ValidAttributes | assn3/TaskScheduler.java:219-250 | A node comes back exactly when the name is a letter followed by letters and digits, both numbers are digit strings, the deadline is at least 1 and the release precedes it. The node then carries those values, key -1 and start time 0. |
| TaskScheduler.ValidAttributesRoundTrip | assn3/TaskScheduler.java:219-250 | A valid task written out as name and numerals is read back as itself. |
| TaskScheduler.LinkedList.constructor | assn3/TaskScheduler.java:503-506 | A new list is empty with size 0. |
| TaskScheduler.LinkedList.Add | assn3/TaskScheduler.java:521-531 | The new node becomes the head, the old list follows it, and size grows by one. |
| TaskScheduler.ReleaseSlotsBack | assn3/TaskScheduler.java:286-295 | Keying tasks by release and reading the tasks back gives the same tasks. |
| TaskScheduler.DeadlineSlotsBack | assn3/TaskScheduler.java:361-371 | Keying tasks by deadline and reading the tasks back gives the same tasks. |
| TaskScheduler.ReleaseSlotsPermutation | assn3/TaskScheduler.java:275-296 | Release-keyed nodes that are a permutation come from tasks that are a permutation. |
| TaskScheduler.DeadlineSlotsPermutation | assn3/TaskScheduler.java:345-386 | Deadline-keyed nodes that are a permutation come from tasks that are a permutation. |
| TaskScheduler.KeysAtLeastLess | assn3/TaskScheduler.java:292-295 | Removing a node keeps a lower bound on the heap's keys. |
| TaskScheduler.DrainStart | assn3/TaskScheduler.java:292 | Before the drain every pending node is a release node, and nothing has been written. |
| TaskScheduler.Refill | assn3/TaskScheduler.java:292 | The removed node and what is left make up the heap before removeMin. |
| TaskScheduler.SortedSnoc | assn3/TaskScheduler.java:292-295 | Appending a task whose release is not below the last keeps the output sorted. |
| TaskScheduler.SlotsMove | assn3/TaskScheduler.java:292-295 | Moving a node from the heap to the output keeps their union. |
| TaskScheduler.DrainStep | assn3/TaskScheduler.java:292-295 | Writing out a minimum pending node keeps the drain invariant. |
| TaskScheduler.DrainMove | assn3/TaskScheduler.java:292-295 | Removing a minimum node and writing out its task keeps the drain invariant. |
| TaskScheduler.Put | assn3/TaskScheduler.java:293 | Writing x at index i extends the written prefix by x. |
| TaskScheduler.FillFromList | assn3/TaskScheduler.java:285-289 | After the first loop, the heap holds every list task keyed by its release time. |
| TaskScheduler.RemoveInto | assn3/TaskScheduler.java:292-295 | One removeMin either finds the heap empty or writes a minimum task, keeping the drain invariant. |
| TaskScheduler.DrainInto | assn3/TaskScheduler.java:292-295 | The drained tasks are in non-decreasing release order and are the heap's tasks. |
| TaskScheduler.SortTaskByRelease | assn3/TaskScheduler.java:275-296 | r is sorted by release and is a permutation of the list's tasks. |
| TaskScheduler.AdmitStep | assn3/TaskScheduler.java:360-364 | Admitting a task released now keeps the bookkeeping of admitted tasks. |
| TaskScheduler.PickStep | assn3/TaskScheduler.java:367-369 | A pending node holds a released task, keyed by its deadline, and picking it keeps the bookkeeping. |
| TaskScheduler.StartStep | assn3/TaskScheduler.java:374-378 | Starting a released, unexpired task now on a free core keeps the partial schedule valid. |
| TaskScheduler.TickStep | assn3/TaskScheduler.java:384 | Moving the clock on keeps the partial schedule valid. |
| TaskScheduler.Finished | assn3/TaskScheduler.java:357-386 | With every task admitted and picked, the start times form a valid schedule. |
| TaskScheduler.PickedAreTasks | assn3/TaskScheduler.java:358-381 | The tasks picked from the deadline heap are among the input tasks, counting repeats. |
| TaskScheduler.DeadlineSlotsIncluded | assn3/TaskScheduler.java:363-369 | If the deadline-keyed nodes of some tasks are among those of others, the tasks are among the others. |
| TaskScheduler.ExpiredStep | assn3/TaskScheduler.java:367-371 | A picked task whose deadline has passed is a witness of failure: it is an input task and none of the tasks started before it. |
| TaskScheduler.UnstartedAgree | assn3/TaskScheduler.java:376-377 | Tasks that differ only in start time agree once start times are cleared. |
| TaskScheduler.AdmitReleased | assn3/TaskScheduler.java:360-365 | Every task released now enters the deadline heap. The loop stops at the first later release. |
| TaskScheduler.StartNext | assn3/TaskScheduler.java:367-381 | removeMin gives the earliest-deadline task. If its deadline is after now, that task starts now in the next entry of s. Otherwise it fails and returns that task: it was in the heap, no waiting task has an earlier deadline, it was released by now, and it is none of the tasks started in s. |
| TaskScheduler.StartDue | assn3/TaskScheduler.java:367-382 | Up to cores tasks start now in deadline order. It fails only with a task released by now whose deadline is not after now, and that task is none of the tasks started in s. |
| TaskScheduler.TimeStep | assn3/TaskScheduler.java:358-384 | One time step keeps the simulation invariant, and either starts a task or waits for a later release. It fails only as StartDue does, with the same witness. |
| TaskScheduler.CreateValidSchedule | assn3/TaskScheduler.java:345-386 | On success, s is a valid schedule: a permutation of the tasks, each started in [release, deadline), in non-decreasing start order, at most cores per start time. On failure it returns the task that failed: an input task released by the failing time with its deadline not after it, and none of the tasks started in s before it. |
| ExtendedAvl.InOrder | assn2/ExtendedAVLTree.java:171-181 | The in-order list has one entry per internal node. |
| ExtendedAvl.NodeCount | assn2/ExtendedAVLTree.java:155-156 | A tree with n entries has 2n + 1 nodes, which is the size merge sets. |
| ExtendedAvl.HeightsAreTrue | assn2/ExtendedAVLTree.java:287-295 | Where every stored height is one more than the larger child height, the stored heights are the actual heights. |
| ExtendedAvl.SameShapeInOrder | assn2/ExtendedAVLTree.java:84-113 | Trees of the same shape list the same entries. |
| ExtendedAvl.ConstructRestOfTree | assn2/ExtendedAVLTree.java:84-113 | The copy has the original's shape and entries and correct heights, and equals a correctly heighted original. |
| ExtendedAvl.Clone | assn2/ExtendedAVLTree.java:42-58 | The clone has the same shape and entries, correct heights, and the copied size and entry count. |
| ExtendedAvl.CloneOfCorrect | assn2/ExtendedAVLTree.java:42-58 | Cloning a tree whose heights are already right gives the same tree. |
| ExtendedAvl.GetInOrderList | assn2/ExtendedAVLTree.java:171-181 | The subtree's entries are written in in-order from index i on, nothing else changes, and the result is i plus their count. |
| ExtendedAvl.MergeEntries | assn2/ExtendedAVLTree.java:195-226 | The merge has as many entries as both lists together. |
| ExtendedAvl.MergeMultiset | assn2/ExtendedAVLTree.java:195-226 | The merge holds exactly the entries of both lists. |
| ExtendedAvl.MergeSorted | assn2/ExtendedAVLTree.java:195-226 | Merging two sorted lists gives a sorted list. |
| ExtendedAvl.MergeStable | assn2/ExtendedAVLTree.java:205-209 | For each key, the merge lists list1's entries with that key, in their order, before list2's. |
| ExtendedAvl.MergeTakeLeft | assn2/ExtendedAVLTree.java:205-208 | When list1's head key is not above list2's, list1's head goes first. |
| ExtendedAvl.MergeTakeRight | assn2/ExtendedAVLTree.java:209-212 | When list1's head key is above list2's, or list1 is used up, list2's head goes first. |
| ExtendedAvl.MergeInOrderList | assn2/ExtendedAVLTree.java:195-226 | list3 starts with the stable merge of list1 and list2 and is unchanged after it. |
| ExtendedAvl.MergeStep | assn2/ExtendedAVLTree.java:202-214 | One round of the first loop moves the right head and keeps the merge invariant. |
| ExtendedAvl.CopyRest | assn2/ExtendedAVLTree.java:216-225 | A copying loop appends the rest of one list after the merged part. |
| ExtendedAvl.ListToTree | assn2/ExtendedAVLTree.java:246-277 | The tree's in-order entries are list[start..end], and at every node the right part holds as many entries as the left, or one more. |
| ExtendedAvl.ListToTreeStep | assn2/ExtendedAVLTree.java:246-277 | Rooting at the middle index joins the two parts into that list range and keeps the size balance. |
| ExtendedAvl.FinalSettingOfHeight | assn2/ExtendedAVLTree.java:287-295 | The shape and entries are kept and every height becomes one more than the larger child height. |
| ExtendedAvl.SameShapeSizeBalanced | assn2/ExtendedAVLTree.java:287-295 | Setting heights keeps the size balance, the entry count and the actual height. |
| ExtendedAvl.SizeBalancedIsAvl | assn2/ExtendedAVLTree.java:246-277 | A size-balanced tree has the height of a complete tree with that many entries and satisfies the AVL balance condition. |
| ExtendedAvl.Merge | assn2/ExtendedAVLTree.java:139-158 | The merged tree's in-order entries are the stable merge of both trees' entries. Its entry count is the sum, its size is 2n + 1 (the node count), and its heights are correct and AVL-balanced. |
| ExtendedAvl.MergedIsSearchTree | assn2/ExtendedAVLTree.java:139-158 | Merging two search trees gives a search tree holding the entries of both. |
| WordSets.DedupMembership | assn1/MyDlist.java:118-172 | Stripping duplicates keeps exactly the words of the list. |
| WordSets.DedupNoDup | assn1/MyDlist.java:118-172 | After stripping, no word occurs twice. |
| WordSets.DedupOfNoDup | assn1/MyDlist.java:118-172 | A list without duplicates is left as it is. |
| WordSets.DedupSubsequence | assn1/MyDlist.java:118-172 | The remaining words keep their original relative order. |
| WordSets.WithoutMembership | assn1/MyDlist.java:136-166 | The inner loop removes exactly the later copies of the word. |
| WordSets.DedupWithout | assn1/MyDlist.java:131-170 | Removing later copies of a word already kept does not change the stripped result. |
| WordSets.UnionContents | assn1/MyDlist.java:71-109 | The union holds every word of u or v exactly once, in order of first occurrence. |
| WordSets.StripRound | assn1/MyDlist.java:131-170 | One round of the outer loop extends the duplicate-free prefix by one word and keeps the stripped result. |
| WordSets.StrippedAll | assn1/MyDlist.java:131-170 | When the outer loop has passed every word, the list is its own stripped form. |
| WordSets.MatchesCount | assn1/MyDlist.java:210-223 | The inner loop adds one copy of the word per equal word of the other list. |
| WordSets.InterCount | assn1/MyDlist.java:201-230 | Each word occurs in the intersection as often as the product of its counts in both lists. |
| WordSets.InterMembership | assn1/MyDlist.java:201-230 | A word is in the intersection exactly when it is in both lists. |
| WordSets.NoDupCounts | assn1/MyDlist.java:118-172 | A list has no duplicates exactly when every word occurs in it at most once. |
| WordSets.InterOfSets | assn1/MyDlist.java:181-230 | For duplicate-free lists the intersection is duplicate-free and contained in both. |
| WordSets.InterSymmetric | assn1/MyDlist.java:187-191 | Running the outer loop over either list gives the same words with the same multiplicities. |
| MyDlists.DNode.constructor | assn1/MyDlist.java:58 | A new node carries the word and the given links. |
| MyDlists.MyDlist.Around | assn1/MyDlist.java:57-60 | In a valid list each node's next is its successor, whose prev points back. |
| MyDlists.MyDlist.AtTrailer | assn1/MyDlist.java:57 | Only the end of the chain is the trailer, so the loops stop exactly there. |
| MyDlists.MyDlist.constructor | assn1/MyDlist.java:17-24 | A new list is empty and valid. |
| MyDlists.MyDlist.AddLast | assn1/MyDlist.java:59 | The new node is linked in just before the trailer, and the list stays valid. |
| MyDlists.MyDlist.Unlink | assn1/MyDlist.java:138-147 | The node's neighbours are joined to each other, the size drops by one, and the removed node keeps its own next link, which the scan follows. |
| MyDlists.AppendCopies | assn1/MyDlist.java:84-99 | A new node per source word is appended, in order, and the source is unchanged. |
| MyDlists.CloneList | assn1/MyDlist.java:47-64 | The clone is a new list of new nodes with the same words in order, and u is unchanged. |
| MyDlists.ScanDrop | assn1/MyDlist.java:138-155 | Unlinking a later copy keeps the inner loop's invariant. |
| MyDlists.ScanKeep | assn1/MyDlist.java:155 | Passing over a different word keeps the inner loop's invariant. |
| MyDlists.RemoveLaterCopies | assn1/MyDlist.java:132-166 | The inner loop removes exactly the later copies of the current node's word and keeps everything up to that node. |
| MyDlists.StripNext | assn1/MyDlist.java:138-163 | One round of the inner loop keeps its invariant and moves the scan forward. |
| MyDlists.StripDuplicates | assn1/MyDlist.java:118-172 | The list's words become their first occurrences in order, the list stays linked, and size counts the remaining nodes. |
| MyDlists.Union | assn1/MyDlist.java:71-109 | The union is a new list of u's words followed by v's, each kept at its first occurrence, and u and v are unchanged. |
| MyDlists.AppendMatches | assn1/MyDlist.java:209-223 | One copy of x is appended per node of b that holds x. |
| MyDlists.AppendIfEqual | assn1/MyDlist.java:213-216 | A copy of x is appended exactly when the two words are equal. |
| MyDlists.ActualIntersection | assn1/MyDlist.java:201-230 | The result is a new list: for each word of s in order, one copy per equal word of b. s and b are unchanged. |
| MyDlists.IntersectNext | assn1/MyDlist.java:206-225 | One round of the outer loop appends the matches of the current word. |
| MyDlists.Intersection | assn1/MyDlist.java:181-195 | The intersection runs over the shorter list (u on a tie), and each word occurs as often as the product of its counts in u and v. |
| Sequences.SubsequenceLength | assn4/CompressedSuffixTrie.java:466-498 | A subsequence is no longer than the sequence. |
| Sequences.MapMultiset | assn3/TaskScheduler.java:275-296 | Mapping a permutation gives a permutation. |
| Sequences.MapSubMultiset | assn3/TaskScheduler.java:358-381 | Mapping a sub-multiset gives a sub-multiset. |

## Left out

- File, console and window I/O is not modelled:
  - opening and reading files;
  - `outputToFile` in the trie and the scheduler;
  - `getAllTasks`;
  - the `File.exists` and exit side of `handleArgs`;
  - `readFromStdin`, `readFromFile` and `ShieldInputStream`;
  - the Swing tree window;
  - `printList` and the trie's `Node.print`.

  A file is given as `Option` of its lines, with None for a file that
  cannot be opened.
- DnaLoader.GetSequenceFromFile rejects a line that ends in NEL (U+0085).
  The source accepts it and puts the NEL into the word (see Findings). The
  source's trie would store NEL in slot 3 (133 % 5), which no DNA letter
  uses. The model keeps words to A, C, G and T (`Dna.SlotInjective`,
  `DnaLoader.LoadIsDna`), so it rejects the line. Every other line is
  filtered as the source filters it.
- The driver methods `scheduler` (assn3/TaskScheduler.java:44-71) and the
  `MyDlist(String)` constructor are not modelled; they only glue I/O to the core.
- Similarity.SimilarityAnalyser returns the ratio as an integer pair
  (LCS length, longer length) instead of a float. For two empty words the
  source divides 0f by 0 and yields NaN; the pair is then (0, 0).
- TaskScheduler.ValidAttributes does not model `Integer.parseInt` overflow.
  Numbers are unbounded.
- TaskScheduler.CreateValidSchedule: on failure it does not state that the
  returned task had the earliest deadline of the tasks waiting at the
  failing time. TaskScheduler.StartNext states that for the heap it pops from.
- TaskScheduler.CreateValidSchedule requires tasks sorted by release, at
  least one task, and at least one core.
  - The source reads `tasks[0]`.
  - With no cores its loop never ends; `handleArgs` rejects them.
- TaskScheduler.SortTaskByRelease requires a non-empty list. On an empty
  list `removeMin` reads slot 1 of a one-slot array.
- MinHeaps.MinHeap.Insert requires a free slot: the source has no capacity check.
- Tasks are values. In the source, `createValidSchedule` sets `startTime` on
  Task objects it shares with the sorted array. The model writes
  started copies to `s` and leaves the input array alone.
- The `next` links of the list nodes are not modelled, in the scheduler's
  list (TaskScheduler.LinkedList) and in the loader's letter stack
  (DnaLoader.LinkedList). Each list is the sequence of its elements, head first.
- `DList`, `DNode`, `AVLTree`, `AVLNode`, `BTPosition`, `Entry`,
  `Comparator` and `setHeight` are library classes that are not part of
  this model. In their place:
  - `MyDlists.DNode` and `MyDlists.MyDlist` (header and trailer sentinels, `addLast`);
  - the `ExtendedAvl.Tree` datatype, with int keys compared by `<=` and
    height one more than the larger child height.
- ExtendedAvl.Clone and ExtendedAvl.ListToTree do not model parent links,
  which a datatype tree gives implicitly.
- `CustomArray` is a Dafny `array<Entry>`.
- Several source loops have their body, or a part of it, as a method or
  lemma of its own. The behaviour is unchanged:
  - `MatchLength` and `InsertSuffix`;
  - `PushLetters`, `PopAll` and `LoadStep`;
  - `FillFromList`, `DrainInto` and `RemoveInto`;
  - `AdmitReleased`, `StartDue`, `StartNext` and `TimeStep`;
  - `MergeStep` and `CopyRest` (the latter serves both copying loops of `mergeInOrderList`);
  - `AppendCopies` (the copy loops of `cloneList` and `union`);
  - `RemoveLaterCopies` and `StripNext`;
  - `AppendMatches`, `AppendIfEqual` and `IntersectNext`.
- SuffixTrieModel.FindBounds states only that a found pattern is a
  subsequence ending where reported, not that it occurs there. The source's
  search is not sound (see `AgacacCounterexample`). The exact property is
  proved only for one-letter patterns and for words with distinct letters.
  The search's one general promise, that the word and each non-empty
  prefix of it are found at 0, is proved separately (`FindPrefix`).
- SuffixTrie.CompressedSuffixTrie.constructor takes the empty word when the
  file fails to load, where the source leaves `word` null. Both give an
  empty trie.
- The comment on `intersection` says the result has at most as many
  elements as the smaller list. With duplicates that does not hold: the
  count is the product (`InterCount`). It holds for duplicate-free lists (`InterOfSets`).
- The operation-count comments in the sources describe cost, not behaviour.

## Findings

| source | as written | input that shows it | evidently intended | confidence | as-written member | corrected member |
|---|---|---|---|---|---|---|
| assn4/CompressedSuffixTrie.java:136-163 | The line filter `^[ACGT\s]*$` lets `$` match before a final NEL (U+0085), and `Character.isWhitespace` is false for NEL, so NEL reaches the word | a file whose line is "A" followed by U+0085 | only A, C, G, T and whitespace reach the word, so every loaded word is a DNA word | not executed | DnaLoader.FilterAdmitsNel | DnaLoader.LoadIsDna |
