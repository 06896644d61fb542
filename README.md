# Word-frequency counter: verified model

`data_structures_C.c` counts how often each word occurs in a text file. Then it prints
the most frequent ones (at most 100), largest count first. It has two data structures:

- **The frequency table.** This is an open-addressed hash table of `TABLESIZE` (1267709)
  slots. A word's home slot is its hash: a weighted sum of its characters, kept in a
  32-bit `unsigned int` and reduced modulo the table size. `check_word` fills an empty
  home slot with the word and count 1, or increments the count when the slot already
  holds the word. Otherwise `handle_collision` probes linearly at offsets 1 to N-2 from
  the home slot. It fills the first empty slot or increments the slot holding the word.
  When every probed slot holds another word, the occurrence is dropped without notice.
- **The top-K selector.** This is a bounded binary min-heap of entries ordered by count.
  `display_word_count` offers every stored entry in slot order:
  - below capacity, the entry is appended and the heap rebuilt;
  - at capacity, it replaces the root only when its count is strictly larger, and is
    discarded otherwise.

  Then the heap is drained in place, by swapping the root with the last live node and
  sifting down, so that `nodes[0..count)` is in non-increasing count order.

The Dafny project keeps this structure:

| file | module | contents |
|---|---|---|
| `words.dfy` | `Words` | entries (word, count), the slot option, what a token is |
| `hashing.dfy` | `Hashing` | `hashCode`, its explicit 32-bit wrap-around, and the proof that tokens never wrap |
| `probing.dfy` | `Probing` | the table as a sequence of slots: the probe search, the effect of one recording (`Record`), the table invariant (unique keys, positive counts, linear-probing clusters), and counting lemmas over whole inputs |
| `hash_table.dfy` | `HashTables` | class `HashTable`, whose slot array `check_word` and `handle_collision` update in place: `CheckWord` is proved equal to `Record`, `HandleCollision` to `RecordFrom` from offset 1 |
| `min_heap.dfy` | `MinHeaps` | class `MinHeap` over a node array: `swapHeapNodes`, `minHeapify`, `build_minheap`, `insert_to_minheap` and the drain loop. Ghost multisets `Offered` and `Dropped` record which entries were offered and which were evicted or discarded |
| `word_count.dfy` | `WordCount` | `display_word_count`: the fill loop, the drain, and the top-K properties of the report |

A full table does not make the probe overrun: `i < TABLESIZE - 1` limits it to offsets
0 to N-2. So the slot just before
the home slot is never examined, and the occurrence is dropped silently. The model
follows the code: see `Probing.RecordInsertsAbsent` and `Probing.RecordIgnoresLastSlot`.

## Model

| member | source | states |
|---|---|---|
| Hashing.HashCode | data_structures_C.c:58-66 | the returned slot is the character-weighted sum, wrapped to 32 bits after every step and then reduced modulo the table size; it is below the table size |
| Hashing.HashSumBound | data_structures_C.c:62-64 | for at most 99 characters none above 'z', the unwrapped sum is at most `length * 122 * (99 + 1409)` |
| Hashing.HashNoWrap | data_structures_C.c:58-66 | for every token of 1..99 lower-case letters the sum stays below 2^32, so the home slot is the plain sum modulo the table size |
| Probing.ProbeFrom | data_structures_C.c:118-130 | a search result `Match`/`Vacant` lies at an offset in i..N-2, the slot there holds the word or is empty, and every earlier offset holds another word; `Exhausted` means every offset i..N-2 holds another word |
| Probing.EmptyTableValid | data_structures_C.c:24-31 | a table of empty slots satisfies the table invariant |
| Probing.SearchFindsStoredKey | data_structures_C.c:133-146 | in a valid table the search for a stored word stops at exactly the slot holding it |
| Probing.SearchMissMeansAbsent | data_structures_C.c:118-146 | in a valid table a search that finds no match means the word is stored nowhere |
| Probing.RecordIncrementsPresent | data_structures_C.c:142-144 | recording a stored word increments the count of the one slot holding it and changes no other slot |
| Probing.RecordInsertsAbsent | data_structures_C.c:122-124 | recording an absent word leaves the table unchanged exactly when every probed offset 0..N-2 holds another word; otherwise it turns exactly one empty slot into (word, 1) |
| Probing.RecordIgnoresLastSlot | data_structures_C.c:120 | the slot at offset N-1 is never probed: a new word is dropped even though that slot is empty |
| Probing.RecordPreservesValid | data_structures_C.c:118-146 | recording keeps keys unique, counts positive, and every entry reachable from its home slot through occupied slots within offsets 0..N-2 |
| Probing.InEntries | data_structures_C.c:150-155 | an entry is among those the fill loop visits exactly when some slot holds it |
| Probing.EntriesAreCounts | data_structures_C.c:150-155 | with unique keys, the visited entries are exactly the stored words paired with their table counts |
| Probing.CountOfUpdate | data_structures_C.c:123 | overwriting one slot changes a word's total count by the difference of the old and new slot contributions |
| Probing.CountOfStored | data_structures_C.c:10-13 | with unique keys a stored word's count is the count in its slot; an absent word's count is 0 |
| Probing.EntriesSize | data_structures_C.c:150-155 | with unique keys the fill loop visits exactly as many entries as there are stored words |
| Probing.EntriesAtMostOnce | data_structures_C.c:150-155 | with unique keys the fill loop offers each entry at most once |
| Probing.RecordAllKeys | data_structures_C.c:177-182 | when no occurrence is dropped, the stored words grow by exactly the distinct words of the input |
| Probing.DistinctWordsStored | data_structures_C.c:170-182 | from the empty table with fewer distinct words than slots, the stored words are exactly the distinct input words and the fill loop offers one entry for each, so an empty input offers nothing |
| Probing.EmptyTableCounts | data_structures_C.c:24-31 | the empty table stores no words and every count is 0 |
| Probing.KeysAlongDistinct | data_structures_C.c:120-128 | the slots along an exhausted walk hold pairwise distinct stored words, none of them the searched word |
| Probing.SearchExhaustedMeansCrowded | data_structures_C.c:120-129 | an exhausted search means the word is absent and at least N-1 distinct words are already stored |
| Probing.RecordSlot | data_structures_C.c:133-146 | a recording that is not dropped writes one slot, which was empty or held the word, with (word, old count + 1) |
| Probing.RecordCounts | data_structures_C.c:133-146 | a recording that is not dropped adds one to the word's count and nothing to any other word's count |
| Probing.RecordKeys | data_structures_C.c:133-146 | a recording that is not dropped adds exactly the recorded word to the stored words |
| Probing.RecordFirst | data_structures_C.c:177-182 | while fewer distinct words than slots are stored or pending, the next token is not dropped, the table stays valid and the bound still holds afterwards |
| Probing.NotDropped | data_structures_C.c:118-130 | with fewer stored-or-pending words than slots, the search for a pending word is never exhausted |
| Probing.RecordAllValid | data_structures_C.c:177-182 | recording a token sequence with fewer distinct words than slots keeps the table valid and drops no occurrence |
| Probing.RecordAllCounts | data_structures_C.c:177-182 | when no occurrence is dropped, every word's count grows by its number of occurrences in the input |
| Probing.CountsMatchOccurrences | data_structures_C.c:170-182 | starting from the empty table with fewer distinct words than slots, each word's count equals its number of occurrences |
| HashTables.HashTable.constructor | data_structures_C.c:24-31 | every slot is empty and the table invariant holds |
| HashTables.HashTable.CheckWord | data_structures_C.c:133-146 | the new slot array is `Record(old slots, key)`, and the table invariant is kept |
| HashTables.HashTable.HandleCollision | data_structures_C.c:118-130 | the new slot array is the old one after recording the word by probing offsets 1..N-2 from `slot`; when nothing is found it is unchanged |
| MinHeaps.HeapRootIsMin | data_structures_C.c:80-94 | in a min-heap the root's count is at most any node's count |
| MinHeaps.RootBelowAll | data_structures_C.c:111 | the root of a min-heap is no larger than any entry the heap holds |
| MinHeaps.SwapDownStep | data_structures_C.c:84-92 | swapping node i with its strictly smaller, smallest child c repairs the edges below i and moves the only possible disorder below c |
| MinHeaps.SettledIsHeap | data_structures_C.c:90 | when node i is no larger than its children, heap order holds on every edge in scope |
| MinHeaps.OfferBelowCapacity | data_structures_C.c:106-110 | below capacity the offered entry becomes live and the selector state (heap, accounting, dominance) is kept |
| MinHeaps.OfferEvicts | data_structures_C.c:111-114 | at capacity an entry with a strictly larger count evicts the root: the root is dropped, the entry becomes live, and no dropped entry outranks a live one |
| MinHeaps.OfferDiscards | data_structures_C.c:105-115 | at capacity an entry with a count at most the root's is dropped and the live entries are unchanged |
| MinHeaps.RootReplaced | data_structures_C.c:112 | overwriting the root breaks heap order only below the root and swaps the root's entry for the new one |
| MinHeaps.DrainStepLive | data_structures_C.c:158-159 | swapping the root with the last live node breaks heap order only below the root of the shrunk region, and keeps the entries |
| MinHeaps.DrainStepTail | data_structures_C.c:158-159 | after the swap the old root heads the sorted tail and is no larger than any entry still live |
| MinHeaps.DrainSettle | data_structures_C.c:160 | after the sift-down the drain state holds again: the live region is a heap, the tail is sorted, and live entries are at least tail entries |
| MinHeaps.LiveAfterRootSwap | data_structures_C.c:158-159 | moving the last node to the root and dropping the last position breaks heap order only below the root |
| MinHeaps.MinHeap.constructor | data_structures_C.c:34-40 | an empty heap of the given capacity that has seen no offers |
| MinHeaps.MinHeap.SwapHeapNodes | data_structures_C.c:71-75 | the node array is the old one with the two positions exchanged |
| MinHeaps.MinHeap.MinHeapify | data_structures_C.c:80-94 | if heap order is broken only below node i, afterwards the live nodes form a heap, hold the same entries, and nodes past `count` are untouched |
| MinHeaps.MinHeap.BuildMinHeap | data_structures_C.c:97-102 | the live nodes form a min-heap, hold the same entries, and nodes past `count` are untouched |
| MinHeaps.MinHeap.InsertToMinheap | data_structures_C.c:105-115 | keeps the selector invariant and, by case: below capacity the entry is added; at capacity with a larger count the old root is replaced; otherwise the entry is dropped and the heap unchanged |
| MinHeaps.MinHeap.DrainRoot | data_structures_C.c:157-161 | one drain iteration shrinks the live region by one, keeps the entries of `nodes[0..n)`, and re-establishes the drain state |
| MinHeaps.MinHeap.Drain | data_structures_C.c:156-161 | afterwards `nodes[0..n)` holds the same entries as the live heap did, in non-increasing count order, and `count` is 0 |
| WordCount.OfferAll | data_structures_C.c:150-155 | the heap receives exactly the table's stored entries on top of what it had been offered, and keeps its invariant |
| WordCount.DrainedReport | data_structures_C.c:156-165 | the drained entries together with the dropped ones are everything offered, no dropped entry outranks a reported one, and there are as many as capacity allows |
| WordCount.DisplayWordCount | data_structures_C.c:149-166 | the printed list is in non-increasing count order, is a sub-multiset of the offered entries with every dropped entry no larger than every listed one, and has `size` entries once anything was dropped |
| WordCount.ReportIsTopK | data_structures_C.c:149-166 | from an empty heap, the report is a sub-multiset of the stored entries, lists each word at most once, each reported entry is a stored word with its table count, every stored word left out has a count no larger than every reported one, and the report has min(size, number of stored words) entries |
| WordCount.TopWords | data_structures_C.c:149-166 | with a fresh heap of capacity k, as `main` creates (line 171), the report is in non-increasing count order, is a sub-multiset of the stored entries, lists each word at most once, lists only stored words with their table counts, leaves out no word whose count exceeds a listed one, and has min(k, number of stored words) entries; with `Probing.DistinctWordsStored` that number is the number of distinct tokens read, whenever it is below the table size |

## Left out

- `main` (lines 169-187) is not modelled: the file opening, the `fscanf` tokenizer and `tolower`. Tokens reach the model as strings. `Words.IsWord` describes what the tokenizer produces, and `Probing.RecordAll` applies `check_word` to a token sequence.
- The output of `display_word_count` (`printf`, lines 162-165) is not modelled. `DisplayWordCount` returns the sequence it would print.
- `malloc`, `ht_helper` (lines 43-50) and `strcpy` are not modelled. Entries are values and a slot holds its entry directly.
- `swapHeapNodes` exchanges the contents of two records through pointers. Those records are the frequency table's own records. So in the C program every swap, in the sift-downs of the fill loop (lines 91, 109 and 113) and in the drain, also exchanges the contents of two records the table's slots point to, while the slot pointers themselves never change. The model keeps heap entries as values and leaves the table unchanged. Heap pointers only ever reach slots the fill loop has already visited, so the entries seen through the heap are the same.
- Counts are unbounded naturals. The C `unsigned int` count would wrap after 2^32 occurrences of one word.
- Characters are taken as their code points. A byte above 127, which C reads as a negative `char`, is not modelled, since the tokenizer only produces 'a'..'z'.
- HashTables.HashTable.constructor: takes the slot count as a parameter, defaulting to `TABLESIZE`, and requires at least 2 slots. The C program always uses `TABLESIZE`.
- HashTables.HashTable.CheckWord: requires the table invariant `Valid()`, which the constructor establishes and every recording keeps. The C function states no precondition.
- MinHeaps.MinHeap.constructor: requires a capacity above 0. With capacity 0 the C `insert_to_minheap` would read `nodes[0]` out of bounds. The program passes 100.
- MinHeaps.MinHeap.MinHeapify: its contract covers calls where heap order may be broken only below node `i`, as in every call the program makes. Arbitrary arrays are not covered.
- WordCount.ReportIsTopK: states only that no dropped entry has a larger count than a kept one. It does not promise that among entries with equal counts the one offered first is kept, and the code does not keep such a promise. With capacity 2 and offers A(1), B(1), C(2): after B, `build_minheap` leaves [A, B] because `1 < 1` fails (lines 84-90). C then replaces the root A (line 112), and the sift-down gives [B, C]. So A, offered first, is dropped while B, with the same count, is kept. The offer order is also slot order (lines 150-153), not the order in which words were first recorded.
- The relative order of entries with equal counts in the report is not specified. The code does not fix it.
