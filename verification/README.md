# Byte-pair encoding: the trainer and its data structures

This project models the core of a byte-pair-encoding (BPE) compressor in Dafny.
The compressor learns a grammar. Each rule is a pair of token ids, and rules
`0..255` are the byte terminals. Training repeatedly replaces the most frequent
adjacent pair of tokens by a new token, and stops once no pair occurs twice.

The repository has two trainers, and both are modelled:

- **The incremental C++ trainer `BPE_Encoding`** (bytepair.cpp). It keeps the
  tokens in a `LinkedArray`, a doubly linked list over a stable-index array
  whose slots are nulled when a pair is fused. It keeps the pair occurrences
  in a priority queue keyed by occurrence count.
- **The reference Python trainer `make_bpe_encoding`** (bytepair.py). It
  rewrites a token list pass by pass, with double buffering, and updates a
  dict of pair counts in place. The Python side also has the vocabulary
  tools:
  - `get_terminals`, `generate_vocab` and `generate_reverse_vocab`;
  - the flattening step of `reverse_bpe`;
  - the greedy longest-match `tokenize`.

The modules follow the source files:

| file | module | models |
|---|---|---|
| wrappers.dfy | `Wrappers` | `Option` and `Result`; a C++ throw or Python raise becomes a `Failure` |
| heap_map.dfy | `HeapMap` | `HeapMap<K, V, Hasher>` (heap_map.hpp): a binary max-heap of key/value entries plus a key-to-slot index |
| linked_array.dfy | `LinkedArray` | `LinkedArray<T>` (linked_array.hpp) as an arena of optional nodes linked by slot number |
| bpe_encoding.dfy | `BpeEncoding` | the `BPE_Encoding` constructors, `inc_pair`, `dec_pair` and `reduce` (bytepair.cpp) |
| grammar.dfy | `Grammar` | grammars and their expansion, `get_terminals`, `generate_vocab`, `generate_reverse_vocab`, `reverse_bpe` and `tokenize` (bytepair.py) |
| bpe_python.dfy | `PyTrainer` | `make_bpe_encoding` (bytepair.py) |

Each structure has an abstraction that its operations are specified against:

- A heap's meaning is its `Contents`, a map from key to value. `Valid` adds
  the index invariant and the max-heap order.
- A linked array's meaning is `Iterate`, the data met by following `next`
  from slot 0. `Valid` says that the links are consistent and that `length`
  counts the live slots.
- A grammar's meaning is `Expand`, the terminals a token stands for. Training
  is specified by the fact that the expansion of its output is its input.
- The Python count dict's meaning is `Exact`: the dict holds exactly the
  positive counts of the multiset of adjacent pairs of the token list.
- The C++ occurrence map's meaning is also `Exact`: each pair maps to the set
  of left positions where it occurs.

## Model

| member | source | states |
|---|---|---|
| HeapMap.EmptyHeap | heap_map.hpp:11 | a default-constructed heap map is valid and holds no keys |
| HeapMap.Swap | heap_map.hpp:95-101 | exchanges two heap entries and re-points both keys' slots; the key-to-value contents are unchanged and the index stays consistent |
| HeapMap.HeapifyUp | heap_map.hpp:131-136 | sifting a misplaced entry up keeps the contents and size; the entry ends at a slot whose parent is not smaller; if nothing below it was out of order, the heap is ordered afterwards |
| HeapMap.HeapifyDown | heap_map.hpp:115-129 | sifting down keeps the contents and size; the heap becomes ordered unless the only fault was above the slot, in which case nothing moves |
| HeapMap.RootIsMax | heap_map.hpp:63-66 | in an ordered heap the root's value is at least every entry's value |
| HeapMap.Max | heap_map.hpp:63-66 | no entry exactly when the heap is empty; otherwise an entry of the contents whose value is a maximum of all values |
| HeapMap.Contains | heap_map.hpp:68-70 | true exactly when the key is in the contents |
| HeapMap.Size | heap_map.hpp:72-75 | on a heap whose index and array are consistent it succeeds with the number of stored keys (the mismatch failure is reachable only from an inconsistent heap, see PushAsWritten) |
| HeapMap.Push | heap_map.hpp:38-43 | fails with `KeyExists` exactly when the key is present; otherwise the heap stays valid, the contents gain exactly `key := value`, and the size grows by one |
| HeapMap.PushAsWritten | heap_map.hpp:38-43 | the push as written: on a duplicate key it fails, and it leaves an entry in the heap with no slot in the index, so a later size query reports the mismatch |
| HeapMap.Inc | heap_map.hpp:14-23 | an absent key enters with value 1 and a present one gains 1; nothing else changes and the heap stays valid |
| HeapMap.Dec | heap_map.hpp:25-36 | fails exactly when the key is absent; a value of 1 removes the key, any other value loses 1; nothing else changes |
| HeapMap.Update | heap_map.hpp:45-51 | fails exactly when the key is absent; otherwise only that key's value changes, to the new one, and the heap stays valid |
| HeapMap.DeleteByMapKey | heap_map.hpp:77-91 | fails exactly when the key is absent; otherwise it returns the key with its value, removes only that key, and the heap stays valid and one smaller |
| HeapMap.Pop | heap_map.hpp:53-61 | fails exactly on an empty heap; otherwise it returns an entry of maximum value and removes only that key |
| LinkedArray.Fill | linked_array.hpp:21-31 | slot `i` holds `data[i]` linked to slots `i-1` and `i+1`; the list is valid, its length is the data's length, and iterating it gives the data back |
| LinkedArray.GetByIndex | linked_array.hpp:40-47 | fails with out-of-range exactly past the capacity and with null-node exactly at a retired slot; otherwise it returns the slot's data |
| LinkedArray.IterateMatchesLookup | linked_array.hpp:94-133 | the k-th element of an iteration is what a lookup of the k-th visited slot returns |
| LinkedArray.WalkCoversLive | linked_array.hpp:94-133 | an iteration from the head visits every live slot exactly once, and `length` of them |
| LinkedArray.GetPrevIndex | linked_array.hpp:58-61 | fails exactly at slot 0; otherwise it is a smaller live slot whose `next` is this one |
| LinkedArray.GetNextIndex | linked_array.hpp:63-66 | fails exactly at the last slot of the array; otherwise it is a larger live slot whose `prev` is this one |
| LinkedArray.GetSecondNextIndex | linked_array.hpp:68-71 | fails exactly at the second-to-last slot; otherwise it is the live slot two `next` links on |
| LinkedArray.ReplacePair | linked_array.hpp:81-92 | fails exactly when the slot is out of range, retired or has no successor; otherwise the list stays valid and one shorter, the slot holds the new item and the successor slot is retired |
| LinkedArray.ReplacePairSplices | linked_array.hpp:81-92 | after a successful replace, iteration yields the old sequence with the two elements at the slot's position replaced by the one new item |
| LinkedArray.Size | linked_array.hpp:73-75 | `length` is the number of elements an iteration visits |
| LinkedArray.Capacity | linked_array.hpp:77-79 | the number of allocated slots bounds the size of a valid list |
| BpeEncoding.IncPair | bytepair.cpp:55-61 | a new pair starts with the single occurrence, a known one gains it; other pairs are untouched and no set becomes empty |
| BpeEncoding.DecPair | bytepair.cpp:62-71 | fails exactly for an absent pair; otherwise the occurrence is dropped, the pair vanishes exactly when its set empties, and other pairs are untouched |
| BpeEncoding.IncThenDec | bytepair.cpp:55-71 | adding a fresh occurrence and then removing it gives the occurrence map back |
| BpeEncoding.DecThenInc | bytepair.cpp:55-71 | removing an existing occurrence and then adding it back gives the occurrence map back |
| BpeEncoding.ToTokens | bytepair.cpp:88-90 | one token per input byte, in order, each equal to the byte's unsigned value |
| BpeEncoding.LeafRules | bytepair.cpp:95-97 | the initial grammar is exactly the 256 leaves, rule `c` being `Pair{c, 0}` |
| BpeEncoding.SeedFreqs | bytepair.cpp:99-104 | the seeding scan records every adjacent pair at its left position and nothing else |
| BpeEncoding.Seed | bytepair.cpp:83-105 | the token array holds the input bytes in order and is valid; the grammar is the 256 leaves `Pair{c, 0}`; the occurrence map is exact for the input |
| BpeEncoding.MostFrequent | bytepair.cpp:169-171 | the chosen pair is stored and no stored pair has more occurrences; an empty map gives the zero pair with no occurrences |
| BpeEncoding.RewriteOccurrence | bytepair.cpp:177-202 | one occurrence: it fails with `TokenImpossible` exactly when the slot is live and holds a token not below the grammar size, and a success implies the slot was live with a token below it; slot 0 fails for want of a previous slot; on success the slot holds the new token, the array is one shorter, no other slot's token changes and the slots before it are untouched |
| BpeEncoding.RewriteChecked | bytepair.cpp:182-202 | the part of one occurrence after the token check passed: it never reports `TokenImpossible`, slot 0 fails for want of a previous slot, and a success leaves the array as described for `RewriteOccurrence` |
| BpeEncoding.RewriteAll | bytepair.cpp:176-203 | on success every occurrence was live with a token below the grammar size before the loop, and afterwards is live and holds the new token; the array stays valid with the same capacity and is shorter by the number of occurrences; if the least occurrence is live with a token at or above the grammar size the loop fails with `TokenImpossible`; a token bound carries over |
| BpeEncoding.Reduce | bytepair.cpp:165-204 | counts the step and records the most frequent pair and its weight; at weight at most 1 nothing else changes; otherwise the pair is appended as a rule and each of its occurrences, all of which held tokens the check accepts, is rewritten as above; when some pair occurs more than once and the least occurrence of every such pair holds a token the check rejects, the step fails with `TokenImpossible`, and it never does when all tokens are grammar tokens |
| Grammar.ExpandLeaves | bytepair.py:154-163 | a token's expansion consists of leaf tokens of the grammar only |
| Grammar.AppendKeepsExpandAll | bytepair.py:72-73 | appending a rule does not change what existing tokens expand to |
| Grammar.GetTerminals | bytepair.py:154-163 | returns the token's expansion into terminals; the memo stays correct and gains the token |
| Grammar.GenerateVocab | bytepair.py:165-169 | the vocabulary has exactly the tokens `0..len(grammar)-1`, each mapped to its expansion, so it has as many entries as the grammar has rules |
| Grammar.VocabPair | bytepair.py:207-208 | the script's pipeline: the reverse vocabulary can always be built from the vocabulary of a well-formed grammar, and the two are each other's reverse as stated above |
| Grammar.GenerateReverseVocab | bytepair.py:171-173 | every vocabulary entry maps back to a token with that expansion, the largest such token, and nothing else is in the map |
| Grammar.ReverseBpe | bytepair.py:143-146 | succeeds exactly when every token is in the vocabulary; otherwise it reports a missing token |
| Grammar.ReverseBpeExpands | bytepair.py:143-146 | with the vocabulary of a grammar, flattening a token list gives the grammar's expansion of it |
| Grammar.Tokenize | bytepair.py:175-193 | fails exactly on empty input; otherwise it returns the greedy longest-known-prefix tokenization |
| Grammar.GreedyRoundTrip | bytepair.py:143-193 | if every single element is a known entry, flattening the greedy tokenization gives the input back |
| Grammar.BytesRoundTrip | bytepair.py:143-193 | for a grammar that starts with the 256 terminals, every byte string tokenizes and flattens back to itself |
| PyTrainer.Bump | bytepair.py:43-46 | counting one more occurrence: the pair is in the dict afterwards with one more than its old count (1 if it was new), and every other count is unchanged |
| PyTrainer.Drop | bytepair.py:96-99 | a decrement fails exactly when the pair has no count, where Python raises |
| PyTrainer.BumpThenDrop | bytepair.py:43-46 | incrementing and then decrementing a pair gives the counts back |
| PyTrainer.InitialTokens | bytepair.py:27-31 | the seeding loop yields a token list which, followed by the input's last element, is the whole input (and is empty for empty input): every element but the last becomes a token, in order |
| PyTrainer.CountPairs | bytepair.py:41-46 | the counts are exactly the adjacent-pair multiset of the tokens |
| PyTrainer.MostFrequent | bytepair.py:62-67 | the chosen pair has the maximum count, which is positive; no pair gives `None` with maximum 0 |
| PyTrainer.Replace | bytepair.py:93-130 | at a match, the four neighbour updates and the final decrement leave the counts an exact recount of the rewritten list, and no assertion fails |
| PyTrainer.PassStep | bytepair.py:85-134 | one scan step moves strictly forward and keeps the scan invariant: the output so far followed by the merge of the rest is the merge of the whole list, and the counts stay exact for the output plus the rest |
| PyTrainer.Scan | bytepair.py:81-134 | the scan from any position in that invariant succeeds when every token is inside the bound and fails only with `TokenImpossible` for one outside it; on success the output is the whole merge with exact counts |
| PyTrainer.MergePass | bytepair.py:80-134 | the pass succeeds whenever every token is inside the grammar, and fails only with `TokenImpossible` for a token outside it; on success it produces the left-to-right merge of the new rule, with counts that are an exact recount |
| PyTrainer.MergeShrinks | bytepair.py:80-134 | a pass never lengthens the list, and shortens it when the pair occurs |
| PyTrainer.MergeLength | bytepair.py:80-134 | with a fresh new token, the output length plus the number of new tokens is the input length |
| PyTrainer.MergeClears | bytepair.py:126-130 | after a pass the merged pair no longer occurs, as long as the new token is not one of its halves |
| PyTrainer.MergeBelow | bytepair.py:80-134 | tokens below `n` stay below `n + 1` when the new token is `n` |
| PyTrainer.MergeExpands | bytepair.py:72-134 | a pass with the rule just appended leaves the grammar's expansion of the token list unchanged |
| PyTrainer.Train | bytepair.py:48-140 | the loop terminates; it fails only for a token outside the grammar; it only appends rules, ends with no pair occurring twice, and keeps the expansion of the token list |
| PyTrainer.MakeBpeEncoding | bytepair.py:18-140 | as written: for byte input it succeeds with a converged token list whose expansion is the input without its last byte |
| PyTrainer.LastByteLost | bytepair.py:27-31 | for any non-empty input, what the as-written result expands to is the input without its last byte, so never the input itself |
| PyTrainer.MakeBpeEncodingFixed | bytepair.py:18-140 | with every element as a token, for byte input the result's expansion is the whole input |
| PyTrainer.TrainFrom | bytepair.py:35-140 | from any byte token list, training with the leaf grammar yields a converged list expanding to it |

## Left out

- The Fibonacci and pairing heaps (fib_heap_map.hpp, pairing_heap_map.hpp) are not part of this model: the trainer is modelled with the binary `HeapMap`.
- Printing and I/O are left out: `operator<<`, file reading, `main`, `render_tokens`, pickling, and the progress prints in `reduce` and `tokenize`.
- The `PARALLEL` OpenMP variant is left out.
- `PairHash` is left out: pairs are compared structurally, and a hash has no observable effect on a map's contents.
- `compress` is left out. Its loop runs while `highest_freq >= 1`, and by the contract of `BpeEncoding.Reduce` a step at weight 1 leaves the grammar, the tokens and the occurrences unchanged, so from such a state the loop does not end. `serialize` and `deserialize` sit under `#if 0` and are left out as well.
- `size_t` wrap-around is left out: slot numbers, counts and token ids are unbounded naturals. For example, `nodes.size() - 2` on an array with fewer than two slots would wrap.
- The destructor of `LinkedArray` (which prints and frees nodes) is left out.
- `begin()` on an empty array reads `nodes.front()`, which is undefined behaviour. The model iterates only non-empty arrays.
- The constructor `LinkedArray<size_t>(tokens)` is called at bytepair.cpp:93 but is not declared in linked_array.hpp. It is modelled as `Fill` on a fresh array.
- `LinkedArray.GetPrevIndex`, `LinkedArray.GetNextIndex` and `LinkedArray.GetSecondNextIndex` require the slot to be live and the links they follow to exist. The source dereferences them unchecked, which is undefined behaviour on a null node. `BpeEncoding.Reduce` checks the second-next links first and reports `Undefined` where the source would dereference null.
- `get_raw` and `operator[]` are left out. `operator[]` is `get_by_index`, and `reduce` uses it as `GetByIndex`.
- `HeapMap.Max`: on an empty heap the source returns a default-constructed pair; the model returns `None`.
- The priority type of the queue: heap_map.hpp declares `HeapMap<K, V, Hasher>` and compares the values `V` themselves with `>` (lines 119, 122 and 132), while bytepair.cpp:74 instantiates it with a fourth argument, a function from an occurrence record to its size, which that header does not accept. `HeapMap` here stores an integer priority directly. In `BpeEncoding` the queue is kept abstract as a map from each pair to its occurrence set, and the set's size is taken as the priority.
- `BpeEncoding.Reduce`: it does not prove that the occurrence map stays exact, because the body as written does not keep it exact. Line 184 builds the old left pair with `most_freq_pair.r` where `most_freq_pair.l` occurs. Lines 190 and 199 file the right pairs under the position of their right token instead of their left one. And the merged pair's own occurrence set is never removed from the queue: the loop only decrements and increments the neighbouring pairs, so the next `max()` can return the merged pair again with occurrences that are stale. `BpeEncoding.RewriteOccurrence` touches only the neighbouring pairs in the same way, so the model reproduces this.
- `BpeEncoding.Reduce`: what happens after a throw in the middle of the step is not modelled. The step returns a failure and the partly updated state is dropped.
- `BpeEncoding.MostFrequent` and `PyTrainer.MostFrequent`: ties between pairs of equal count are broken in an unspecified order. In C++, `max()` returns whatever entry sits at the heap root (heap_map.hpp:63-66), which depends on the history of heap operations; in Python, the scan keeps the first pair in insertion order that reaches the highest count. Neither order is modelled.
- The `running` flag and SIGINT handler of the Python trainer are left out, and so is the `iterations` counter there (which only drives printing).
- Python's `str`/`ord` conversion of the input is left out. Input is a sequence of naturals, and bytes are the ones below 256.
- The `to_bytes` step of `reverse_bpe` is left out. `ReverseBpe` returns the flattened terminal list.
- `Grammar.GenerateReverseVocab` takes the vocabulary's insertion order to be `0, 1, 2, ...`, the order `generate_vocab` inserts in.
- `Grammar.Tokenize` requires that the empty sequence is not a key of the reverse vocabulary. With it as a key, the source loop never ends.
- `Grammar.GetTerminals` requires a well-formed grammar and a token inside it. Otherwise the source raises `IndexError` or recurses without end.

## Findings

| source | as written | input that shows it | evidently intended | confidence | as-written member | corrected member |
|---|---|---|---|---|---|---|
| bytepair.py:27 | `range(len(input) - 1)` copies every input element but the last into the initial tokens | any non-empty input, e.g. `b"ab"`: the tokens are `[97]`, and the learned encoding expands to `b"a"` | every element becomes a token, so the encoding expands to the whole input | high, not executed | PyTrainer.MakeBpeEncoding (with PyTrainer.LastByteLost) | PyTrainer.MakeBpeEncodingFixed |
| heap_map.hpp:38-43 | `push` appends the entry before checking whether the key exists | pushing a key already in the heap: the call throws, but the heap keeps an extra entry the index does not point to, so `size()` then throws "Heap and map sizes mismatch" | check for the key first and leave the heap untouched when it is present | high, not executed | HeapMap.PushAsWritten | HeapMap.Push |
