# Word dictionaries, RLE and Fano coding — a verified model

The program keeps a frequency dictionary of the words of a text. It offers
two interchangeable stores: a separate-chaining hash table
(`DictionaryWithHashTable`) and a red-black tree (`DictionaryWithRBTree`).
Both normalise every word to lower case first: ASCII capitals and the
two-byte UTF-8 capitals of the Russian alphabet. Words come from cutting the
text at white space and punctuation. The program also has a byte-level
run-length codec (`RLE`) that writes `count#c` for long runs and
`-len#bytes` for everything else, and a Fano coder. The Fano coder turns a
text into a bit string and back through a table of code words.

This project models these parts of `main.cpp` in Dafny and proves what they
promise.

- **Text** (`text.dfy`): `normalizeWordToLower` and `processTextToWords`,
  each as a loop proved equal to a function. The lemmas show that
  normalising keeps the length and is idempotent. They also show that the
  text splits in exactly one way into pieces free of space and punctuation,
  with one such byte between neighbouring pieces, and that the words are
  the non-empty pieces of that split, in order.
- **Word counts** (`word_counts.dfy`): what both dictionaries store, as a
  map from normalised word to count. `addWord` and the `loadFromFile` loop
  are functions on that map. A word's count after loading is its old count
  plus its number of occurrences.
- **Hash table** (`hashtable.dfy`): the class `HashTable`, with the bucket
  vector as a field, and the hash `Dictionary`. `add`, `get`, `remove`,
  `clear` and `rehash` are proved against the key-to-value map the buckets
  stand for. They preserve these invariants:
  - every node sits in its hash bucket;
  - no key appears twice;
  - `num_elements` counts the nodes;
  - the load factor stays below 0.75.
- **Red-black tree** (`rb_*.dfy`): the class `RBTree`. Its nodes live in an
  arena (`nodes`) with index 0 as the `NIL` sentinel, and pointers are
  indices. A ghost tree value `abs` is tied to the arena by the parent and
  child links.
  - Rotations, `insert` with `insertFixup`, and `remove` with
    `transplant`, `minimum` and `deleteFixup` are imperative methods. They
    are proved to keep the in-order sequence ascending, the root black, no
    red node with a red child, and the black height uniform.
  - They are also proved to change the stored map exactly as a map insert
    or delete would.
  - The fixup loops are proved with a zipper: the path from the current
    node up to the root, as a sequence of frames.
  - Lemmas prove the height bound the invariants give:
    `height <= 2·black-height` and `2^black-height <= size + 1`.
- **RLE** (`rle.dfy`): `advancedRleEncode` and `advancedRleDecode` as loops
  proved equal to functions. The decoder returns one error value per
  exception it throws. Decoding undoes encoding for every input of at most
  `INT_MAX` bytes. Concrete inputs show each error case the decoder can
  reach.
- **Fano** (`fano.dfy`): `encodeFano` and `decodeFano`, with the code table
  as a parameter. Decoding undoes encoding for every prefix-free table that
  gives each symbol of the text a code.
- **The `remove` defect** (`rb_remove_as_written.dfy`): `remove` exactly as
  written, as functions on the arena. A lemma evaluates these functions on a
  four-key tree and proves that they break the black-height invariant (see Findings). The class method
  `RedBlack.RBTree.Remove` models the corrected code.

Strings are byte sequences (`seq<byte>`, with `byte` an unsigned 8-bit
newtype), and `std::string` comparison is unsigned lexicographic order
(`Bytes.Less`). The C++ `int` counts are unbounded `int`s.

## Model

| member | source | states |
|---|---|---|
| Bytes.LessTotal | main.cpp:597-601 | two different keys are ordered one way or the other, so the search in `insert` goes left, goes right, or stops at the equal key |
| Bytes.LessTransitive | main.cpp:418 | the `std::string` order on keys is transitive |
| Bytes.LessIrreflexive | main.cpp:418 | no key is less than itself |
| Text.NormalizeWordToLower | main.cpp:58-92 | the loop returns `Lower(input)`: the normalised word |
| Text.LowerLength | main.cpp:58-92 | normalising keeps the byte length |
| Text.LowerIdempotent | main.cpp:58-92 | normalising a normalised word changes nothing, so every stored key is in normal form |
| Text.ProcessTextToWords | main.cpp:37-56 | the loop returns `Words(text)` |
| Text.PiecesSpec | main.cpp:41-50 | the pieces hold no space or punctuation byte, there is one more piece than there are such bytes, and putting each of those bytes back between its two pieces gives the text again |
| Text.PiecesUnique | main.cpp:41-50 | that split is the only one: any separator-free pieces that interleave with space and punctuation bytes to a text are its pieces, and those bytes are its separators |
| Text.PositionsIncrease | main.cpp:44-53 | the positions of the non-empty pieces are listed in increasing order |
| Text.PositionsExact | main.cpp:44-53 | a position is listed exactly when the piece there is non-empty |
| Text.NonEmptySpec | main.cpp:44-53 | the kept pieces are the pieces at those positions, one for each: the `j`-th word is the piece at the `j`-th listed position |
| Text.WordsSpec | main.cpp:37-56 | the `j`-th word is the piece of that unique split at the `j`-th position of a non-empty piece, so the words are the non-empty pieces in order; each is non-empty and free of space and punctuation |
| WordCounts.AddWordWellFormed | main.cpp:252-264 | after `addWord` every key is still a non-empty normalised word with a positive count |
| WordCounts.AddWordsWellFormed | main.cpp:300-302 | loading words keeps the dictionary well formed |
| WordCounts.AddWordsCount | main.cpp:293-302 | after loading, a word is present exactly when it was present or occurs among the non-empty words; its count is the old count plus its occurrences |
| DictionaryWithHashTable.HashStep | main.cpp:115-118 | one round of the hash loop keeps the sum equal to the polynomial hash of the bytes read so far, and the power equal to 31^i, both modulo `table_size` |
| DictionaryWithHashTable.HashTable.HashFunction | main.cpp:111-120 | returns `(Σ key[i]·31^i) mod table_size` over unsigned bytes, always less than `table_size` |
| DictionaryWithHashTable.HashTable.constructor | main.cpp:138-141 | an empty table with `initial_size` buckets, 1 when 0 is asked for |
| DictionaryWithHashTable.HashTable.ScanBucket | main.cpp:149-154 | the bucket scan returns the position of the first node with the key, or the bucket's length if there is none |
| DictionaryWithHashTable.IndexOfSpec | main.cpp:149-154 | the position found holds the key, and no earlier node does |
| DictionaryWithHashTable.HashTable.Get | main.cpp:159-177 | returns the key's value exactly when the key is present, and nothing otherwise |
| DictionaryWithHashTable.HashTable.GetSlot | main.cpp:159-167 | the pointer `get` returns: it is absent exactly when the key is absent, and otherwise names the node holding the key and its value |
| DictionaryWithHashTable.HashTable.SetSlot | main.cpp:259-260 | writing a count through that pointer updates that key alone and keeps every invariant |
| DictionaryWithHashTable.LookupOverwrite | main.cpp:149-153 | overwriting the node of a present key changes that key's lookup only |
| DictionaryWithHashTable.LookupAppend | main.cpp:155 | appending a node for an absent key to its bucket makes that key map to the value and changes no other lookup |
| DictionaryWithHashTable.AppendKeepsShape | main.cpp:155-156 | appending keeps nodes in their hash buckets and keys distinct, and adds one to the node count |
| DictionaryWithHashTable.WriteStep | main.cpp:151 | overwriting a value keeps the shape and the count, and sets that key in the map |
| DictionaryWithHashTable.HashTable.Insert | main.cpp:148-156 | the part of `add` after the load check: the key maps to the value; `num_elements` grows by one exactly for a new key |
| DictionaryWithHashTable.HashTable.Add | main.cpp:143-157 | the map gains `key := value`; the table grows to `2n+1` buckets exactly when `(num_elements+1)/table_size >= 0.75`; `num_elements` grows by one exactly for a new key |
| DictionaryWithHashTable.BeforeAll | main.cpp:130-134 | walking every node of every old bucket visits exactly the keys of the old table |
| DictionaryWithHashTable.LookupEmpty | main.cpp:127 | a freshly assigned table holds no key |
| DictionaryWithHashTable.HashTable.Rehash | main.cpp:122-135 | the same map in `2n+1` buckets, with the same `num_elements` |
| DictionaryWithHashTable.LookupErase | main.cpp:185 | erasing the key's node removes that key only |
| DictionaryWithHashTable.EraseStep | main.cpp:183-187 | erasing keeps the shape, lowers the node count by one and removes the key from the map |
| DictionaryWithHashTable.HashTable.EraseAt | main.cpp:184-187 | erasing the node found removes that key and decrements `num_elements` |
| DictionaryWithHashTable.HashTable.Remove | main.cpp:180-191 | returns whether the key was present; the map loses the key and nothing else, and `num_elements` drops by one exactly when it was present |
| DictionaryWithHashTable.HashTable.Clear | main.cpp:193-198 | the map is empty, `num_elements` is 0, and the bucket count is kept |
| DictionaryWithHashTable.Dictionary.constructor | main.cpp:250 | an empty dictionary |
| DictionaryWithHashTable.Dictionary.Increment | main.cpp:258-263 | the normalised word's count goes up by one, or is set to 1 if it was absent |
| DictionaryWithHashTable.Dictionary.IncrementSlot | main.cpp:259-260 | `(*current_val_ptr)++` increments the count of the present word |
| DictionaryWithHashTable.Dictionary.AddWord | main.cpp:252-264 | an empty word is ignored; otherwise the normalised word's count is bumped |
| DictionaryWithHashTable.Dictionary.RemoveWord | main.cpp:266-271 | an empty word is ignored; otherwise the normalised word is removed and nothing else changes |
| DictionaryWithHashTable.Dictionary.FindWord | main.cpp:273-286 | true exactly when the word is non-empty and its normal form is counted |
| DictionaryWithHashTable.Dictionary.Clear | main.cpp:288-291 | no word remains |
| DictionaryWithHashTable.Dictionary.LoadText | main.cpp:293-307 | starting from the old counts (append) or from none, every non-empty word of the content is added in order |
| RedBlack.RBTree.constructor | main.cpp:574-580 | a sentinel that is its own parent and children, black, and an empty tree |
| RBTheory.RotatePreserves | main.cpp:339-373 | a rotation keeps the in-order (key, value) sequence and the set of nodes |
| RBArena.RotateMatches | main.cpp:339-373 | after the pointer writes of a rotation, the arena holds the rotated subtree, with the parent and child links consistent |
| RedBlack.RBTree.RotateWrites | main.cpp:339-373 | the pointer writes of `leftRotate`/`rightRotate`, including the move of `root` when the rotated node was the root |
| RedBlack.RBTree.RotateAt | main.cpp:339-373 | `leftRotate`/`rightRotate` leave the arena holding the rotated tree in its place, with consistent parent and child links and a new root exactly when the rotated node was the root |
| RBFixup.InsertCase1 | main.cpp:379-383 | red uncle: the recolouring keeps the insert invariant and moves the violation two levels up |
| RBFixup.InsertCase2 | main.cpp:385-388 | inner grandchild: the rotation at the parent turns it into the outer case |
| RBFixup.InsertCase3 | main.cpp:389-391 | outer grandchild: recolouring and rotating at the grandparent removes the red-red violation |
| RBFixup.InsertDone | main.cpp:412 | blackening the root at the end leaves a red-black tree |
| RedBlack.RBTree.InsertRedUncle | main.cpp:379-383 | the arena version of the red-uncle case, with the same key sequence |
| RedBlack.RBTree.InsertRotations | main.cpp:384-392 | the arena version of the two rotation cases, ending below a black node |
| RedBlack.RBTree.InsertFixupRound | main.cpp:376-411 | one pass of the loop keeps the invariant and shortens the path to the root |
| RedBlack.RBTree.InsertFixup | main.cpp:375-413 | the result is a red-black tree with the same in-order sequence |
| RBOrder.SearchMissing | main.cpp:595-606 | when the search reaches `NIL`, the key is absent |
| RBOrder.SearchFound | main.cpp:601-602 | when the search stops at a node, that node holds the key |
| RBOrder.InsertAtGap | main.cpp:608-615 | hanging the new node where the search ended keeps the sequence ascending and adds `key := value` to the map |
| RBOrder.ReplaceValue | main.cpp:602 | overwriting the value keeps the sequence ascending and sets the key in the map |
| RedBlack.RBTree.FindNode | main.cpp:415-425 | returns `NIL` exactly when the key is absent, and otherwise the node holding it with its stored value |
| RedBlack.RBTree.Search | main.cpp:619-626 | returns the key's value exactly when it is present |
| RedBlack.RBTree.OverwriteAt | main.cpp:601-605 | an equal key: only that node's value changes, with no rotation and the same root |
| RedBlack.RBTree.AttachLeaf | main.cpp:608-616 | a new red leaf under the last node visited, then `insertFixup`: the map gains `key := value` and the tree stays red-black |
| RedBlack.RBTree.Insert | main.cpp:590-617 | the map becomes `old[key := value]` and the tree stays a red-black search tree; for a key already present the root, the node count and every node's links and colour stay as they were (no node added, no fixup) |
| RBFixup.DeleteCase1 | main.cpp:450-455 | red sibling: recolouring and rotating at the parent gives a black sibling and keeps the delete invariant |
| RBFixup.DeleteCase2 | main.cpp:458-460 | black sibling with black children: recolouring it moves the extra black to the parent |
| RBFixup.DeleteCase3 | main.cpp:463-468 | black sibling with a red near child: the rotation at the sibling gives a red far child |
| RBFixup.DeleteCase4 | main.cpp:471-475 | black sibling with a red far child: the final rotation restores the black height |
| RBFixup.DeleteDone | main.cpp:507 | blackening `x` at the end leaves a red-black tree |
| RedBlack.RBTree.DeleteRedSibling | main.cpp:450-455 | the arena version of case 1, keeping the key sequence |
| RedBlack.RBTree.DeleteBlackSibling | main.cpp:458-476 | cases 2–4 on the arena: the measure drops, the key sequence is kept |
| RedBlack.RBTree.DeleteNearChild | main.cpp:463-468 | the arena version of case 3 |
| RedBlack.RBTree.DeleteFarChild | main.cpp:471-475 | the arena version of case 4, which ends the loop with a balanced tree |
| RedBlack.RBTree.DeleteFixupRound | main.cpp:446-506 | one pass of the loop keeps the delete invariant and lowers its measure |
| RedBlack.RBTree.DeleteFixupFinish | main.cpp:507 | `x->color = BLACK` at the root or at a red node gives a red-black tree |
| RedBlack.RBTree.DeleteFixup | main.cpp:445-508 | the result is a red-black tree with the same in-order sequence |
| RedBlack.RBTree.Transplant | main.cpp:427-436 | the pointer writes of `transplant`: `v` takes `u`'s place under `u`'s parent, or as root; `v->parent` is set even when `v` is `NIL` |
| RedBlack.RBTree.Minimum | main.cpp:438-443 | follows left links to the leftmost node, which holds the first pair of the subtree's in-order sequence |
| RBOrder.RemoveOneChild | main.cpp:636-641 | splicing out a node with at most one child removes exactly its key and keeps the order |
| RBOrder.RemoveSuccessor | main.cpp:642-657 | replacing a node by its in-order successor removes exactly its key and keeps the order |
| RedBlack.RBTree.SpliceWrites | main.cpp:653-656 | the pointer writes that put the successor in `z`'s place with `z`'s left child and colour |
| RedBlack.RBTree.ReplaceWithSuccessor | main.cpp:653-656 | after those writes the successor stands where `z` was, with `z`'s colour and left subtree |
| RedBlack.RBTree.LinkAdjacentSuccessor | main.cpp:646-647 | the successor is `z`'s right child: the links are consistent and `x->parent` is the successor even when `x` is `NIL` (the corrected guard) |
| RedBlack.RBTree.CutSuccessor | main.cpp:649-651 | a deeper successor is cut out, its right subtree taking its place, and takes `z`'s right subtree |
| RedBlack.RBTree.LinkDeeperSuccessor | main.cpp:648-657 | the whole two-children case for a deeper successor, with consistent links |
| RedBlack.RBTree.RemoveTwoChildren | main.cpp:642-657 | two children: the key alone is removed and the order is kept; with the returned flag set, the tree around `x` meets `deleteFixup`'s invariant, and otherwise it is already red-black |
| RedBlack.RBTree.RemoveOneChild | main.cpp:636-641 | at most one child: the key alone is removed and the order is kept; with the returned flag set, the tree around `x` meets `deleteFixup`'s invariant, and otherwise it is already red-black |
| RedBlack.RBTree.Remove | main.cpp:628-664 | returns whether the key was present; the map loses that key and nothing else; the tree stays a red-black search tree; for an absent key the nodes, the root and the tree are untouched |
| RedBlack.RBTree.Clear | main.cpp:666-669 | an empty tree and an empty map |
| RedBlack.RBTree.DumpFrom | main.cpp:518-528 | the in-order walk from a node yields that subtree's (key, value, colour) sequence |
| RedBlack.RBTree.InOrder | main.cpp:671-676 | the in-order walk of the whole tree: exactly the stored pairs, with strictly ascending keys |
| RBTheory.DumpPairs | main.cpp:518-528 | the walk lists the subtree's pairs in order |
| RedBlack.RBTree.MaxDepthFrom | main.cpp:548-553 | `getMaxDepth` from a node is that subtree's height |
| RedBlack.RBTree.MaxDepth | main.cpp:548-553 | the depth is the tree's height, at most twice its black height, and `2^black-height <= size + 1` |
| RBInvariants.HeightBound | main.cpp:548-553 | a red-black tree's height is at most twice its black height, and it has at least `2^black-height - 1` nodes |
| RedBlack.Dictionary.constructor | main.cpp:705 | an empty dictionary |
| RedBlack.Dictionary.Increment | main.cpp:712-717 | `insert(word, count + 1)` or `insert(word, 1)`: the count is bumped; for a word already present the tree keeps its root, nodes, links and colours |
| RedBlack.Dictionary.AddWord | main.cpp:707-718 | an empty word is ignored; otherwise the normalised word's count is bumped |
| RedBlack.Dictionary.RemoveWord | main.cpp:720-725 | an empty word is ignored; otherwise the normalised word is removed |
| RedBlack.Dictionary.FindWord | main.cpp:727-740 | true exactly when the word is non-empty and its normal form is counted |
| RedBlack.Dictionary.Clear | main.cpp:742-745 | no word remains |
| RedBlack.Dictionary.LoadText | main.cpp:747-761 | the same counts as the hash dictionary: the old counts (append) or none, plus every non-empty word of the content |
| Rle.DigitsValue | main.cpp:974 | `std::to_string(n)` writes at least one decimal digit, and reading the digits back gives `n` |
| Rle.DigitRunSpec | main.cpp:1026-1029 | the number loop stops at the first non-digit, and everything before it is a digit |
| Rle.RunLengthSpec | main.cpp:966-971 | the run at `i` is the longest stretch of bytes equal to `input[i]` |
| Rle.LiteralEndSpec | main.cpp:979-990 | a literal stretch ends at the end of the input or at the start of a run of at least 3 |
| Rle.ScanRun | main.cpp:966-971 | the scan returns the run length at `i` |
| Rle.ScanLiteral | main.cpp:976-990 | the scan returns the end of the literal stretch |
| Rle.AdvancedRleEncode | main.cpp:956-1001 | the loop returns `Encode(input)`; an empty input gives an empty string |
| Rle.ScanDigits | main.cpp:1025-1029 | the number loop returns the digit run and the index after it |
| Rle.RepeatByte | main.cpp:1065-1067 | the repeat loop writes `count` copies of the byte |
| Rle.DecodeTokenAt | main.cpp:1012-1023 | one token as the decoder reads it from `i`: a `-` without a digit and a bad first byte are errors, and the rest goes to the number reading |
| Rle.DecodeCountAt | main.cpp:1025-1068 | the number, the separator, the range and sign checks, then the literal or the run |
| Rle.AdvancedRleDecode | main.cpp:1003-1071 | the loop returns `Decode(e)`: the decoded text, or the error the first bad token throws |
| Rle.DecodeRunToken | main.cpp:1059-1067 | `n#c` followed by more decodes to `n` copies of `c` followed by the rest |
| Rle.DecodeLiteralToken | main.cpp:1053-1058 | `-len#bytes` followed by more decodes to those bytes followed by the rest |
| Rle.RoundTripRun | main.cpp:973-975 | the round trip of a run token, given the round trip of what follows |
| Rle.RoundTripLiteral | main.cpp:976-997 | the round trip of a literal token, given the round trip of what follows |
| Rle.RoundTripFrom | main.cpp:956-1071 | decoding the encoding of the input from any position on gives the input from there |
| Rle.RoundTrip | main.cpp:956-1071 | `advancedRleDecode(advancedRleEncode(s)) == s` for every input whose length fits in an `int` |
| Rle.NumberNeverMissing | main.cpp:1036-1038 | the empty-number check never fires: a token's number always starts with a digit |
| Rle.DecodeRejectsMalformed | main.cpp:1015-1033 | a token starting with neither `-` nor a digit, a `-` without a digit, and a number without `#` are rejected, each with its own error |
| Rle.DecodeRejectsBadCounts | main.cpp:1049-1062 | a zero count, a literal longer than the rest, and a run without its byte are rejected |
| Rle.DecodeRejectsOverflow | main.cpp:1040-1047 | the count 2147483648 is out of range for `std::stoi` |
| Fano.Find | main.cpp:1165 | `codes.find(c)` finds a code exactly when the table has an entry for `c` |
| Fano.EncodeFano | main.cpp:1158-1173 | the loop returns the symbols' codes in order; a symbol without a code adds nothing |
| Fano.NoCodesEncodeEmpty | main.cpp:1160 | with an empty text or an empty table the early return gives the same empty result |
| Fano.BuildReversed | main.cpp:1178-1184 | the loop builds `Reversed(codes)` |
| Fano.ReversedKeys | main.cpp:1178-1184 | the reversed table's keys are exactly the non-empty codes |
| Fano.ReversedValue | main.cpp:1178-1184 | with prefix-free codes, every non-empty code maps back to its own symbol |
| Fano.DecodeFano | main.cpp:1175-1201 | the loop returns the text of the greedy reading, and also the bits left in the buffer |
| Fano.NoCodesDecodeEmpty | main.cpp:1176 | with an empty table nothing is decoded, as the early return gives |
| Fano.RunAppend | main.cpp:1189-1196 | reading `a + b` is reading `a`, then reading `b` from the buffer `a` left |
| Fano.NoShorterCode | main.cpp:1189-1196 | with prefix-free codes, no proper prefix of a code matches while that code is read |
| Fano.RunCode | main.cpp:1189-1196 | reading one code writes its symbol and empties the buffer |
| Fano.RoundTripStep | main.cpp:1158-1201 | one more symbol with a code keeps the round trip |
| Fano.RoundTrip | main.cpp:1158-1201 | `decodeFano(encodeFano(text, codes), codes) == text`, with nothing left over, for every prefix-free table that gives each symbol of the text a non-empty code |
| RemoveAsWritten.AsWrittenRemoveRun | main.cpp:628-664 | `remove("b")` as written on the sample arena (the sentinel and four nodes) returns true and leaves a given arena rooted at node 3 |
| RemoveAsWritten.AfterRemoveHolds | main.cpp:646-647 | that arena holds a tree whose contents are the sample's minus "b", but whose black heights differ |
| RemoveAsWritten.AsWrittenRemoveBreaksBlackHeight | main.cpp:646-647 | `remove` as written turns that red-black tree into one that is not balanced |

## Left out

- Console and file I/O: `readFileToString`, every `print`, `visualize` and
  menu function, and the messages of `findWord`, `clear` and `loadFromFile`.
  `LoadText` takes the file content as a parameter.
- `loadFromFile`'s `try`/`catch`: the file read that can throw is outside
  the model, so the error path is not modelled.
- Memory management: `destroyRecursive`, destructors and `delete` are left
  out. `clear` just resets the root. Arena slots of removed nodes are not
  reused.
- `RedBlack.RBTree.Insert`: for an existing key the source allocates a node
  and deletes it again. The model allocates nothing in that case.
- `DictionaryWithHashTable.HashTable.Add`: the load check on doubles is the
  integer test `4·(num_elements+1) >= 3·table_size`. That test matches
  `(num_elements+1)/table_size >= 0.75` for every table size below 2^52.
- `DictionaryWithHashTable.HashTable.Rehash`: it reinserts with the part of
  `add` after the load check. A nested rehash there never fires, because
  the load factor stays below 0.75 (an invariant proved in `Valid`).
- `DictionaryWithHashTable.HashTable.HashFunction`: `size_t` wrap-around is
  not modelled. Every intermediate value is below `256·table_size`.
- The `int` counts have no 32-bit overflow in the model.
- `DictionaryWithHashTable.HashTable.Valid`: it does not state
  `|Map()| == num_elements`. It states that `num_elements` counts the
  nodes, and `DistinctKeys` says that no key appears twice.
- `Rle.RoundTrip`: it is proved for inputs of at most `INT_MAX` bytes.
  Longer runs give counts that `std::stoi` rejects with `out_of_range`;
  the decoder model returns that error too (`DecodeRejectsOverflow`).
- `Rle.AdvancedRleEncode`: the method keeps the test `literal_length > 0`,
  which is always true because a literal stretch starts at a short run.
  Only the specification function `EncodeToken` writes the literal token
  unconditionally; an assertion in the method shows that the two agree.
- `std::isspace`, `std::ispunct` and `std::isdigit` use the "C" locale.
- `Text.Lower`: a 0xD0 followed by an ASCII capital keeps both bytes
  unchanged, as the source does, because the pair is consumed together.
- `Fano` code construction: `buildFanoCodes` and `generateFanoCodes` split
  by floating-point weights, so the code table is a parameter. Its entries
  are taken in the map's key order.
- `Fano.DecodeFano`: the leftover buffer, which the source prints as a
  warning, is returned only for a non-empty table.
- `RemoveAsWritten.RemoveArena`: the loops of the as-written model get fuel
  (the arena size). This is enough for the four-key tree the lemma evaluates; the verified
  `RedBlack.RBTree.Remove` has no fuel.
- `generateRandomText` and `champernownePDF` (randomness, floating point)
  and the compression-ratio printing are left out.
- The loop bodies of `insertFixup` and `deleteFixup`, `add`'s increment
  through the returned pointer, and the rotation and splice writes are
  separate helper methods (`InsertFixupRound`, `DeleteFixupRound`,
  `IncrementSlot`, `RotateWrites`, `SpliceWrites`). Each one is the body of
  the source's loop or statement block at the cited lines.

## Findings

| source | as written | input that shows it | evidently intended | confidence | as-written member | corrected member |
|---|---|---|---|---|---|---|
| main.cpp:646-647 | when the successor `y` is `z`'s right child, `x->parent = y` is done only if `x != NIL`; `deleteFixup(x)` then reads the sentinel's stale parent | the tree "b" (black) with black children "a" and "c" and a red "aa" right of "a" (the shape `insert` gives for "b", "a", "c", "aa"), then `remove("b")`: the successor "c" is black with a `NIL` right child, so `deleteFixup` starts at the sentinel, whose parent is still the sentinel, and changes nothing; "c" ends as the black root with the black "a" on its left and nothing on its right | set `x->parent = y` unconditionally (Cormen et al., RB-DELETE), so that `deleteFixup` starts from `y` | not executed | RemoveAsWritten.AsWrittenRemoveBreaksBlackHeight | RedBlack.RBTree.Remove |
