# Verified models of the game server's containers, codecs and log queue

The server's own code is mostly glue around sockets and a database. What it leans on are two intrusive trees, two
streaming hashes, base64, WebSocket framing, a record format and a log queue. These are modelled here in Dafny, in the
form the C and C++ code has, and proved against what their headers, the standards they implement, or their callers
expect of them.

`dafny verify dfyconfig.toml` checks everything.

## What is modelled

**Red-black tree** (`RedBlack*.dfy`, from `tree.h`). Elements are heap objects with `left`, `right`, `parent` and
`color`; `Head` has the root pointer. A ghost tree says what every link of every node is (`Linked`); a position in the
loop of an operation is a one-hole context, so each write is shown to turn `Plug(c, t)` into `Plug(c, t')`.
`RedBlackShape` has trees, contexts and the header's conditions; `RedBlackEdits` which fields an edit may change;
`RedBlackFixups` what each rotation and recolouring does to the colors; `RedBlackSearch` key order, and what removing a
node leaves; `RedBlackHeight` the height bound and what it means for the length of paths; `RedBlackTree` the code.
`Valid` is every condition the header lists; the contracts of the operations add its O(lg n).

**Splay tree** (`Splay*.dfy`, from `tree.h`). The same style. In the middle of a top-down splay the nodes are split
into a left spine, a middle tree and a right spine, with the local dummy node holding the spines crosswise (`Apart`).
`SplayCost` says which tree a splay ends with and in how many rounds, and pays for the rounds with a potential, the
product of all subtree sizes: the header's Balance Theorem, without logarithms. `SplayProducts` has the arithmetic.

**Runs of both trees** (`Dictionary.dfy`, `RedBlackRuns.dfy`, `SplayRuns.dfy`). Any sequence of insert, remove and find
answers what an unordered association list answers, within the header's bounds: on the height and on every single
operation of the red-black tree, on the total cost of the splay tree.

**SHA-1** (`Sha1Standard.dfy`, `Sha1Example.dfy`, `Sha1.dfy`). The first file is FIPS PUB 180-1, sections 3 to 7, the
second its worked example, Appendix A, and the third the class with its two-word bit counter, block buffer and flags,
the compression loops included.

**MD5** (`Md5.dfy`). `md5_init`, `md5_append` and `md5_finish` against RFC 1321, sections 3.1 to 3.5, for any block
function in the place of `md5_process`. `Blocks.dfy` has the cutting of messages into blocks that both digests share.

**Base64** (`Base64.dfy`, `Base64Masks.dfy`). Printer and parser against section 4 of RFC 4648. They are written with
division and remainder; the second file proves that the source's masks and shifts compute the same.

**WebSocket frames** (`WebSocketFrame.dfy`). `makeFrame` and `getFrame` against sections 5.2 and 5.3 of RFC 6455, with
the exact headers on which the reader and the standard differ, and frames that arrive in parts.

**Records** (`DBRecord.dfy`). `DBField` and `DBRecord` against a description of the byte format and its parser.

**Log queue** (`LogWorker.dfy`). Producers, the worker thread and the exit flag as a machine of atomic steps, with
results over every run, that is over every interleaving.

`Ordering.dfy`, `Sequences.dfy`, `Powers.dfy`, `Bytes.dfy`, `BitPatterns.dfy` and `Wrappers.dfy` hold what the others
share: comparison functions and sorted sequences, regrouping of concatenations, powers and products, little-endian
numbers and exclusive or, the step from bit patterns to numbers, and optional values.

## What the code does that its surroundings do not say

Where the code and its description disagree the model follows the code.

- `SPLAY_REMOVE` returns its argument, which need not be the node it took out of the tree.
- A round of `SPLAY_MINMAX` with a zero argument changes nothing and does not end the loop (`EdgeRound`), so the loop
  goes on forever; the macros never pass one.
- SHA-1 asked for a digest and then given a non-empty piece yields no digest any more until `Reset`.
- A `DBField` that reads a null field keeps the data it held before; only a fresh one ends up empty.
- `DBField::ResetData` loses the data when it is handed the field itself, and `DBRecord::ResetData(DBRecord*)` does
  just that to each of its own fields: the record it is given is never read.
- `makeFrame` writes lengths from 126 on high byte first as the standard demands, `getFrame` reads two bytes low byte
  first. Exactly the lengths up to 125 and those up to 65535 with two equal bytes come back. Of the headers with eight
  length bytes it understands only a length of zero (`ReaderAgrees`).
- `getFrame` calls an unmasked frame with an empty payload incomplete, because it wants three bytes.
- A masked frame whose length the reader understands is accepted as soon as all but four of its bytes have arrived,
  because the check leaves out the key (`MaskedWaits`): with one to four bytes missing, the key or the payload is read
  from whatever stands behind them, and the result can be a wrong payload (`AcceptedEarly`). Where the reader mistakes
  the length, frames are accepted early or not at all, masked or not. The frames that are waited for are exactly those
  that are not masked, not empty, and of a length the reader understands (`WaitedForExactly`).
- `makeFrame`'s ping and pong frames have a reserved bit set and no FIN bit.
- The worker of the log queue leaves behind whatever is pushed between its last look at the list and its look at the
  exit flag (`LateMessageLost`). An `Exit` that comes before the worker's first step is erased by it, and without
  another one the worker never stops (`EarlyExitErased`, `NeverStops`).

## Model

| member | source | states |
|---|---|---|
| RedBlackHeight.HeightBound | Sources/three-party/libevent/tree.h:46-56 | every red-black tree of n nodes has height at most 2 lg (n + 1), as 2^height <= (n + 1)^2 |
| RedBlackHeight.TwoPaths | Sources/three-party/libevent/tree.h:55 | in a red-black tree a way down and one up with a step more are at most 1 + 4 lg (n + 1) long, as 2^steps <= 2 (n + 1)^4 |
| RedBlackEdits.RotateLeftWrites | Sources/three-party/libevent/tree.h:335-353 | rotating left anywhere in a tree keeps its order and nodes, and only the links of the two nodes, the moved subtree's root and the old parent differ |
| RedBlackEdits.RotateRightWrites | Sources/three-party/libevent/tree.h:355-373 | the mirror image of RotateLeftWrites: same order and nodes, and the only fields that differ |
| RedBlackTree.Head.RotateLeft | Sources/three-party/libevent/tree.h:335-353 | the heap assignments of the macro turn the linked tree into the rotated one, same elements in the same order |
| RedBlackTree.Head.RotateRight | Sources/three-party/libevent/tree.h:355-373 | the heap assignments of the mirror macro turn the linked tree into the one rotated right, same elements in the same order |
| RedBlackFixups.RecolorLeftRestores | Sources/three-party/libevent/tree.h:399-404 | a red uncle: recolouring moves the only possible fault, a red node under a red parent, two levels up and keeps equal black counts |
| RedBlackFixups.RotateInsertLeft | Sources/three-party/libevent/tree.h:405-412 | a black uncle: after the one or two rotations equal black counts are kept and the red node stands under a black parent, so no fault is left |
| RedBlackFixups.RecolorRightRestores | Sources/three-party/libevent/tree.h:415-420 | the mirror image of RecolorLeftRestores |
| RedBlackFixups.RotateInsertRight | Sources/three-party/libevent/tree.h:421-428 | the mirror image of RotateInsertLeft |
| RedBlackTree.Head.InsertColor | Sources/three-party/libevent/tree.h:390-432 | from a tree whose only fault is that one node and its parent are both red, the loop ends with a red-black tree, the same elements in the same order, after no more rounds than the node is deep |
| RedBlackFixups.SiblingExists | Sources/three-party/libevent/tree.h:434-508 | beside a subtree one black node short, empty or not, there is a sibling: it is never null where the loop dereferences it |
| RedBlackFixups.RedSiblingLeftRestores | Sources/three-party/libevent/tree.h:442-446 | a red sibling: the rotation leaves the same shortage one level deeper, under a red parent and beside a black sibling |
| RedBlackFixups.ReddenSibling | Sources/three-party/libevent/tree.h:447-453 | black nephews: reddening the sibling moves the shortage to the parent's subtree |
| RedBlackFixups.StraightLeftRestores | Sources/three-party/libevent/tree.h:455-463 | a red inner nephew only: the inner rotation makes the outer nephew red and keeps the shortage where it was |
| RedBlackFixups.BorrowedLeftRestores | Sources/three-party/libevent/tree.h:464-470 | a red outer nephew: the last rotation leaves no shortage, the tree is red-black |
| RedBlackTree.Head.MeetSiblingLeft | Sources/three-party/libevent/tree.h:441-446 | the sibling the loop works on is a black node, the hole at most one level deeper and then under a red parent |
| RedBlackTree.Head.RemoveColorLeft | Sources/three-party/libevent/tree.h:440-471 | one round repairs the tree, or moves the shortage up, or leaves it at the same depth on a red node: the loop's measure |
| RedBlackTree.Head.RemoveColorRight | Sources/three-party/libevent/tree.h:472-504 | the mirror image of RemoveColorLeft, for a shortage in the right subtree |
| RedBlackTree.Head.RemoveColor | Sources/three-party/libevent/tree.h:434-508 | from any tree one black node short in one subtree the loop terminates with a red-black tree, the same elements in the same order, after at most one round more than that subtree is deep |
| RedBlackSearch.UnlinkColors | Sources/three-party/libevent/tree.h:559-573 | taking out a node with at most one child leaves a red-black tree if it was red, and a tree short at that place if it was black |
| RedBlackSearch.FarColors | Sources/three-party/libevent/tree.h:519-557 | the same for the successor that is spliced into the place of a node with two children, whose color it takes |
| RedBlackSearch.RestFar | Sources/three-party/libevent/tree.h:519-557 | the order with the successor in the removed node's place is the old order without that node |
| RedBlackSearch.RestSorted | Sources/three-party/libevent/tree.h:510-575 | what removal leaves is the old sequence without the one index of the removed node, and is still sorted |
| RedBlackTree.Head.Unlink | Sources/three-party/libevent/tree.h:524-536 | the child takes the node's place in every link, the node's old parent and color are handed on |
| RedBlackTree.Head.Replace | Sources/three-party/libevent/tree.h:539-550 | copying the fields and redirecting three links puts the other node exactly in the place of the old one |
| RedBlackTree.Head.Splice | Sources/three-party/libevent/tree.h:520-557 | the successor leaves its place and stands in the removed node's, also when its parent is the removed node |
| RedBlackTree.Head.Remove | Sources/three-party/libevent/tree.h:510-575 | any element of a valid tree: the tree stays valid, and the sequence is the old one without exactly that node, at its index; at most 1 + 4 lg (n + 1) steps down and rounds of recolouring |
| RedBlackTree.Head.Insert | Sources/three-party/libevent/tree.h:578-606 | a new key: null, a valid tree and the node put at its index; a present key: the node that has it, and no field of any node or of the argument changes; at most 1 + 4 lg (n + 1) steps down and rounds of recolouring |
| RedBlackTree.Head.Descend | Sources/three-party/libevent/tree.h:609-624 | the descent ends at the node with the key, or at the empty place where it belongs, after as many comparisons as the search path has keys, at most the height |
| RedBlackTree.Head.Find | Sources/three-party/libevent/tree.h:609-624 | a node is returned exactly if its key is present, after as many comparisons as the search path has keys, at most 2 lg (n + 1) |
| RedBlackTree.Head.Next | Sources/three-party/libevent/tree.h:626-645 | the next element of the sequence, by descending or by climbing parent links; null after the last; at most 2 lg (n + 1) steps |
| RedBlackTree.Head.Climb | Sources/three-party/libevent/tree.h:634-643 | climbing right links and then one left link reaches the first element after the subtree, or null |
| RedBlackTree.Head.MinMax | Sources/three-party/libevent/tree.h:647-660 | the first or the last element, null in an empty tree; at most 2 lg (n + 1) steps |
| RedBlackTree.Head.Foreach | Sources/three-party/libevent/tree.h:672-675 | the iteration visits exactly the elements, each once, in order, and stops |
| RedBlackTree.Head.constructor | Sources/three-party/libevent/tree.h:299-301 | the empty tree is valid |
| RedBlackRuns.OneForKey | Sources/three-party/libevent/tree.h:578-606 | a valid tree has at most one element for a key |
| RedBlackRuns.Perform | Sources/three-party/libevent/tree.h:510-624 | one operation answers as the dictionary does and leaves its elements, in at most 1 + 6 lg (n + 1) steps |
| RedBlackRuns.RunAll | Sources/three-party/libevent/tree.h:46-56 | every run of insertions, removals and searches from the empty tree answers as the dictionary does, and ends in a valid tree with the dictionary's elements and height at most 2 lg (n + 1); every single operation takes at most 1 + 6 lg (n + 1) steps, n the insertions before it |
| SplayShape.LinkLeftAt | Sources/three-party/libevent/tree.h:93-97 | linking changes one field, the left link of the right spine's open end, if that is a node of the tree |
| SplayShape.LinkRightAt | Sources/three-party/libevent/tree.h:99-103 | the same for the right link of the left spine's open end |
| SplayShape.AssembledContents | Sources/three-party/libevent/tree.h:105-110 | putting the three parts together keeps the nodes and the order |
| SplayShape.AssembledAt | Sources/three-party/libevent/tree.h:105-110 | assembling changes the open ends of the two spines and the root, and no other field |
| SplayTree.Head.LinkLeft | Sources/three-party/libevent/tree.h:93-97 | the assignments move the middle's root with its right subtree to the right spine |
| SplayTree.Head.RotateRight | Sources/three-party/libevent/tree.h:81-85 | the assignments rotate the middle tree, the order of all three parts stays |
| SplayTree.Head.Assemble | Sources/three-party/libevent/tree.h:105-110 | the four crosswise assignments leave one linked tree |
| SplaySearch.LinkLeftBetween | Sources/three-party/libevent/tree.h:202-235 | linking keeps everything on the left spine below the key and everything on the right spine above it |
| SplaySearch.AssembledAround | Sources/three-party/libevent/tree.h:202-235 | whichever way the loop ends, the root separates what is below the key from what is above it |
| SplaySearch.AroundRoot | Sources/three-party/libevent/tree.h:121-130 | then the key is in the tree exactly if it is at the root |
| SplayTree.Head.SplayLeft | Sources/three-party/libevent/tree.h:212-221 | one round towards the left keeps the order and shrinks the middle, or finds the place |
| SplayTree.Head.SplayRight | Sources/three-party/libevent/tree.h:222-232 | one round towards the right keeps the order and shrinks the middle, or finds the place |
| SplayTree.Head.Splay | Sources/three-party/libevent/tree.h:202-235 | the elements and their order stay, the root is the key's element or next to where the key belongs, and tree and number of rounds are those of SplayCost.Splayed |
| SplayCost.RoundLeft | Sources/three-party/libevent/tree.h:212-221 | each way through a round towards the left is a round less to the same final tree |
| SplayCost.Amortized | Sources/three-party/libevent/tree.h:40-42 | 2^rounds times the weight of the two sides of the splayed tree is at most twice the weight of the tree before times the square of its size, for every tree and key |
| SplayCost.SplayPays | Sources/three-party/libevent/tree.h:40-42 | 2^rounds times the new weight is at most 2 n^3 times the old: the amortized cost of a splay is 1 + 3 lg n |
| SplayCost.InsertCosts | Sources/three-party/libevent/tree.h:157-179 | for an insertion the factor is at most 4 (n + 1)^6 |
| SplayCost.JoinPays | Sources/three-party/libevent/tree.h:191-195 | the second splay of a removal, of the left part, is paid by the weight of the whole tree |
| SplayCost.RemoveCosts | Sources/three-party/libevent/tree.h:181-200 | for a removal with its two splays the factor is at most 4 (n + 1)^6 |
| SplayTree.Head.Find | Sources/three-party/libevent/tree.h:121-130 | an element is returned exactly if its key is present, and is then the root; the tree is the splayed one and the rounds are those of that splay, whether or not the key is present; the order stays; the rounds are paid by the potential |
| SplaySearch.GraftedOrder | Sources/three-party/libevent/tree.h:166-175 | hanging the splayed root under the new element inserts it at its place in the order |
| SplayTree.Head.Insert | Sources/three-party/libevent/tree.h:157-179 | a new key: null and the node put at its index; a present key: the node that has it, same elements, and an argument outside the tree keeps its fields; either way that node is the root of the splayed tree, the new one with the splayed tree's halves; the rounds are those of the splay and paid by the potential |
| SplaySearch.JoinSound | Sources/three-party/libevent/tree.h:191-195 | splaying the left part by a larger key leaves its root without a right child, so nothing is overwritten |
| SplayTree.Head.Join | Sources/three-party/libevent/tree.h:188-196 | the left part followed by the right part, without the root; the tree is the left part splayed again with the right part under its root |
| SplayTree.Head.Remove | Sources/three-party/libevent/tree.h:181-200 | exactly the element with the key leaves the sequence; null and the same elements when there is none; the argument is what is returned; the tree and the rounds are those of the splay and, if an element leaves, of the second one; they are paid by the potential |
| SplayTree.Head.SplayMinMax | Sources/three-party/libevent/tree.h:240-271 | for an argument that is not zero the first or last element becomes the root, the order stays |
| SplayTree.Head.MinMax | Sources/three-party/libevent/tree.h:146-151 | the first or last element, now the root; null in an empty tree |
| SplayTree.Head.Next | Sources/three-party/libevent/tree.h:132-144 | the next element of the sequence, null after the last; the tree is the one splayed at the given element, which is its root |
| SplayTree.Head.EdgeRound | Sources/three-party/libevent/tree.h:247-268 | a round with a zero argument changes nothing and does not end the loop; any other round ends it at the edge or leaves a smaller middle |
| SplayTree.Head.Foreach | Sources/three-party/libevent/tree.h:285-288 | the iteration visits exactly the elements, each once, in order, and stops, though every step re-roots the tree |
| SplayRuns.Perform | Sources/three-party/libevent/tree.h:121-200 | one operation answers as the dictionary does, leaves its elements, and its tree and rounds are those of the splays the header prescribes; the rounds are paid by the potential |
| SplayRuns.RunAll | Sources/three-party/libevent/tree.h:36-42 | every run of insertions, removals and searches from the empty tree answers as the dictionary does and ends in a valid tree with its elements, the one that splaying at every operation leads to; m operations with n insertions take r rounds in all, counted along that run, with 2^r <= (4 (n + 1)^6)^m, that is r <= m (2 + 6 lg (n + 1)) |
| Sha1.Rotates | Sources/three-party/WebSocket/sha1/sha1.cpp:587-590 | shifting both ways and joining is rotation for every count from 1 to 31 |
| Sha1Standard.PadZerosLeast | Sources/three-party/WebSocket/sha1/sha1.cpp:521-566 | the padding is the shortest that leaves eight bytes of a block |
| Sha1Standard.PadBlocks | Sources/three-party/WebSocket/sha1/sha1.cpp:521-566 | the padded message ends in one block if the index is at most 55 and in two otherwise |
| Sha1Standard.PadAt | Sources/three-party/WebSocket/sha1/sha1.cpp:521-566 | byte by byte: the message, 0x80, zeros, and the length in bits as eight bytes, high byte first |
| Sha1Example.CompressedAbc | Sources/three-party/WebSocket/sha1/sha1.cpp:411-498 | the worked example of FIPS PUB 180-1, Appendix A, as numbers: what the eighty rounds make of the initial hash and the block of "abc" |
| Sha1Example.DigestOfAbc | Sources/three-party/WebSocket/sha1/sha1.cpp:411-566 | the digest of "abc" is A9993E36 4706816A BA3E2571 7850C26C 9CD0D89D |
| Sha1.LengthBytes | Sources/three-party/WebSocket/sha1/sha1.cpp:556-563 | the eight stored bytes of the two counter words are the 64-bit length, high byte first |
| Sha1.SHA1.ProcessMessageBlock | Sources/three-party/WebSocket/sha1/sha1.cpp:411-498 | the loops over W and the five registers compute the standard's compression of the block, and empty the buffer |
| Sha1.SHA1.Expand | Sources/three-party/WebSocket/sha1/sha1.cpp:435-438 | the words 16 to 79 of the schedule |
| Sha1.SHA1.Rotate | Sources/three-party/WebSocket/sha1/sha1.cpp:440-495 | the four loops are the eighty rounds, added to the old hash |
| Sha1.SHA1.Count | Sources/three-party/WebSocket/sha1/sha1.cpp:193-203 | the two words carry, and the flag is raised exactly at 2^64 bits |
| Sha1.TailGrows | Sources/three-party/WebSocket/sha1/sha1.cpp:191-209 | a byte more lengthens the partial block or completes it |
| Sha1.SHA1.Input | Sources/three-party/WebSocket/sha1/sha1.cpp:175-212 | the piece joins the message; after a digest or an overflow a non-empty piece spoils it |
| Sha1.SHA1.PadMessage | Sources/three-party/WebSocket/sha1/sha1.cpp:521-566 | the hash becomes the standard's digest of the message |
| Sha1.SHA1.Result | Sources/three-party/WebSocket/sha1/sha1.cpp:134-155 | the digest of the message, the same at every call; false exactly when spoiled |
| Sha1.SHA1.Reset | Sources/three-party/WebSocket/sha1/sha1.cpp:100-114 | an empty message with the standard's initial hash |
| Sha1Standard.FoldAppend | Sources/three-party/WebSocket/sha1/sha1.cpp:175-212 | hashing block by block is hashing the concatenation |
| Sha1.DigestOfPieces | Sources/three-party/WebSocket/sha1/sha1.cpp:134-212 | for every split of a message over calls of Input the result is the FIPS PUB 180-1 digest of the whole, and there is one exactly below 2^64 bits |
| Md5.PaddingFits | Sources/three-party/WebSocket/md5/md5.c:360-381 | message and padding are whole blocks, with 9 to 72 bytes of padding |
| Md5.CountsUpdate | Sources/three-party/WebSocket/md5/md5.c:334-337 | the two words with their truncations and carry are 8 times the bytes, modulo 2^64 |
| Md5.OffsetOf | Sources/three-party/WebSocket/md5/md5.c:327 | the place in the buffer can be read off the wrapped counter |
| Md5.PaddingWritten | Sources/three-party/WebSocket/md5/md5.c:363-378 | the pad bytes of the computed length followed by the two saved counter words are the standard's padding |
| Md5.PaddingAt | Sources/three-party/WebSocket/md5/md5.c:363-378 | byte by byte: 0x80, zeros, and the length in bits modulo 2^64 as eight bytes, low byte first |
| Md5.OutputAt | Sources/three-party/WebSocket/md5/md5.c:379-380 | byte by byte: the four registers in order, each low byte first |
| Md5.InitialBytes | Sources/three-party/WebSocket/md5/md5.c:315-319 | the initial registers are the bytes 01 23 45 67 89 ab cd ef fe dc ba 98 76 54 32 10 of RFC 1321, section 3.3 |
| Md5.DigestOfAbc | Sources/three-party/WebSocket/md5/md5.c:312-381 | the digest of "abc" is the output of one call of the block function on the standard's registers and the padded block, both as numbers |
| Md5.State.AddLength | Sources/three-party/WebSocket/md5/md5.c:334-337 | the statements that update the counter do so |
| Md5.State.WholeBlocks | Sources/three-party/WebSocket/md5/md5.c:352-353 | the loop folds the whole blocks of the data and stops with less than one left |
| Md5.State.PartialBlock | Sources/three-party/WebSocket/md5/md5.c:340-349 | the data completes the buffer and it is processed, or all of the data goes into it |
| Md5.State.Append | Sources/three-party/WebSocket/md5/md5.c:322-358 | the bytes join the message |
| Md5.State.Finish | Sources/three-party/WebSocket/md5/md5.c:360-381 | the RFC 1321 digest of the message |
| Md5.State.constructor | Sources/three-party/WebSocket/md5/md5.c:312-320 | an empty message with the standard's initial registers |
| Md5.FoldAppend | Sources/three-party/WebSocket/md5/md5.c:352-353 | processing block by block is processing the concatenation |
| Md5.DigestOfPieces | Sources/three-party/WebSocket/md5/md5.c:312-381 | for every split of a message over calls of md5_append the result is the RFC 1321 digest of the whole |
| Base64.Table | Sources/three-party/WebSocket/base64/base64.cpp:31-34 | the table is the alphabet of RFC 4648, table 1 |
| Base64.Find | Sources/three-party/WebSocket/base64/base64.cpp:96 | the search yields the character's value, and 255 outside the alphabet |
| Base64.SextetsMasks | Sources/three-party/WebSocket/base64/base64.cpp:51-54 | division and remainder cut 24 bits into the standard's four groups of six |
| Base64.MergesAreOctets | Sources/three-party/WebSocket/base64/base64.cpp:98-100 | division and remainder put four groups of six bits together to three bytes |
| Base64Masks.MasksCut | Sources/three-party/WebSocket/base64/base64.cpp:51-54 | for all bytes the masks and shifts of the printer, as 8-bit words, are the standard's four groups of six |
| Base64Masks.MasksMerge | Sources/three-party/WebSocket/base64/base64.cpp:98-100 | for all bytes, the filler's 255 included, the masks and shifts of the parser, as 8-bit words, are the division and remainder of the model |
| Base64.OctetsOfSextets | Sources/three-party/WebSocket/base64/base64.cpp:51-100 | cutting and putting together are inverse, and zero bytes leave zero bits |
| Base64.SextetsOfOctets | Sources/three-party/WebSocket/base64/base64.cpp:51-100 | putting together and cutting are inverse, and zero leftover bits leave zero bytes |
| Base64.UnpackLast | Sources/three-party/WebSocket/base64/base64.cpp:108-120 | the bytes written for a last partial group do not depend on the 255 its filler is given |
| Base64.Base64Encode | Sources/three-party/WebSocket/base64/base64.cpp:41-82 | the loop and its tail print the encoding of section 4 |
| Base64.Base64Decode | Sources/three-party/WebSocket/base64/base64.cpp:84-123 | the loop and its tail decode everything up to the first character outside the alphabet |
| Base64.DecodeEncode | Sources/three-party/WebSocket/base64/base64.cpp:41-123 | decoding the encoding gives back every byte sequence |
| Base64.EncodeCanonical | Sources/three-party/WebSocket/base64/base64.cpp:41-82 | encodings are canonical and 4 ceil(n / 3) characters long |
| Base64.EncodeDecode | Sources/three-party/WebSocket/base64/base64.cpp:41-123 | encoding the decoding gives back a string exactly if it is canonical |
| Base64.ShortVectors | Sources/three-party/WebSocket/base64/base64.cpp:41-82 | the encodings of "", "f", "fo" and "foo" that RFC 4648, section 10, gives |
| Base64.LongVectors | Sources/three-party/WebSocket/base64/base64.cpp:41-82 | its encodings of "foob", "fooba" and "foobar" |
| Base64.Alphabet | Sources/three-party/WebSocket/base64/base64.cpp:31-82 | the 48 bytes that are the groups 0 to 63 in order are encoded as the 64 characters of table 1 in order |
| WebSocketFrame.MakeFrame | Sources/three-party/WebSocket/WebSocket.cpp:157-189 | the buffer starts with the frame, whose length is returned, and is otherwise untouched |
| WebSocketFrame.HeaderConforms | Sources/three-party/WebSocket/WebSocket.cpp:159-186 | for every int length section 5.2 of RFC 6455 reads back that length, in the shortest form, unmasked, and the first byte's bits |
| WebSocketFrame.ControlFramesMalformed | Sources/three-party/WebSocket/WebSocket.h:27-34 | reserved bits zero and control frames final, as the standard demands, holds of exactly the types other than ping and pong |
| WebSocketFrame.GetFrame | Sources/three-party/WebSocket/WebSocket.cpp:191-254 | incomplete and nothing touched, or the type, the payload in the clear with a NUL behind it, its length, and the input unmasked in place |
| WebSocketFrame.CompleteExactly | Sources/three-party/WebSocket/WebSocket.cpp:194-223 | by the bytes of the buffer, exactly when a frame is not incomplete |
| WebSocketFrame.KindByOpcode | Sources/three-party/WebSocket/WebSocket.cpp:196-253 | of every accepted frame the type, exactly, by section 5.2's opcode and FIN bit: text for 0 and 1, binary for 2, ping for 9, pong for 10, else an error |
| WebSocketFrame.PayloadByPlace | Sources/three-party/WebSocket/WebSocket.cpp:200-245 | of every accepted frame the payload, byte by byte by its place behind the header and the key |
| WebSocketFrame.UnmaskedAt | Sources/three-party/WebSocket/WebSocket.cpp:225-235 | byte by byte: of the received buffer exactly the payload is replaced by the unmasked one |
| WebSocketFrame.FirstByte | Sources/three-party/WebSocket/WebSocket.h:20-35 | for each of the ten types the FIN bit, the reserved bits and the opcode that section 5.2 reads in makeFrame's frames, and the payload behind the header |
| WebSocketFrame.Hello | Sources/three-party/WebSocket/WebSocket.cpp:157-235 | RFC 6455, section 5.7: "Hello" as an unmasked and as a masked text frame |
| WebSocketFrame.BinaryExamples | Sources/three-party/WebSocket/WebSocket.cpp:157-189 | RFC 6455, section 5.7: the headers of 256 bytes and of 64 KiB of binary data |
| WebSocketFrame.Unmask | Sources/three-party/WebSocket/WebSocket.cpp:231-234 | the in-place loop is the masking of section 5.3, elsewhere nothing changes |
| WebSocketFrame.MaskTwice | Sources/three-party/WebSocket/WebSocket.cpp:231-234 | masking twice with one key is the identity |
| BitPatterns.XorIsExclusiveOr | Sources/three-party/WebSocket/WebSocket.cpp:233 | the exclusive or on numbers is the one on bytes |
| WebSocketFrame.HeaderReadBack | Sources/three-party/WebSocket/WebSocket.cpp:157-223 | what the reader makes of the writer's header: form, type, mask bit, and the length exactly if its two length bytes are equal or it is at most 125 |
| WebSocketFrame.FrameRoundTrip | Sources/three-party/WebSocket/WebSocket.cpp:157-254 | the reader returns what the writer was given exactly for non-empty payloads of such a length, for all six wire types |
| WebSocketFrame.MaskedFrameRoundTrip | Sources/three-party/WebSocket/WebSocket.cpp:157-254 | the same for frames with the mask bit, a key and a masked payload, the empty payload included |
| WebSocketFrame.UnmaskedWaits | Sources/three-party/WebSocket/WebSocket.cpp:194-223 | an unmasked, non-empty frame whose length the reader understands is incomplete exactly until its last byte has arrived, whatever stands behind |
| WebSocketFrame.MaskedWaits | Sources/three-party/WebSocket/WebSocket.cpp:194-228 | a masked frame whose length the reader understands is incomplete exactly until all but four of its bytes have arrived; it is then accepted with the key and payload that stand in their places |
| WebSocketFrame.IncompleteUntilTaken | Sources/three-party/WebSocket/WebSocket.cpp:194-223 | every frame of the writer, masked or not and of any int length, is incomplete exactly until three bytes and the header with the length the reader takes from it have arrived, as long as the bytes it reads are there at all |
| WebSocketFrame.WaitedForExactly | Sources/three-party/WebSocket/WebSocket.cpp:194-228 | of all frames of the writer, masked or not and of any int length, the reader waits for the whole exactly of those that are not masked, not empty and of a length it understands |
| WebSocketFrame.AcceptedEarly | Sources/three-party/WebSocket/WebSocket.cpp:221-235 | for every masked, non-empty frame whose length the reader understands and every one to four missing bytes there are bytes in their place with which a wrong payload is accepted |
| WebSocketFrame.ReaderAgrees | Sources/three-party/WebSocket/WebSocket.cpp:198-219 | for every header the reader and section 5.2 agree on mask bit and size, on a 16-bit length exactly if its bytes are equal, on a 64-bit length exactly if it is zero |
| WebSocketFrame.MaskedHeaderConforms | Sources/three-party/WebSocket/WebSocket.cpp:159-186 | with the mask bit set and a key the standard reads the writer's header as masked, with the payload's length, and unmasking gives the payload |
| WebSocketFrame.Transfer | Sources/three-party/WebSocket/WebSocket.cpp:157-254 | makeFrame followed by getFrame delivers type, payload, NUL and length |
| DBRecords.FieldRoundTrip | Sources/DBCacheServer/DBField.cpp:18-57 | a field's bytes parse to the field, without data if null, and end where they end |
| DBRecords.RecordRoundTrip | Sources/DBCacheServer/DBRecord.cpp:22-43 | a record's bytes parse to its fields, and end where they end |
| DBRecords.RecordsRoundTrip | Sources/DBCacheServer/DBRecord.cpp:22-43 | any number of records written back to back parse in order |
| DBRecords.RestoredExactly | Sources/DBCacheServer/DBField.cpp:18-38 | a record comes back unchanged exactly if its null fields hold no data |
| DBRecords.FieldByBytes | Sources/DBCacheServer/DBField.cpp:18-38 | every byte of a field: the length of the data in four bytes, the type and the index in two, low byte first, the key and the null flag as 1 or 0, and the data unless null |
| DBRecords.RecordByBytes | Sources/DBCacheServer/DBRecord.cpp:22-31 | a record is the number of its fields in four bytes, low byte first, followed by the fields |
| DBRecords.FieldsConcat | Sources/DBCacheServer/DBRecord.cpp:27-30 | fields lie one after another in the order of the list |
| DBRecords.ParsedByBytes | Sources/DBCacheServer/DBField.cpp:40-57 | what is read from any ten bytes and what follows, and exactly when there is something to read: flags are true for every byte but zero, a null field's length is not looked at, a length of 2^31 or more is negative |
| DBRecords.CountByBytes | Sources/DBCacheServer/DBRecord.cpp:33-43 | the number of fields read from any four bytes; a negative one is none and the record ends there |
| DBRecords.DBField.Serialize | Sources/DBCacheServer/DBField.cpp:18-38 | writes the field's bytes at the cursor and nothing else, and advances it over them |
| DBRecords.DBField.UnSerialize | Sources/DBCacheServer/DBField.cpp:40-57 | takes over the parsed field; a null one leaves the old data |
| DBRecords.DBField.SerializeSize | Sources/DBCacheServer/DBField.cpp:59-69 | the number of bytes Serialize writes |
| DBRecords.DBField.Clone | Sources/DBCacheServer/DBField.cpp:90-102 | a new field, without data if null |
| DBRecords.DBField.ResetData | Sources/DBCacheServer/DBField.cpp:104-115 | the other field's content, without data if null; its own data is lost when the other is itself |
| DBRecords.DBField.SetData | Sources/DBCacheServer/DBField.cpp:127-135 | the new data, null exactly if it is empty |
| DBRecords.DBRecord.Serialize | Sources/DBCacheServer/DBRecord.cpp:22-31 | writes the record's bytes at the cursor and nothing else, and advances it over them |
| DBRecords.DBRecord.UnSerialize | Sources/DBCacheServer/DBRecord.cpp:33-43 | appends fresh fields with the parsed contents, and advances the cursor to the end of the record |
| DBRecords.DBRecord.SerializeSize | Sources/DBCacheServer/DBRecord.cpp:45-53 | the number of bytes Serialize writes |
| DBRecords.DBRecord.PushBack | Sources/DBCacheServer/DBRecord.cpp:130-140 | the field comes last, or at the given index |
| DBRecords.DBRecord.ResetData | Sources/DBCacheServer/DBRecord.cpp:112-118 | every field loses its data, whatever the argument |
| DBRecords.Transfer | Sources/DBCacheServer/DBRecord.cpp:22-53 | a record written and read into a fresh one has the same fields, nulls without data, and both cursors stop at SerializeSize |
| DBRecords.SerializeAll | Sources/DBCacheServer/DBRecord.cpp:22-31 | records serialized one after another through one cursor leave exactly their bytes back to back |
| DBRecords.UnSerializeAll | Sources/DBCacheServer/DBRecord.cpp:33-43 | from there fresh records read in order hold the same fields, nulls without data |
| DBRecords.TransferAll | Sources/DBCacheServer/DBRecord.cpp:22-53 | any list of records written through one cursor and read back through another comes back in order, and the cursors stop at the same place |
| LogWorker.InvariantRun | Sources/Utils/UtilsLog.cpp:97-166 | exclusion, conservation, a fed worker, the last test and program order hold in every reachable state |
| LogWorker.NothingLostOrReordered | Sources/Utils/UtilsLog.cpp:97-166 | over every run: written, in hand and queued together are the pushes in order, and each producer's are its calls in order |
| LogWorker.MutualExclusion | Sources/Utils/UtilsLog.cpp:106-109 | no two threads are between lock and unlock |
| LogWorker.WorkerNeverStuck | Sources/Utils/UtilsLog.cpp:102-121 | the worker never takes the front of an empty list, and waits only for a producer that can go on |
| LogWorker.WrittenAtStop | Sources/Utils/UtilsLog.cpp:97-123 | when the worker has stopped, exactly what was pushed before its last test of the list is written, and the rest is in the list |
| LogWorker.StoppedForGood | Sources/Utils/UtilsLog.cpp:115-123 | nothing is written after the worker has stopped |
| LogWorker.LateMessageLost | Sources/Utils/UtilsLog.cpp:97-149 | a run in which a message is logged and its call returns before anybody calls Exit, and which is never written after Exit, however the run goes on |
| LogWorker.NeverStops | Sources/Utils/UtilsLog.cpp:97-123 | with the flag down, or raised only before the worker's first step, the worker does not stop in any run without another Exit, whatever is logged |
| LogWorker.SomebodyCanGoOn | Sources/Utils/UtilsLog.cpp:97-166 | while the worker has not stopped, it or the producer holding the lock can take a step |
| LogWorker.SettlesStopped | Sources/Utils/UtilsLog.cpp:97-166 | after Exit every schedule without new calls is bounded in length and can be stuck only with the worker stopped, which has then written exactly what was pushed before its last test; whatever calls in progress still push, everything pushed before the schedule began is written exactly if the worker was not then past its test of a list that is no longer empty |
| LogWorker.StopsExactlyIf | Sources/Utils/UtilsLog.cpp:97-149 | left without new calls the worker can stop exactly if the flag is up and the worker has taken its first step |

## Left out

- Ordering.TotalOrder: `cmp` is any function on fixed keys whose sign is a total preorder; a comparison that depends on mutable parts of an element is not covered.
- RB_AUGMENT, which is empty by default, and the freeing of nodes.
- SplayTree.Head.SplayMinMax: a zero argument is excluded, on which the loop does not end; EdgeRound says so.
- SplayTree.Head.MinMax: the same, for a tree that is not empty.
- SplayRuns.RunAll: counts rounds of SPLAY's loop, each with at most two comparisons; SPLAY_NEXT and SPLAY_MINMAX are not among the operations whose cost is bounded.
- RedBlackTree.Head.Find: steps are rounds of the loops, each of constant work; running times are not modelled.
- Md5.BlockFunction: md5_process may be any function of the registers and a block; its 64 steps and its alignment and byte-order branches are not modelled.
- Md5.State.Finish: the digest is RFC 1321's relative to that block function.
- Md5.DigestOfPieces: the same.
- Md5.MAX_SIZE: a piece is short enough that `offset + nbytes` does not wrap a 64-bit `size_t`; no object can be longer.
- Base64.SextetsMasks: stated for division and remainder; the masks and shifts are in Base64Masks.MasksCut.
- Base64.MergesAreOctets: stated for division and remainder; the masks and shifts are in Base64Masks.MasksMerge.
- Shifts of the 32-bit MD5 and length words are written as division and remainder, 32-bit counters as integers with the wrap written out; SHA-1's words are bit vectors.
- SHA-1's other overloads of Input and its stream operators, which forward to the one modelled.
- WebSocketFrame.GetFrame: the output buffer must have room and the bytes it reads must be there, as the source does not check either.
- WebSocketFrame.Transfer: only for the payloads that survive; what happens to the others is in FrameRoundTrip.
- The WebSocket handshake and its string helpers.
- DBRecords.ParseField: a truncated buffer, or a negative data length in a field that is not null, has no result; the source would read outside the buffer or throw.
- DBRecords.DBRecord.SerializeSize: the int cursor and the int sizes are unbounded, so totals beyond 2^31 - 1 are not modelled; integers are little-endian and bool is one byte, as on the platforms the project builds for.
- DBField::CompareWith, the SQL texts and the printing of records; the index overloads of ResetData.
- LogWorker.Enabled: the emptiness test, the flag and each list operation are single atomic steps; the data race of the unlocked test inside std::list is not modelled.
- The start of the log worker by the first Log call, message formatting, files and the sleep's duration.
- UtilsQueue, the protocol and table classes, SQL, sockets, configuration, threads and files.
