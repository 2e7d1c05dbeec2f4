# Verified models of mfbt containers and of the script embedding

Dafny models of the data structures and algorithms this repository vendors in `mfbt/`, and of two state
machines in `weexion.cpp`, with proofs of what they promise. `dafny verify dfyconfig.toml` checks the whole
project.

| file | models |
|---|---|
| `SplayTree.dfy` | `mfbt/SplayTree.h`: parent-linked nodes in the heap, splayed by rotations, as a sorted sequence, and what operations cost |
| `BufferList.dfy`, `Pieces.dfy` | `mfbt/BufferList.h`: a byte stream over buffers of unequal size, with allocation that may fail at any point |
| `Sha1.dfy`, `Sha1KnownAnswer.dfy` | `mfbt/SHA1.cpp`: the unrolled, streaming SHA-1, against FIPS 180-4 and its digest of "abc" |
| `JsonWriter.dfy`, `JsonLayout.dfy` | `mfbt/JSONWriter.h`: the pretty-printer, against a reader for RFC 4627 and a check of lines and indentation |
| `Vector.dfy`, `PowersOfTwo.dfy` | `mfbt/Vector.h`, `mfbt/TemplateLib.h`, `mfbt/MathAlgorithms.h`: growth, its cost, and element shifting |
| `LinkedList.dfy` | `mfbt/LinkedList.h`: rings with a sentinel, and the sanity check on links in any state |
| `SegmentedVector.dfy` | `mfbt/SegmentedVector.h`: a sequence in buffers of one size |
| `JobQueue.dfy` | `weexion.cpp`: promise jobs, asynchronous tasks and `DrainJobQueue` |
| `IdleNotification.dfy` | `weexion.cpp`: the counter that asks for garbage collections |
| `RefPtr.dfy` | `mfbt/RefPtr.h`, `RefCounted.h`, `AlreadyAddRefed.h`, `WeakPtr.h`: owners, counts and weak pointers |
| `CheckedInt.dfy` | `mfbt/CheckedInt.h`: overflow checks, against exact arithmetic |
| `BloomFilter.dfy` | `mfbt/BloomFilter.h`: saturating counters |
| `Options.dfy` | values that may be missing, for the others |

Objects whose methods update fields are classes, and loops are loops; a method is proved against a function or
a predicate on values, and lemmas say what follows for whole runs. Pointers into a buffer are an array and an
index. What asks for memory is given the allocator's answer, or all its answers by the number of the request; a
failure is tied to a refused request, or to a condition on numbers.

## Findings

Places where the code does not do what its comments or names say. Each has an exact condition or an exact amount, and a
witness.

- `RangeLength` (`mfbt/BufferList.h:231-247`): the loop continues from the start of the segment it has just left.
  The result is the distance plus how far the two segments are apart in memory, so it is right if and only if both
  iterators are in the same segment (`Iter.BytesUntil`, `RangeLength`, witness `RangeAcross`).
- `Vector::insert` (`mfbt/Vector.h:1219-1243`): the last element is moved out before the first shift takes it. For
  types whose moves empty the source an insertion before the end loses it, and so does a failed one. It is right if
  and only if the position is the end or the move leaves the element as it was (`InsertRightIff`, witness `LastIsLost`).
- `Vector::erase` (`mfbt/Vector.h:1259-1271`): for an empty range before the end every later element is moved to itself,
  which clears those that a move from themselves clears, such as a `RefPtr`. The result is right if and only if there
  is something to erase or these moves change nothing (`EraseRightIff`, witness `AllCleared`).
- `remove` (`mfbt/SplayTree.h:96-153`), against lines 45-46, which promise it in amortised logarithmic time: the walk to
  the node that replaces the root is not followed by a splay. What it visits is exactly the spine beside the root, and
  all the rest is within the bound (`Remove`). After 2k + 1 ascending insertions, k calls of `removeMin` visit at least
  k(k + 1)/2 nodes on these walks (witness `Drain`).
- `findOrInsert` (`mfbt/SplayTree.h:308-326`): what it finds it leaves where it is. A call that inserts is within the
  bound; one that finds visits exactly as many nodes as the element is deep, however often (`FindOrInsert`, witness
  `Stale`).
- `debugAssertIsSane` (`mfbt/LinkedList.h:571-622`): the sentinel's backward link is compared with nothing unless the
  list is empty. What passes is a ring if and only if that link is right (`SaneIsRing`, witness `Overlooked`).
- `StartCollection` (`mfbt/JSONWriter.h:311-326`): names of collections are not escaped, although line 359 promises it
  for all names. A whole document reads back if and only if no name of a collection in it needs escaping (`ReadDocument`,
  `WriteDocument`; for a single name `CollectionNameIff`, witness `QuoteInName`).
- `Extract` (`mfbt/BufferList.h:447-513`): if the first allocation fails, the new list can have a segment before its
  last one that is not full, against lines 62-65 (`Extract`, its clause on `Packed`; witness `Unpacked`).
- `Extract` (`mfbt/BufferList.h:473-476`): what a failed call drops is not freed, although some of it may be the new
  list's own. There is such a buffer if and only if the head had been copied and took more than one segment, or part of
  the tail had been appended (`Extract`, its clauses on `lost`; `Rollback`; witness `BuffersLost`).
- `Borrow` (`mfbt/BufferList.h:398-420`): a failed call returns the segments found so far with a byte count of 0, which
  is right if and only if there are none (`Borrow`, witness `BorrowTooMuch`).
- `MoveFallible` (`mfbt/BufferList.h:422-445`): the buffer of a list without a byte in it is neither moved nor freed, and
  the result claims buffers that a borrowing list does not own. What is to be freed stays the same if and only if there
  was no segment, or the list owned its buffers and had a byte, or neither (`MoveFallible`, witnesses `BufferForgotten`
  and `FreedTwice`).
- `MoveFallible` (`mfbt/BufferList.h:426-436`), against lines 59-63: the capacities are cut down to the sizes. The result
  is aligned if and only if its byte count is a multiple of 8 (`MoveFallible`, witness `OffsetFive`).
- `PopLastN` (`mfbt/SegmentedVector.h:221-269`): it is meant to be so many calls of `PopLast`, and is; but for none, of a
  vector that is not empty, the assertion on line 263 fails. It holds if and only if the number is positive or the
  vector empty (`PopLastN`, witness `PopNothing`).
- Move assignment of `already_AddRefed` (`mfbt/AlreadyAddRefed.h:75-79`): a pointer that is overwritten is not
  released. Counts stay right if and only if there was none, or the target is the source (`AssignInFlight`, witness
  `LeakedInFlight`).
- `ShellFinishAsyncTaskCallback` (`weexion.cpp:906-915`): the count goes down even if the task cannot be appended; it
  is lost then, and only then (`LostByFailure`, witness `LostForGood`).
- `needIdleNotification` (`weexion.cpp:1408-1451`): after a markup within 14 of the maximum, except at exactly 5, the
  flag never goes down (`GoesDownIff`, witness `NeverDown`); the assignment at lines 1422-1424 cannot be reached; and a
  reset is not a fresh start (`ResetCourse`, witness `SecondCourse`).

## Model

| member | source | states |
|---|---|---|
| `SplayTrees.SplayTree.Rotate` | mfbt/SplayTree.h:239-275 | the node rises by one level; parent and child links stay consistent, the in-order sequence and the nodes stay the same |
| `SplayTrees.SplayTree.SplayStep` | mfbt/SplayTree.h:216-236 | one round is one rotation below the root and two elsewhere, lifts the node by as many levels, and does to the shape what `StepUp` says |
| `SplayTrees.SplayTree.Splay` | mfbt/SplayTree.h:214-237 | ends with the node at the root after exactly as many calls of rotate as it was deep; the sorted sequence is kept |
| `SplayTrees.SplayTree.Lookup` | mfbt/SplayTree.h:177-195 | comes to the equal node, exactly if there is one, or to one beside the gap where the value belongs, and everything before the place is smaller and everything after it greater |
| `SplayTrees.SplayTree.Find` | mfbt/SplayTree.h:68-77 | returns the equal element, or null exactly if there is none; the elements stay, the tree stays valid, and the cost is within the bound |
| `SplayTrees.SplayTree.Insert` | mfbt/SplayTree.h:79-92 | the new node joins the sorted sequence at its place, all others keep theirs; it becomes the root, within the bound |
| `SplayTrees.SplayTree.FindOrInsert` | mfbt/SplayTree.h:308-326 | returns the equal element if there is one, at the cost of its depth and with no change, otherwise a new node that has joined the sequence, within the bound |
| `SplayTrees.SplayTree.Remove` | mfbt/SplayTree.h:96-153 | the equal node leaves the sequence, and nothing else; looking up and splaying are within the bound, and the walk to its replacement is as long as the spine beside the root |
| `SplayTrees.SplayTree.RemoveMin` | mfbt/SplayTree.h:155-164 | the first of the sequence leaves it; what is visited, exactly |
| `SplayTrees.SplayTree.CheckCoherency` | mfbt/SplayTree.h:167-170 | passes if and only if the tree is valid, for links in any state that form a finite tree |
| `SplayTrees.SplayTree.CheckFrom` | mfbt/SplayTree.h:277-302 | the recursive check finds out exactly whether a subtree is linked, sorted and above the minimum |
| `SplayTrees.RotateKeepsOrder` | mfbt/SplayTree.h:239-275 | turning a node up, in the tree of values behind the links, leaves the in-order sequence |
| `SplayTrees.StepPays` | mfbt/SplayTree.h:216-236 | a round of two rotations is paid for by the potential it takes away and three times the rank the node gains |
| `SplayTrees.SplayPays` | mfbt/SplayTree.h:204-237 | the access lemma: the rotations are bounded by six times the gain in rank and by twice the loss of potential |
| `SplayTrees.InsertionPays` | mfbt/SplayTree.h:79-92 | a new leaf adds no more than one rank, so an insertion costs no more than in proportion to the logarithm |
| `SplayTrees.Log2Bounds` | mfbt/SplayTree.h:43-47 | the logarithm of the bounds is the binary one |
| `SplayTrees.Run` | mfbt/SplayTree.h:43-47 | any run of m searches and insertions from an empty tree answers rightly and costs at most m(32 log m + 6) visits and rotations |
| `SplayTrees.HalfSpine` | mfbt/SplayTree.h:214-237 | splaying the least element leaves a left spine to its right that is at least half as long as its depth |
| `SplayTrees.Drain` | mfbt/SplayTree.h:108-123 | k calls of removeMin after 2k + 1 insertions walk over at least k(k + 1)/2 nodes |
| `SplayTrees.Stale` | mfbt/SplayTree.h:316-320 | m calls of findOrInsert for the deepest of n elements visit m times n nodes |
| `Logic.F1IsCh` | mfbt/SHA1.cpp:26 | the rewritten F1 is Ch of section 4.1.1 of FIPS 180-4 |
| `Logic.F3IsMaj` | mfbt/SHA1.cpp:28 | the rewritten F3 is Maj of section 4.1.1 |
| `Sha1.RndIsStep` | mfbt/SHA1.cpp:223-230 | each SHA_RND macro is the step of section 6.1.2 of any round of its group, with the registers renamed |
| `Sha1.NextW` | mfbt/SHA1.cpp:31 | LOAD and SHA_MIX put word t of the 80-word schedule into slot t mod 16, and leave the other slots |
| `Sha1.TwentyRounds` | mfbt/SHA1.cpp:240-326 | twenty rounds in place lead from the registers after the first rounds of section 6.1.2 to those after twenty more |
| `Sha1.ShaCompress` | mfbt/SHA1.cpp:210-333 | the state becomes the compression of section 6.1.2 of the state and the block |
| `Sha1.SHA1Sum.Update` | mfbt/SHA1.cpp:83-124 | what was hashed so far grows by the data, however it is cut; the count wraps at 2^64 |
| `Sha1.SHA1Sum.Finish` | mfbt/SHA1.cpp:130-161 | below 2^61 bytes the result is the SHA-1 of all data given to update, by sections 5.1.1 and 6.1.2 |
| `Sha1.HashPieces` | mfbt/SHA1.cpp:83-161 | for every way to cut a message into pieces the digest is that of the whole |
| `KnownAnswer.Abc` | mfbt/SHA1.cpp:210-333 | the digest of "abc" is the published one: all 80 rounds |
| `KnownAnswer.LengthField` | mfbt/SHA1.cpp:148-150 | the length field is the upper word before the lower one |
| `KnownAnswer.LoadStored` | mfbt/SHA1.cpp:232 | a word is loaded from the bytes it is written as |
| `JsonPrinting.QuotedEscape` | mfbt/JSONWriter.h:196-216 | escaped text reads back, by section 2.5 of RFC 4627, to the text, and up to its closing quote |
| `JsonPrinting.EscapePlain` | mfbt/JSONWriter.h:165-186 | no character is added exactly if there is none to escape, and then the text stays as it is |
| `JsonPrinting.EscapesAre` | mfbt/JSONWriter.h:130-136 | the escapes of the characters that have one of their own, and of some that do not |
| `JsonPrinting.ReadsBackIff` | mfbt/JSONWriter.h:258-339 | the same for a value at any depth and in any style; what follows it is left |
| `JsonPrinting.ReadDocument` | mfbt/JSONWriter.h:258-339 | whatever the names, printing and then reading a whole document gives the tree back if and only if no name of a collection needs escaping |
| `JsonPrinting.CollectionLines` | mfbt/JSONWriter.h:232-240 | there is a newline between the brackets of a collection exactly if it and all around it are multi-line, or a collection inside has one in its name |
| `JsonLayout.LineCount` | mfbt/JSONWriter.h:258-269 | where names need no escaping, the newlines of a value are one for every item of a collection that is multi-line with all around it, and one more for each such collection |
| `JsonLayout.ValueLaid` | mfbt/JSONWriter.h:232-339 | read character by character, a value has behind each newline as many blanks as collections are open there, and else only the single blanks behind commas and colons |
| `JsonLayout.DocumentLaid` | mfbt/JSONWriter.h:342-368 | the same for a whole document |
| `JsonPrinting.CollectionNameIff` | mfbt/JSONWriter.h:315-319 | the name of a collection reads back if and only if it needs no escaping |
| `JsonPrinting.OnlyPlainName` | mfbt/JSONWriter.h:315-319 | a raw name is found by the reader only if it needs no escaping, whatever comes after it |
| `JsonPrinting.RawNameIff` | mfbt/JSONWriter.h:315-319 | the same for any text written between quotes as it is |
| `JsonPrinting.QuoteInName` | mfbt/JSONWriter.h:315-319 | a name with a quote in it reads as what comes before the quote |
| `JsonWriters.CountExtra` | mfbt/JSONWriter.h:165-179 | the first pass counts exactly the characters that escaping adds |
| `JsonWriters.EscapedString` | mfbt/JSONWriter.h:159-217 | the second pass fills a buffer of the length counted with the escaped text and a terminator; no buffer exactly if nothing needs escaping |
| `JsonWriters.JSONWriter.Separator` | mfbt/JSONWriter.h:258-269 | writes what `Sep` gives for the comma that is due, the depth and its style, which `LineCount` and `ValueLaid` are about |
| `JsonWriters.JSONWriter.Scalar` | mfbt/JSONWriter.h:279-287 | writes separator, escaped name and token, and remembers that a comma is due |
| `JsonWriters.JSONWriter.QuotedScalar` | mfbt/JSONWriter.h:289-299 | the same with quotes around the token |
| `JsonWriters.JSONWriter.NewVectorEntries` | mfbt/JSONWriter.h:301-309 | the entries of the new depth are set, those of outer depths stay |
| `JsonWriters.JSONWriter.StartCollection` | mfbt/JSONWriter.h:311-326 | one level deeper; newlines only if the outer level has them and the style asks for them |
| `JsonWriters.JSONWriter.EndCollection` | mfbt/JSONWriter.h:328-339 | back to the outer level, whose entries are as they were |
| `JsonWriters.Emit` | mfbt/JSONWriter.h:279-339 | the calls that a tree stands for write what Print gives, and leave depth and flags of the outer levels |
| `JsonWriters.WriteDocument` | mfbt/JSONWriter.h:342-368 | a document that the writer produces reads back to the tree if and only if no name of a collection needs escaping; then it also has the right lines and indentation |
| `BufferLists.Iter.Advance` | mfbt/BufferList.h:186-203 | the position in the stream grows by the number given, across the end of a segment too |
| `BufferLists.Iter.AdvanceAcrossSegments` | mfbt/BufferList.h:208-220 | true exactly if there are so many bytes left; otherwise at the end |
| `BufferLists.Iter.BytesUntil` | mfbt/BufferList.h:231-247 | the result is the distance plus the difference of the segments' addresses, modulo the word, and fails exactly where the release assertion does |
| `BufferLists.BufferList.RangeLength` | mfbt/BufferList.h:302-305 | right if and only if both iterators are in the same segment |
| `BufferLists.RangeAcross` | mfbt/BufferList.h:231-247 | two segments 1000 apart, 8 bytes between the iterators: the result is 1008 |
| `BufferLists.OffsetsAgree` | mfbt/BufferList.h:59-63 | in aligned segments the offset of every byte and its address agree modulo 2, 4 and 8 |
| `BufferLists.OnlyAligned` | mfbt/BufferList.h:59-63 | and only in these, if capacities and starts are aligned |
| `BufferLists.PackedAligned` | mfbt/BufferList.h:59-63 | packed segments are aligned if their capacities are |
| `BufferLists.BufferList.AllocateSegment` | mfbt/BufferList.h:316-330 | an appended segment and a larger count exactly if both requests are granted, else nothing changed |
| `BufferLists.BufferList.WriteBytes` | mfbt/BufferList.h:338-374 | the stream grows by the bytes, or by as many as there was memory for; it fails exactly at the first refused request; no other byte of any list changes; all segments but the last stay full, and aligned segments stay aligned, packed or not |
| `BufferLists.BufferList.ReadBytes` | mfbt/BufferList.h:376-396 | copies the bytes of the stream at the iterator, as many as there are; false exactly if there are too few |
| `BufferLists.BufferList.Borrow` | mfbt/BufferList.h:398-420 | the new list holds the next bytes in the same buffers; its count is right exactly on success or if nothing was taken; it fails exactly at the first refused request, or at the end of the stream |
| `BufferLists.BufferList.MoveFallible` | mfbt/BufferList.h:422-445 | on success the new list holds the stream and this one is empty; on failure, exactly at the first refused request, nothing has changed; exactly when what is to be freed stays the same, and when the result is aligned |
| `BufferLists.BufferList.Extract` | mfbt/BufferList.h:447-513 | on success the result holds the bytes asked for, this list from the iterator on those after them, both counts are right and no buffer is in both; on failure nothing has changed, and a request behind those for the first buffer was refused or there are too few bytes; the result is packed exactly in the cases named, buffers are lost exactly in the cases named, and for aligned arguments both lists are aligned, packed or not |
| `BufferLists.BufferList.Rollback` | mfbt/BufferList.h:473-476 | the first segment stays; of the new list's own buffers exactly the others are in no list afterwards |
| `BufferLists.BufferList.Transplant` | mfbt/BufferList.h:478-492 | whole segments change lists as long as more is wanted than the next one holds, and requests are granted |
| `BufferLists.BufferList.WriteBehind` | mfbt/BufferList.h:494-500 | copying behind a segment that was passed on leaves the bytes of the source alone, though its room may be used |
| `BufferLists.Unpacked` | mfbt/BufferList.h:447-513 | an extraction of 32 bytes from three full segments of 16 succeeds, and ends packed exactly if the first request for memory is granted |
| `BufferLists.HalfThenFull` | mfbt/BufferList.h:447-513 | the segments that such an extraction leaves: aligned and not packed |
| `BufferLists.BuffersLost` | mfbt/BufferList.h:473-476 | an extraction of 32 bytes out of 24 that fails with buffers lost, the first request for memory refused and no other |
| `BufferLists.BorrowTooMuch` | mfbt/BufferList.h:398-420 | 16 bytes borrowed of 8: a byte count of 0 and a segment with 8 |
| `BufferLists.BufferForgotten` | mfbt/BufferList.h:422-445 | a buffer that no list owns after a move |
| `BufferLists.FreedTwice` | mfbt/BufferList.h:422-445 | a buffer that two lists own after a move |
| `BufferLists.OffsetFive` | mfbt/BufferList.h:59-63 | the byte at offset 5 is where a buffer begins |
| `PowersOfTwo.RoundUpPow2Least` | mfbt/TemplateLib.h:58-67 | a power of two, the least that is large enough, and less than twice the number |
| `PowersOfTwo.LogarithmsAgree` | mfbt/MathAlgorithms.h:371-410 | counting leading zeroes at run time gives the logarithm of the compile-time recursion |
| `PowersOfTwo.RoundUpPow2Word` | mfbt/MathAlgorithms.h:471-477 | the run-time rounding is the compile-time one |
| `PowersOfTwo.MaskTest` | mfbt/TemplateLib.h:80-95 | and-ing with the mask of high bits gives 0 exactly below the power of two |
| `PowersOfTwo.MulOverflowMaskSound` | mfbt/TemplateLib.h:97-108 | what the mask clears can be multiplied without overflow; exactly so for a power of two |
| `PowersOfTwo.MaskIsRest` | mfbt/BloomFilter.h:153-160 | a mask of low bits leaves the rest of the division by the power of two |
| `VectorGrowth.TightIfFills` | mfbt/Vector.h:45-50 | a capacity wastes no space if some power of two is filled by it and by no more |
| `VectorGrowth.TightOnlyIfFills` | mfbt/Vector.h:45-50 | and only if |
| `VectorGrowth.DoubledIsTight` | mfbt/Vector.h:927-934 | doubling a tight capacity, and adding one where there is space, is tight again |
| `VectorGrowth.ChosenIsTight` | mfbt/Vector.h:879-959 | the chosen capacity has the room asked for, its byte count does not overflow, is less than twice what was needed, and it wastes no space, for every element size and inline capacity |
| `VectorGrowth.ChosenIff` | mfbt/Vector.h:892-949 | a capacity is chosen if and only if the length, or its sum with the increment, is below the power of two that leaves the bits of four times the element size, or of twice; or the vector is inline or empty and grows by one |
| `VectorGrowth.AppendsFit` | mfbt/Vector.h:922-935 | the overflow tests stop no run of appends up to the same bound |
| `VectorGrowth.AppendsAreCheap` | mfbt/Vector.h:855-959 | n appends to a new vector move fewer than 2n elements |
| `Vectors.Vector.GrowStorageBy` | mfbt/Vector.h:879-959 | the elements stay in order in a new buffer of the chosen capacity; it succeeds if and only if there is memory and the condition of `ChosenIff` holds |
| `Vectors.Vector.ConvertToHeapStorage` | mfbt/Vector.h:855-877 | inline elements are carried over exactly if there is memory, else nothing has changed |
| `Vectors.Vector.GrowTo` | mfbt/Vector.h:132-152 | heap elements are carried over exactly if there is memory, else nothing has changed |
| `Vectors.Vector.Append` | mfbt/Vector.h:1306-1326 | one element more at the end if and only if there is room, or memory for a capacity that can be chosen; else nothing changed |
| `Vectors.Vector.Reserve` | mfbt/Vector.h:1010-1030 | room for so many, with the elements as they were; fails only where growing does |
| `Vectors.Vector.GrowBy` | mfbt/Vector.h:1050-1072 | so many initialised elements more, or nothing changed; fails only where growing does |
| `Vectors.Vector.Insert` | mfbt/Vector.h:1219-1243 | exactly which elements an insertion leaves, for any effect a move has on its source |
| `Vectors.InsertRightIff` | mfbt/Vector.h:1219-1243 | these are the right ones if and only if nothing is behind the place or a move leaves its source as it was |
| `Vectors.LastIsLost` | mfbt/Vector.h:1233-1240 | two elements whose moves leave 0: after an insertion at the front the second is gone |
| `Vectors.Vector.Erase` | mfbt/Vector.h:1259-1271 | exactly which elements an erasure leaves, for any effect that moves have |
| `Vectors.EraseRightIff` | mfbt/Vector.h:1259-1271 | these are the right ones if and only if the range is not empty or moving the elements behind it to themselves changes nothing |
| `Vectors.AllCleared` | mfbt/Vector.h:1266-1268 | two elements that a move to themselves clears: erasing nothing at the front clears both |
| `Vectors.Vector.Reverse` | mfbt/Vector.h:838-848 | element i is what was at the mirrored place |
| `Vectors.AppendEach` | mfbt/Vector.h:1306-1326 | a whole run: the contents are the appended sequence, and fewer than twice as many elements were moved; with memory nothing fails up to the bound of `AppendsFit` |
| `LinkedLists.Element.SetNextUnsafe` | mfbt/LinkedList.h:328-339 | the ring with the element behind this one |
| `LinkedLists.Element.SetPreviousUnsafe` | mfbt/LinkedList.h:345-356 | the ring with the element before this one |
| `LinkedLists.Element.Remove` | mfbt/LinkedList.h:241-251 | the ring without this element, which is on its own |
| `LinkedLists.Element.RemoveAndGetNext` | mfbt/LinkedList.h:258-263 | also returns the next element, or null at the end |
| `LinkedLists.Element.AdjustLinkForMove` | mfbt/LinkedList.h:362-397 | takes the place of the other element, if it is in a list |
| `LinkedLists.RingsApart` | mfbt/LinkedList.h:119-121 | two rings that share an element are the same ring |
| `LinkedLists.LinkedList.HoldsUnique` | mfbt/LinkedList.h:459-530 | the links determine the sequence a list holds |
| `LinkedLists.LinkedList.PopFirst` | mfbt/LinkedList.h:489-496 | the first element leaves the sequence, or null if there is none |
| `LinkedLists.LinkedList.PopLast` | mfbt/LinkedList.h:502-509 | the last one does |
| `LinkedLists.LinkedList.Clear` | mfbt/LinkedList.h:525-530 | the list is empty and every element on its own |
| `LinkedLists.LinkedList.Contains` | mfbt/LinkedList.h:627-637 | iteration finds an element if and only if it is in the sequence |
| `SeveralLists.InsertFront` | mfbt/LinkedList.h:459-463 | among any number of lists, this one's sequence has the element in front and the others keep theirs |
| `SeveralLists.InsertBack` | mfbt/LinkedList.h:468-471 | the same at the end |
| `SeveralLists.SetNext` | mfbt/LinkedList.h:220-224 | the same for inserting behind an element |
| `SeveralLists.SetPrevious` | mfbt/LinkedList.h:231-235 | and before one |
| `SeveralLists.MoveElement` | mfbt/LinkedList.h:180-193 | one element takes the place of another, which is on its own afterwards; the other lists stay |
| `SeveralLists.Remove` | mfbt/LinkedList.h:241-251 | the same for taking out |
| `SeveralLists.PopFirst` | mfbt/LinkedList.h:489-496 | the same for the first element |
| `SeveralLists.PopLast` | mfbt/LinkedList.h:502-509 | the same for the last one |
| `SeveralLists.Clear` | mfbt/LinkedList.h:525-530 | the same for all of one list |
| `SeveralLists.MoveFrom` | mfbt/LinkedList.h:442-447 | one sequence goes over to an empty list, the others stay |
| `ListSanity.TortoiseAndHare` | mfbt/LinkedList.h:582-598 | on links in any state the loop ends, and passes exactly if they lead back to the sentinel |
| `ListSanity.DebugAssertIsSane` | mfbt/LinkedList.h:571-622 | passes exactly if there are elements that form a ring forwards, with matching links, and the way back ends |
| `ListSanity.RingIsSane` | mfbt/LinkedList.h:571-622 | every check passes on a list that is a ring |
| `ListSanity.SaneIsRing` | mfbt/LinkedList.h:571-622 | what passes is a ring if and only if the sentinel's backward link is right |
| `ListSanity.Overlooked` | mfbt/LinkedList.h:611-620 | a list that passes and is no ring |
| `Cuts.CutUnique` | mfbt/SegmentedVector.h:161-175 | a sequence can be cut into full segments in one way only |
| `Cuts.FastPop` | mfbt/SegmentedVector.h:221-269 | any way of taking n elements off the end leaves the segments that n calls of PopLast leave |
| `SegmentedVectors.SegmentedVector.RoomIff` | mfbt/SegmentedVector.h:164-168 | the last segment has room exactly if not every place in the segments is taken |
| `SegmentedVectors.SegmentedVector.Append` | mfbt/SegmentedVector.h:161-175 | one element more, all segments but the last full and none empty, if and only if there is room in the last segment or memory for another; else nothing changed |
| `SegmentedVectors.SegmentedVector.PopLast` | mfbt/SegmentedVector.h:209-219 | one element less, and one segment less if it was alone in it |
| `SegmentedVectors.SegmentedVector.PopLastN` | mfbt/SegmentedVector.h:221-269 | n elements less, in the segments that n calls of PopLast leave, none included; and exactly when the assertion on the number holds |
| `SegmentedVectors.SegmentedVector.Length` | mfbt/SegmentedVector.h:146-157 | the sum over the segments is the length of the sequence |
| `SegmentedVectors.Iter.Get` | mfbt/SegmentedVector.h:293-297 | the element at the iterator's position |
| `SegmentedVectors.Iter.Next` | mfbt/SegmentedVector.h:305-313 | the next position |
| `SegmentedVectors.Iter.DoneAtEnd` | mfbt/SegmentedVector.h:291 | done exactly at the end of the sequence |
| `JobQueues.Always` | weexion.cpp:883-974 | what holds in every state of every run of scripts, drains and helper threads |
| `JobQueues.OnePlace` | weexion.cpp:895-948 | a started task is outstanding, finished, being delivered, delivered or lost, in one way and once |
| `JobQueues.Tallies` | weexion.cpp:883-974 | what the state counts as enqueued, run, started, delivered and lost is what the events of the run say |
| `JobQueues.Progress` | weexion.cpp:918-974 | a drain that is going on is never stuck |
| `JobQueues.NeverUnderflows` | weexion.cpp:912-913 | the assertion that a finished task was outstanding holds |
| `JobQueues.JobsRunInOrder` | weexion.cpp:950-969 | the jobs begun in a run are a prefix of those that were enqueued in it, by its events |
| `JobQueues.DrainCompletes` | weexion.cpp:918-974 | at the end of a drain all jobs enqueued in the run have run, the queue is empty and the flag down; at the end of an outermost one every task started before it, by the events, is delivered or lost |
| `JobQueues.LateJobRuns` | weexion.cpp:950-971 | a run in which a job enqueues another one and calls for a drain, which is ignored: both run, in order |
| `JobQueues.PendingInOrder` | weexion.cpp:936-948 | a finished task goes to the end of those that wait, and the innermost drain begins with its first |
| `JobQueues.DeliveredInOrder` | weexion.cpp:936-948 | without a drain inside a finish function tasks are delivered in the order they were finished in |
| `JobQueues.LostByFailure` | weexion.cpp:906-915 | the lost tasks are as many as the appends that failed |
| `JobQueues.AllDelivered` | weexion.cpp:918-974 | without a failed append the outermost drain delivers every task started before it |
| `JobQueues.LostForGood` | weexion.cpp:906-915 | a run with one failed append after which the task is never delivered |
| `IdleNotifications.IdleNotifier.NeedIdleNotification` | weexion.cpp:1408-1451 | the code computes the step the lemmas are about |
| `IdleNotifications.Course` | weexion.cpp:1408-1451 | counters, flag and answer of every call in closed form, from any state with the flag up and until the count comes to its maximum |
| `IdleNotifications.GoesDown` | weexion.cpp:1408-1451 | the flag goes down after an exact number of calls; all later calls say no and change nothing |
| `IdleNotifications.MarkupCourse` | weexion.cpp:1462-1471 | after a markup at count c the flag goes down at the call 110 - c, and at the fifteenth from count 95 on |
| `IdleNotifications.MarkupYes` | weexion.cpp:1408-1471 | how many of the first n calls after a markup say yes |
| `IdleNotifications.AtMostFive` | weexion.cpp:1408-1471 | never more than five, and at least three in all |
| `IdleNotifications.FromTheStart` | weexion.cpp:1408-1451 | from the initial state exactly the calls 103, 106 and 109 say yes |
| `IdleNotifications.GoesDownIff` | weexion.cpp:1462-1471 | after a markup the flag goes down at some time if and only if the count is at least 15, or exactly 5, short of the maximum |
| `IdleNotifications.LateCourse` | weexion.cpp:1408-1471 | counts, samples and answers of all calls after a markup that comes too late: the count goes round between 101 and the maximum |
| `IdleNotifications.NeverDown` | weexion.cpp:1462-1471 | after a markup at the maximum the flag stays up for ever |
| `IdleNotifications.ResetCourse` | weexion.cpp:1474-1480 | after a reset the flag is what it is in the initial course at every call, and so is every answer, if and only if the last markup was by 95 and no sample is left |
| `IdleNotifications.SecondCourse` | weexion.cpp:1474-1480 | after one course and a reset the flag goes down at call 101, without a yes |
| `RefPtrs.Counted.Release` | mfbt/RefCounted.h:113-137 | one less, and deleted with its weak reference detached exactly at 0 |
| `RefPtrs.AssignAssumingAddRef` | mfbt/RefPtr.h:59-67 | the new pointer is in place and the old object released: deleted exactly if that was its last owner, and no other object is |
| `RefPtrs.AssignWithAddRef` | mfbt/RefPtr.h:50-57 | copy assignment, also to itself, keeps every count equal to the number of owners; the old object is deleted exactly if no owner is left |
| `RefPtrs.AssignMove` | mfbt/RefPtr.h:215-221 | move assignment does; moved to itself a pointer is null, and its object deleted if no owner is left |
| `RefPtrs.Swap` | mfbt/RefPtr.h:235-242 | owners change places |
| `RefPtrs.NewWithAddRef` | mfbt/RefPtr.h:90-113 | a copy is one owner more |
| `RefPtrs.NewFrom` | mfbt/RefPtr.h:99-103 | moving, forgetting and taking pass an owner on without touching the count |
| `RefPtrs.Destroy` | mfbt/RefPtr.h:75-80 | one owner less, and the object deleted exactly if it was the last |
| `RefPtrs.AssignInFlight` | mfbt/AlreadyAddRefed.h:75-79 | counts stay right if and only if nothing is overwritten |
| `RefPtrs.LeakedInFlight` | mfbt/AlreadyAddRefed.h:75-79 | an object that nobody owns, with a count of 1 and not deleted |
| `RefPtrs.CountIsOwners` | mfbt/RefCounted.h:98-137 | the count is the number of owners, and an object is deleted if and only if it has had one and has none left |
| `RefPtrs.AssignWeak` | mfbt/WeakPtr.h:244-255 | a weak pointer belongs to the object it is given |
| `RefPtrs.CopyWeak` | mfbt/WeakPtr.h:231-242 | and its copy too |
| `RefPtrs.GetWeak` | mfbt/WeakPtr.h:266-271 | null exactly if its object has been deleted |
| `CheckedInts.AddValidIff` | mfbt/CheckedInt.h:254-270 | the sign-bit test passes exactly if the sum is a value of the type |
| `CheckedInts.SubValidIff` | mfbt/CheckedInt.h:272-287 | the same for the difference |
| `CheckedInts.MulValidIff` | mfbt/CheckedInt.h:289-343 | the same for the product, formed in twice the width or compared by division |
| `CheckedInts.DivValidIff` | mfbt/CheckedInt.h:345-353 | the same for the quotient that rounds towards zero |
| `CheckedInts.DividesTowardsZero` | mfbt/CheckedInt.h:345-353 | quotient and remainder are those of C++ |
| `CheckedInts.InRangeIff` | mfbt/CheckedInt.h:165-252 | the range test is exact for every pair of types |
| `CheckedInts.ConvertCongruent` | mfbt/CheckedInt.h:165-252 | a value converted to another type differs by a multiple of its range |
| `CheckedInts.ValidIff` | mfbt/CheckedInt.h:254-395 | every operator's test passes exactly if it has a result in the type |
| `CheckedInts.EvalExact` | mfbt/CheckedInt.h:397-694 | an expression is valid exactly if every part of it has an exact value in the type, and then that is its value |
| `BloomFilters.BloomFilter.Add` | mfbt/BloomFilter.h:192-203 | one item more, each counter raised by its hits and stopped at 255; it tells its hits or is stuck; also if both slots coincide |
| `BloomFilters.BloomFilter.Remove` | mfbt/BloomFilter.h:214-227 | one item less, each counter that is not stuck lowered by its hits; no counter underflows |
| `BloomFilters.BloomFilter.MightContain` | mfbt/BloomFilter.h:238-244 | true for every item that is in, and exactly if both slots are hit or stuck |
| `BloomFilters.HitsLess` | mfbt/BloomFilter.h:214-227 | an item that leaves takes exactly its hits along |
| `BloomFilters.SlotsAre` | mfbt/BloomFilter.h:153-160 | the slots are the hash, and the hash divided by 65536, modulo the size of the array |

## Left out

- `fdlibm/`, `mfbt/FastBernoulliTrial.h`: floating-point approximations and random sampling.
- `mfbt/Compression.*`, `mfbt/lz4.h`: the compressor itself is not in the repository.
- JNI glue, string conversion, tracing and calls into the JavaScript engine: foreign calls with no visible meaning.
- `mfbt/Atomics.h`, `ThreadLocal.h`, `Poison.*`: memory models and operating-system calls; counts are updated by one
  thread at a time.
- Number formatting of `JSONWriter`: the text of a number is an opaque token.
- The search that `insert` of the splay tree makes in a debug build to assert that there is no duplicate.
- `BufferLists.BufferList.Extract`: the assertions about 8-byte alignment are not modelled. An iterator at the end of the
  list is outside of its contract: the guard would then erase from a list without a segment.
- `BufferLists.BufferList.MoveFallible`: nothing is said about freeing memory in lists that own their buffers.
- `Vectors.Vector.Append`: the reentrancy guard and the reserved length of debug builds are not modelled; nor are
  `initCapacity`, `replaceRawBuffer` and `podResizeToFit`, which install capacities that may waste space.
- `LinkedLists.Element.Remove`: the hooks that count references of listed elements are not modelled.
- `SegmentedVectors.SegmentedVector.Append`: the list of segments is a sequence here, and a segment's buffer the
  sequence of its elements; that the list behaves as a sequence is proved in `LinkedList.dfy`.
- `RefPtrs.Counted.Release`: destructors do not call back into owners, and the weak reference's own count is left to
  the same rules; counts are not bounded.
- `BloomFilters.BloomFilter.Remove`: only for an item that is in, as the header asks.
- `CheckedInts.EvalExact`: compound assignments and increments are the binary operators followed by an assignment.
- `IdleNotifications.Course`: the collection itself and its timing.
