# A verified model of the Lama runtime, verifier, interpreter and analyzer

This project models four parts of the repository in Dafny and proves what they are for.

**The collector** (`runtime/gc.c`, `runtime/gc.h`). A sliding mark-compact collector over one chunk of
words. `Words` splits a 64-bit word into the parts the macros use, and proves with bit vectors that the
split form computes those macros. `HeapLayout` is the tiling of the chunk by objects. `Marking` has the
breadth-first queue that lives in the forward words of the first objects. `Compaction` has forward
addresses, the rewriting of references between two bases, and the sliding move. `Graphs` states what a
collection preserves: an injective renaming of objects. `Collector` is the class `Gc` with the state of
gc.c and its procedures in place.

**The runtime functions** (`runtime/runtime.c`). `Runtime`, `Builtins` and `Strings` are the allocating
functions across a moving collection, and the instructions that call them. `Values` and `Structural` are
comparison and hashing, `TagHash` the packing of tag names, `Tags` a tag from its name to the pattern that tests it.

**The bytecode verifier and the interpreter** (`src/verifier`, `src/state`, `src/single_interpreters`,
`src/main.cpp`). `Bytecode` decodes. `Verifier` is collect_marks, `MaxStack` is verify, `Packing` says what
writing the packed depths does to the code. `Frames` is the flat frame stack against a list of frames,
`Interpreter` the dispatch loop on it. `Runs` is what the verifier's depths say about every run, `Rooms` what the
packed depths say, `Variables` what the checks of variables say. `Accepted` has two programs that verify accepts
and that go wrong. `Moves` puts the frame stack into the memory of the collector, `Closures` runs CLOSURE there.
`Depths` has the instructions outside of the fragment, `Assembly` the round trip of the byte code.

**The analyzer** (`src/analyzer/Analyzer.hpp`). `Analyzer` is the traversal, `Counting` the order on
instructions and the grouping, `Coverage` the search of the verifier against that of the analyzer.

## What is assumed

- Addresses are word addresses. A root word or pointer field is odd, or the content pointer of an object,
  or a foreign address, outside of the tested range of every chunk (`Graphs.Valued`). Uninitialised locals
  make this an assumption (`src/state/FrameStack.hpp:106-108`).
- Marking scans one stack word less than fixing (`runtime/gc.c:244`, `runtime/gc.c:463`): that word holds no
  heap pointer (`Gc.RootsValued`).
- A new chunk is zeroed and disjoint from the old one and from foreign addresses (`Gc.FreshPlace`); it may
  be adjacent to the old one.
- Execution starts at offset 0, and a symbol named main is there.
- The fragment of `Runs` has no CALL_STRING, LDA, STA, STI, CLOSURE or CALLC. There the verifier's table and
  the handlers differ, or targets are not traversed.
- Values computed by the runtime (`read`, arithmetic, tag tests) are parameters of the handlers.
- The slots of the stack, the code and null are no addresses of a chunk (`Moves.AddressesForeign`).

## Where a property needs a condition

- The verifier looks only at the net effect of BINOP, ELEM, SWAP and the string pattern.
  `Runs.AcceptsUncovered` has accepted code in which BINOP has one operand. `Runs.RunRight` asks that the
  depth covers the operands (`Runs.Covers`).
- For CALLC the verifier does not count the closure (`Depths.ClosureNotCounted`). For STA it is right exactly if the
  index is an integer (`Depths.StaDepth`), for CALL_STRING never (`Depths.CallStringDepth`).
- Packing can write into another visited instruction. `Accepted.OverlapDisturbs` is accepted code whose packed
  form has no depths and runs out of the code. Every visited instruction keeps its bytes if and only if
  `Packing.NoOverlap` holds; where only upper halves of targets are hit, in code of at most 2^16 bytes, that is
  also exactly when the packed code has depths (`Packing.PackedIff`).
- verify checks variables against the declared numbers, and no call against them. `Accepted.ArgumentMissing` is
  accepted code that stores to an argument that was not passed. `Variables.RunInRange` asks that calls pass what
  their functions use (`Variables.Supplied`), for which the declared number is enough. A store to an argument
  that is missing is a step of no run (`Variables.ArgumentStoreSteps`), as it would write the frames around
  (`Frames.StrayArgument`).
- The packed depth is cut to 16 bits: it bounds the depths of a function if and only if they fit
  (`MaxStack.PackedBounds`).
- Globals are clear of the first free slot if and only if there are none or some string is not empty
  (`Frames.GlobalsClear`).
- The words that are marked from are all fixed if and only if no extra root sits at two border words
  (`Gc.RootsCoveredIff`).
- Comparison is zero exactly on equal values, and has the sign of the order exactly where the deciding difference
  has 63 bits (`Structural.CompareRight`, `Structural.LargeIntegersMisordered`). Zero means equality for strings
  without NUL (`Structural.NulHidesTheRest`).
- Lclone copies a string up to its first NUL (`Strings.WholeIff`, `Strings.InnerNulCuts`).
- Lsubstring accepts a negative position or length whose sum lies inside of the string
  (`Strings.SubstringInside`, `Strings.ForwardWordAccepted`).
- LtagHash fails exactly for a name that starts with an underscore or leaves the alphabet in its first ten
  characters (`TagHash.KeepsPrefix`).
- The pairs of the analyzer are complete if and only if no two collected instructions fall through to the same
  offset without a label (`Analyzer.PairsComplete`).

## Model

| member | source | states |
|---|---|---|
| `Words.SetMarkOnBits` | runtime/gc.h:27 | the split form of a word computes SET_MARK_BIT on every 64-bit word |
| `Words.ResetMarkOnBits` | runtime/gc.h:31 | the split form computes RESET_MARK_BIT on every word |
| `Words.MakeEnqueuedOnBits` | runtime/gc.h:29 | the split form computes MAKE_ENQUEUED on every word |
| `Words.MakeDequeuedOnBits` | runtime/gc.h:30 | the split form computes MAKE_DEQUEUED on every word |
| `Words.GetForwardOnBits` | runtime/gc.h:35 | the split form computes GET_FORWARD_ADDRESS on every word |
| `Words.SetForwardOnBits` | runtime/gc.h:37 | the split form computes SET_FORWARD_ADDRESS on every word and address |
| `Words.ForwardRoundTrip` | runtime/gc.h:32-37 | an aligned address survives a store into a forward word and a load from it, and both flags of the word survive the store |
| `Values.UnboxNumber` | runtime/runtime_common.h:53-55 | a word is twice its UNBOX, plus one if it is odd |
| `Values.BoxedUnboxes` | runtime/runtime_common.h:53-55 | the word of BOX(n) is odd and unboxes to n, for every n of 63 bits |
| `Values.BytesMakeNumber` | runtime/runtime.c:569-578 | a word is made of its bytes, the least significant first |
| `HeapLayout.SizeInWords` | runtime/gc.c:797-825 | rounding the byte size of an object up to words gives 2 + len, 2 + len, 3 + len, or 3 + len / 8 words |
| `HeapLayout.FieldPlaces` | runtime/gc.c:827-842 | the scanned fields are all elements of an array, those of a closure after the code word, those of an s-expression after the tag, and none of a string |
| `Structural.HeaderNumber` | runtime/runtime_common.h:29-40 | the header of an object is eight times its length plus 1, 3, 5 or 7 |
| `HeapLayout.TiledPair` | runtime/gc.c:743-749 | objects tile the chunk: a later object starts at least a header above an earlier one |
| `HeapLayout.PointerInRange` | runtime/gc.c:501-503 | the content pointer of every object passes is_valid_heap_pointer, also where it equals heap.current |
| `HeapLayout.PointsUnique` | runtime/gc.c:871-874 | a word is the content pointer of at most one object |
| `Marking.ClosedHoldsReachable` | runtime/gc.c:524-554 | a set of marks that is closed under pointer fields and has the roots has everything reachable |
| `Marking.RoomInQueue` | runtime/gc.c:507-513 | pigeonhole: an object not seen before finds a free slot, so the tail never passes heap.current |
| `Marking.EnqueueKeepsQueue` | runtime/gc.c:507-513 | an enqueue overwrites no waiting entry and keeps first-in-first-out order, each object at most once |
| `Marking.DequeueKeepsQueue` | runtime/gc.c:515-522 | a dequeue yields the oldest entry, which is marked, and changes no other flag |
| `Marking.MarkingDone` | runtime/gc.c:534-554 | when the queue is empty no enqueued bit is set and the marks are closed under pointer fields |
| `Marking.MarksExact` | runtime/gc.c:249-274 | marks that are closed, reachable only, and hold the roots are exactly the reachable objects |
| `Collector.Gc.NextObject` | runtime/gc.c:743-749 | goes from the start of one object to the start of the next |
| `Collector.Gc.NextPtrField` | runtime/gc.c:856-860 | goes to the next even field, skipping odd ones only |
| `Collector.Gc.FirstPtrField` | runtime/gc.c:827-852 | finds the first even field after the tag or code word, or the end of the object |
| `Collector.Gc.QueueEnqueue` | runtime/gc.c:507-513 | the queue in the forward words grows by one entry at its tail |
| `Collector.Gc.QueueDequeue` | runtime/gc.c:515-522 | the oldest entry of that queue is taken and its enqueued bit cleared |
| `Collector.Gc.EnqueueFields` | runtime/gc.c:541-552 | enqueues exactly the objects behind the fields that are neither marked nor waiting |
| `Collector.Gc.Mark` | runtime/gc.c:524-554 | marks the object and what it reaches, terminates, sets only flags, and leaves the marks closed between calls |
| `Collector.Gc.MarkRegion` | runtime/gc.c:243-247 | marks from every word of a root region |
| `Collector.Gc.MarkExtraRoots` | runtime/gc.c:556-561 | marks from every registered word |
| `Collector.Gc.MarkPhase` | runtime/gc.c:249-274 | afterwards an object is marked if and only if it is reachable from the stack, extra roots and global area |
| `Compaction.LiveMonotone` | runtime/gc.c:305-328 | the live size never decreases along the heap |
| `Compaction.LiveBelow` | runtime/gc.c:305-328 | a forward address is no higher than the address of its object |
| `Compaction.LiveApart` | runtime/gc.c:305-328 | distinct live objects get disjoint places in their old order |
| `Compaction.LocateNext` | runtime/gc.c:312-321 | one step of the scan gives a marked object the end of the live size so far and nobody else a new address |
| `Compaction.RebasedIsNew` | runtime/gc.c:435-457 | the address computed relative to the old base through the new copy is the pointer to the object at its new place |
| `Compaction.UpdateField` | runtime/gc.c:434-457 | rewriting one field keeps all others and finishes that field |
| `Compaction.SlideOne` | runtime/gc.c:483-495 | moving one object down damages no object that has not moved yet and completes the next one |
| `Collector.Gc.ComputeLocations` | runtime/gc.c:305-328 | every marked object has its forward address and the result is the live size |
| `Collector.Gc.UpdateReferences` | runtime/gc.c:423-475 | every pointer field of a live object and every root word is rewritten to the new place of its object, exactly once |
| `Collector.Gc.FixRegion` | runtime/gc.c:330-350 | all words of a region are fixed, those fixed before are left alone |
| `Collector.Gc.FixExtraRoots` | runtime/gc.c:352-421 | a word that is registered several times, or is in a region that was scanned, is not redirected a second time |
| `Collector.Gc.FixRoots` | runtime/gc.c:462-471 | stack, extra roots and global area together: each word is redirected once |
| `Graphs.NewOutsideOld` | runtime/gc.c:279-293 | the sizing rule keeps a new pointer outside the range tested for the old heap, even when the chunks are adjacent |
| `Graphs.FixOne` | runtime/gc.c:334-346 | fixing a word that is already fixed changes nothing |
| `Collector.Gc.RootsCoveredIff` | runtime/gc.c:352-421 | the words marked from are all fixed, if and only if no extra root sits at the two words where the skip test and the scans disagree |
| `Collector.Gc.MoveObject` | runtime/gc.c:491 | memmove of one object: every word, and of the last word of a string only the bytes that belong to it |
| `Collector.Gc.PhysicallyRelocate` | runtime/gc.c:477-499 | all live objects stand at their forward addresses with their contents, unmarked |
| `Graphs.CompactedTiles` | runtime/gc.c:477-499 | the live objects tile the beginning of the chunk without gaps, up to the live size |
| `Graphs.CompactedFlagsClear` | runtime/gc.c:492 | no mark or enqueued bit is left |
| `Graphs.CompactionPreserves` | runtime/gc.c:276-303 | compaction is an injective renaming of the live objects that keeps kind, length, bytes, tag, code word, integers and foreign pointers and maps every pointer field |
| `Graphs.RankGrows` | runtime/gc.c:305-328 | the renaming keeps the order of objects |
| `Graphs.PreservedValued` | runtime/gc.c:423-475 | after compaction every field is an integer, a foreign address or the pointer of an object |
| `Collector.Gc.CompactPhase` | runtime/gc.c:276-303 | the whole of compact_phase: graph preserved, roots redirected, flags clear, chunk large enough |
| `Collector.Gc.Map` | runtime/gc.c:285-286 | the copy of the old chunk fits the new one, and the rest of it is zero |
| `Collector.Gc.NextSize` | runtime/gc.c:279-282 | capacity never decreases, is at least 64 words and twice the live size plus the request |
| `Collector.Gc.Collect` | runtime/gc.c:199-241 | a collection keeps exactly the objects reachable from the roots, as the same graph, cycles and sharing included, and every root keeps its value |
| `Collector.Gc.AllocOnExistingHeap` | runtime/gc.c:189-197 | succeeds if and only if the words fit; they are zero |
| `Collector.Gc.GcAlloc` | runtime/gc.c:199-241 | the allocation after a collection always succeeds, and then at least as many words are free as are live |
| `Collector.Gc.Alloc` | runtime/gc.c:58-80 | with or without a collection the graph and all roots are carried over |
| `Collector.Gc.AllocObject` | runtime/gc.c:892-956 | an object with the header asked for, zero contents and clear flags at the end of the heap |
| `Collector.Gc.constructor` | runtime/gc.c:589-605 | an empty heap of 64 words is in order |
| `Collector.Gc.PushExtraRoot` | runtime/gc.c:622-630 | fails if and only if 32 words are registered |
| `Collector.Gc.PopExtraRoot` | runtime/gc.c:632-642 | succeeds if and only if the word is the one registered last |
| `Graphs.StoreKeepsFields` | runtime/runtime.c:942-958 | storing a value in a field keeps the heap in order |
| `Runtime.PopArgs` | runtime/runtime.c:834-836 | the arguments are taken off the pool in reverse: its check never fires |
| `Runtime.AllocWithArgs` | runtime/runtime.c:821-825 | registered arguments survive the allocation; it fails exactly when the pool has no room |
| `Runtime.Barray` | runtime/runtime.c:816-840 | a new array whose elements are the arguments in order, everything else carried over, the pool as it was |
| `Runtime.Bclosure` | runtime/runtime.c:790-814 | a new closure with the code word and the captured values in order |
| `Runtime.Bsexp` | runtime/runtime.c:844-869 | a new s-expression with the unboxed tag and the arguments in reverse order |
| `Runtime.ElementsAreFields` | runtime/runtime.c:681-698 | element i as the runtime counts is a word that the collector scans, if it is inside of the object and not a code word |
| `Runtime.CloneFields` | runtime/runtime.c:528-544 | Lclone of an array, closure or s-expression: a new object with the header and contents of the argument, which is carried over |
| `Runtime.Bsta` | runtime/runtime.c:952-958 | stores one field and nothing else; the heap stays in order |
| `Strings.BstaByte` | runtime/runtime.c:948-951 | stores the low byte of the value into a string and changes no other byte; the heap stays in order |
| `Builtins.TurnedArguments` | src/single_interpreters/builtin_interpreters.hpp:57-66 | after the reversal on the stack the arguments are the operands in push order |
| `Builtins.ReversedArguments` | src/single_interpreters/boxing_interpreters.hpp:17-30 | read backwards, the operands above the tag are in push order |
| `Builtins.CallArray` | src/single_interpreters/builtin_interpreters.hpp:57-66 | CALL_ARRAY replaces its operands by an array of them in push order, whether or not the collector ran |
| `Builtins.BoxingSexp` | src/single_interpreters/boxing_interpreters.hpp:17-30 | SEXP replaces its operands by an s-expression whose tag field is half of the tag word as a number, with the operands in push order, whether or not the collector ran |
| `Builtins.CreateClosure` | src/single_interpreters/closures.hpp:16-53 | CLOSURE captures the designated values in designation order; it fails exactly on a global designation or more than 32 |
| `Strings.CopiedAt` | runtime/runtime.c:457 | strncpy copies a byte if no NUL comes before it, and else writes NUL |
| `Strings.CopiedWhole` | runtime/runtime.c:457 | without a NUL all bytes are copied |
| `Strings.StrNCpy` | runtime/runtime.c:457 | strncpy byte by byte in the words of the heap, nothing else written |
| `Strings.BytesKept` | runtime/gc.c:477-499 | a collection keeps the bytes of a string |
| `Strings.SubstringInside` | runtime/runtime.c:447 | the bounds test accepts exactly the sums between 0 and the length; what it accepts is inside of the string if and only if neither position nor length is negative |
| `Strings.ForwardWordAccepted` | runtime/runtime.c:447 | position -8 and length 8 pass on every string, and are the bytes of its forward word |
| `Strings.Lsubstring` | runtime/runtime.c:439-470 | fails exactly where that test does, or where the pool is full; else a new string with the bytes from the position on, which are those of the subject before the allocation if the position is not negative |
| `Strings.Strlen` | runtime/runtime.c:732 | the length of a C string: the place of its first NUL |
| `Strings.Bstring` | runtime/runtime.c:731-746 | a new string with the bytes of a C string in the heap |
| `Strings.BstringOutside` | runtime/runtime.c:731-746 | a new string with the bytes of a C string that is not in the heap |
| `Strings.CloneString` | runtime/runtime.c:520-527 | the string branch of Lclone: the argument and the variable of C that Bstring is given survive the collection, and the pool is as it was |
| `Strings.Lclone` | runtime/runtime.c:510-551 | an integer is returned as it is, a string cloned up to its first NUL, any other object with header and contents |
| `Strings.WholeIff` | runtime/runtime.c:732 | a string is cloned whole if and only if it has no NUL inside |
| `Strings.InnerNulCuts` | runtime/runtime.c:732 | a string of three bytes with a NUL in the middle, of which one byte is cloned |
| `Strings.Concat` | runtime/runtime.c:977-1009 | a new string with the bytes of both arguments as they were before the allocation, and a NUL |
| `Values.ViewPreserved` | runtime/runtime.c:557-600 | what the structural functions read of a value is the same after a collection |
| `Structural.HashOf` | runtime/runtime.c:557-602 | inner_hash with its loops terminates on every heap, cyclic ones included, and computes the recursive hash |
| `Structural.HashFolds` | runtime/runtime.c:553-602 | the hash folds HASH_APPEND over the numbers of the first four levels of a value in order: tag, length, characters or first word, and fields |
| `Structural.HashIsListing` | runtime/runtime.c:610 | Lhash of a word is 22 bits of that fold |
| `Structural.IntegerHash` | runtime/runtime.c:560-610 | Lhash of an integer is 22 bits of its upper half, so zero for every one from 0 below 2^32 |
| `Structural.HashPreserved` | runtime/runtime.c:557-602 | the hash of every value, cyclic or not, is unchanged by a collection |
| `Structural.DenotesPreserved` | runtime/runtime.c:621-679 | a collection does not change the value that a word denotes |
| `Structural.Lcompare` | runtime/runtime.c:621-679 | equal words compare equal without a look at them, cyclic or not; on acyclic values Lcompare computes the comparison with differences cut to 63 bits |
| `Structural.StrCmpLess` | runtime/runtime.c:645 | strcmp is negative exactly if the first text ends, or has the smaller byte, where the two first differ |
| `Structural.ExactPrecedes` | runtime/runtime.c:621-679 | the order: integers by value, then strings, arrays, s-expressions, closures, then other addresses; objects of a kind by first word, length, and the first field in which they differ |
| `Structural.ExactAntisymmetric` | runtime/runtime.c:621-679 | the order that is meant: exchanging the arguments changes the sign, and zero means structurally the same, for all values |
| `Structural.ExactTransitive` | runtime/runtime.c:621-679 | that order is transitive, strictly so if one step is strict, for all values |
| `Structural.BoxedSign` | runtime/runtime.c:622-624 | BOX of a difference of two 63-bit numbers has its sign exactly if the difference has 63 bits, and is zero exactly if they are the same |
| `Structural.CompareRight` | runtime/runtime.c:621-679 | Lcompare is zero exactly on values that are the same, and has the sign of that order exactly where the difference that decides has 63 bits |
| `Structural.SmallFits` | runtime/runtime.c:621-679 | numbers below 2^61 are small enough for every difference |
| `Structural.DenotesOrdinary` | runtime/runtime.c:557-602 | whatever a word stands for has as many fields as its header says, and texts without NUL |
| `Structural.CompareSelf` | runtime/runtime.c:626 | it is zero on equal values |
| `Structural.CompareAntisymmetric` | runtime/runtime.c:621-679 | exchanging the arguments changes the sign of Lcompare, if both deciding differences have 63 bits |
| `Structural.CompareTransitive` | runtime/runtime.c:621-679 | Lcompare is transitive on three values whose deciding differences have 63 bits, strictly so if one step is strict |
| `Structural.SameIsEqual` | runtime/runtime.c:646 | for strings without NUL zero means equal |
| `Structural.EqualHash` | runtime/runtime.c:610-679 | words whose 63-bit values compare equal have the same Lhash, if strings have no NUL inside |
| `Structural.LargeIntegersMisordered` | runtime/runtime.c:629 | the greatest integer is found less than -1 |
| `Structural.NulHidesTheRest` | runtime/runtime.c:646 | with a NUL inside a string zero does not mean equal: a concrete pair |
| `TagHash.DeHash` | runtime/runtime.c:235-248 | unpacks the number into the buffer, and stays inside of it if and only if the number is not negative and below 2^60 |
| `TagHash.TableIs` | runtime/runtime.c:203 | the table of characters |
| `TagHash.LtagHash` | runtime/runtime.c:212-233 | succeeds exactly on the names whose first ten characters are in the alphabet and that do not start with an underscore |
| `TagHash.KeepsPrefix` | runtime/runtime.c:212-248 | the hash is below 2^60, and unhashing it gives the first ten characters exactly for those names |
| `TagHash.CollidesExactly` | runtime/runtime.c:212-233 | two such names collide if and only if their first ten characters agree |
| `TagHash.DigitsOfValue` | runtime/runtime.c:235-248 | a number in base 64 without leading zeros comes back digit by digit |
| `Tags.SexpOfName` | src/single_interpreters/boxing_interpreters.hpp:17-30 | from the name of a tag: fails exactly if it cannot be hashed or the pool is full; else the tag field of the s-expression unhashes to the first ten characters |
| `Tags.TagMatches` | runtime/runtime.c:873-882 | the tag test answers one exactly on the s-expressions with that number of elements and a tag of the same first ten characters |
| `Verifier.StepForced` | src/verifier/Verifier.hpp:123-146 | if an instruction of the search fails, no assignment of depths exists; else its successors are forced |
| `Verifier.ForcedClash` | src/verifier/Verifier.hpp:148-157 | two different depths at one offset: no assignment exists |
| `Verifier.PerformStep` | src/verifier/Verifier.hpp:148-157 | visits a new offset or compares the depth found before |
| `Verifier.Follow` | src/verifier/Verifier.hpp:123-190 | one round of the inner loop: fails only if no assignment exists, else keeps the invariant of the search and uses up one offset |
| `Verifier.EntriesAreMains` | src/verifier/Verifier.hpp:107-116 | the search starts at the symbols named main |
| `Verifier.CollectMarks` | src/verifier/Verifier.hpp:105-192 | accepts if and only if a consistent assignment of depths exists, and then finds the least one; a failure is the one of a visited instruction; the search terminates |
| `Depths.ClosureCallDepth` | src/verifier/Verifier.hpp:76-79 | after the call of a closure and its END the caller is at the depth that the verifier computes for CALLC: arguments and closure gone, result there |
| `Depths.ClosureNotCounted` | src/verifier/Verifier.hpp:125-131 | the verifier does not ask for the closure itself: with as many operands as arguments it accepts |
| `Depths.LdaDepth` | src/verifier/Verifier.hpp:72-73 | one more, as the handler leaves it |
| `Depths.StiDepth` | src/verifier/Verifier.hpp:70-71 | one less, as the handler leaves it; one operand is enough for the verifier |
| `Depths.StaDepth` | src/verifier/Verifier.hpp:68-69 | two less: right if and only if the index is an integer, one too few for a reference |
| `Depths.CallStringDepth` | src/verifier/Verifier.hpp:38-39 | one more, where the handler leaves as many as before |
| `Closures.ClosureRound` | src/single_interpreters/closures.hpp:16-53 | CLOSURE on the memory of the collector, for designations that verify has checked: one more operand as the verifier says, a closure with the code offset and the designated locals and arguments of the frame; fails exactly at a designated global or a full pool |
| `Closures.CheckedInFrame` | src/verifier/Verifier.hpp:279-292 | a designation that verify has checked names a local or argument of the frame |
| `MaxStack.Verify` | src/verifier/Verifier.hpp:234-305 | accepts exactly when every step of the scan passes; then every BEGIN that is closed holds the high-water depth modulo 2^16, its upper half was clear, and no other byte has changed |
| `MaxStack.PackEnd` | src/verifier/Verifier.hpp:257-268 | END writes the upper half of the latest open BEGIN, or fails if none is open or it is taken |
| `MaxStack.CheckVariable` | src/verifier/Verifier.hpp:271-278 | accepts if and only if the variable exists in the open function |
| `MaxStack.CheckDesignations` | src/verifier/Verifier.hpp:279-292 | accepts if and only if every designation exists |
| `MaxStack.HighWaterInside` | src/verifier/Verifier.hpp:255 | the high-water mark is the greatest depth since the function began |
| `MaxStack.PackedBounds` | src/verifier/Verifier.hpp:257-268 | the packed value bounds the depth at every boundary of the function if and only if the greatest depth fits 16 bits, and then it is attained |
| `Packing.SameIfNoOverlap` | src/verifier/Verifier.hpp:257-268 | every visited instruction keeps its bytes if and only if no nonzero byte is packed into one of them |
| `Packing.AssignmentPacked` | src/verifier/Verifier.hpp:265 | then the depths found for the code are right for the packed code |
| `Packing.TargetBreaks` | src/verifier/Verifier.hpp:265 | in code of at most 2^16 bytes a jump or call with a packed byte in the upper half of its target has no depths |
| `Packing.BrokenHasNone` | src/verifier/Verifier.hpp:105-192 | if packing breaks a visited instruction, and leaves or breaks every other one, the packed code has no assignment at all |
| `Packing.PackedIff` | src/verifier/Verifier.hpp:257-268 | in code of at most 2^16 bytes where packing overlaps at most upper halves of targets, the packed code has depths if and only if nothing is overlapped |
| `Accepted.LeastIsUnique` | src/verifier/Verifier.hpp:105-192 | there is one vector of depths that verify can find |
| `Accepted.OverlapDisturbs` | src/verifier/Verifier.hpp:234-305 | code of 92 bytes that verify accepts and whose packed form has no depths: packing writes the target of a jump inside of a CONST |
| `Accepted.OverlapEscapes` | src/main.cpp:42-203 | its run leaves the code |
| `Frames.GlobalsClear` | src/state/FrameStack.hpp:59-73 | the globals are clear of the first free slot if and only if there are none or some string of the table is not empty |
| `Frames.ArgsInOrder` | src/state/FrameStack.hpp:83-94 | argument i is the operand pushed i-th, and the closure lies above the arguments |
| `Frames.CallLays` | src/state/FrameStack.hpp:83-94 | the three words over the reversed arguments lay out exactly the list of frames with one more |
| `Frames.StandsReturn` | src/state/FrameStack.hpp:96-104 | the saved words give back the frame pointer and top of the caller, without the arguments and the closure |
| `Frames.StandsMoved` | runtime/gc.c:330-350 | if every word above the top is mapped by a function that fixes integers and saved addresses, the array stands for the same frames with mapped contents: same top, frame pointers and return addresses |
| `Frames.FrameStack.MoveObjects` | runtime/gc.c:462-463 | the rewriting of the stack by a collection, in place: frames and globals are mapped |
| `Frames.LaidDetermines` | src/state/FrameStack.hpp:83-94 | two memories that stand for the same frames agree on every word of them |
| `Frames.StrayArgument` | src/state/FrameStack.hpp:135-137 | a store to an argument that was not passed leaves the outer frames in place if and only if it changes nothing |
| `Frames.Reverse` | src/state/FrameStack.hpp:86 | std::reverse on a part of the array |
| `Frames.FrameStack.constructor` | src/state/FrameStack.hpp:35-60 | the empty stack, without the string values |
| `Frames.FrameStack.PushStackFrame` | src/state/FrameStack.hpp:83-94 | the list of frames gets a callee with the last nargs operands of the caller in push order; globals untouched |
| `Frames.FrameStack.PopStackFrame` | src/state/FrameStack.hpp:96-104 | the list without its last frame, and its return address |
| `Frames.FrameStack.ReserveLocals` | src/state/FrameStack.hpp:106-108 | n cells with whatever the memory held |
| `Frames.FrameStack.GetArg` | src/state/FrameStack.hpp:127-129 | argument i of the current frame, in push order |
| `Frames.FrameStack.SetArg` | src/state/FrameStack.hpp:135-137 | one argument of the current frame changes, nothing else |
| `Frames.FrameStack.GetLocal` | src/state/FrameStack.hpp:139-141 | local i is cell i of the current frame |
| `Frames.FrameStack.SetLocal` | src/state/FrameStack.hpp:147-149 | one local of the current frame changes, nothing else |
| `Frames.FrameStack.GetGlobal` | src/state/FrameStack.hpp:71-73 | global i of the list of globals |
| `Frames.FrameStack.SetGlobal` | src/state/FrameStack.hpp:79-81 | one global changes, and no frame |
| `Frames.FrameStack.GetClosure` | src/state/FrameStack.hpp:110-114 | the slot that holds the closure that was called |
| `Frames.FrameStack.PushOp` | src/state/FrameStack.hpp:156-159 | one operand more on the current frame, no other word of a frame or global changed |
| `Frames.FrameStack.PeekOp` | src/state/FrameStack.hpp:161-171 | an operand by its place under the top |
| `Frames.FrameStack.PopOps` | src/state/FrameStack.hpp:173-179 | n operands less on the current frame, nothing else |
| `Runs.Flows` | src/verifier/Verifier.hpp:6-100 | for the fragment the assignment says: depth plus results minus operands at every successor, zero at a call target |
| `Runs.StepRight` | src/main.cpp:42-203 | one step keeps every depth right |
| `Runs.RunRight` | src/main.cpp:36-203 | soundness over whole runs: in every reachable state the current depth is the one found for the program counter, every suspended activation resumes with the depth found for its return address, and no instruction reads below its operands |
| `Runs.VerifiedRunRight` | src/main.cpp:219-223 | depths are right over every run of the packed code that verify leaves, if packing changes no visited instruction |
| `Runs.AcceptsUncovered` | src/verifier/Verifier.hpp:141-146 | the side condition on operands is needed: accepted code in which BINOP has one operand |
| `Runs.CallReturns` | src/single_interpreters/call_stack_interpreters.hpp:20-41 | at any depth a call and its END: the caller resumes with its own locals, arguments and remaining operands, up to the collector, and the result for the operands taken |
| `Rooms.RunRoom` | src/single_interpreters/call_stack_interpreters.hpp:8-18 | over whole runs every activation past its BEGIN is in the function of that BEGIN, with the room that it asked for |
| `Rooms.ClearBefore` | src/verifier/Verifier.hpp:240-268 | at the start of a function the high-water mark is clear, if every visited offset is in a function |
| `Rooms.RunFits` | src/single_interpreters/call_stack_interpreters.hpp:8-18 | over whole runs, once a BEGIN has passed its check the top stays inside of the array at every boundary of its body |
| `Rooms.VerifiedRunFits` | src/verifier/Verifier.hpp:238-270 | over every run of the code that verify leaves, the operands of an activation past its BEGIN stay inside of the array, if functions are contiguous, entered by calls only, and depths fit 16 bits |
| `Rooms.PackedSuffices` | src/verifier/Verifier.hpp:257-268 | the depth at every boundary of a function is at most what its packed BEGIN reserves |
| `Variables.CheckedVariable` | src/verifier/Verifier.hpp:271-278 | the scan has checked every load and store against the BEGIN of its own function |
| `Variables.DeclaredSupplied` | src/verifier/Verifier.hpp:271-278 | on accepted code it is enough that calls pass as many arguments as are declared |
| `Variables.RunInRange` | src/single_interpreters/mem_interpreters.hpp:16-55 | over whole runs every load and store names a global, local or argument that exists, if every call passes the arguments that its function uses |
| `Variables.VerifiedSound` | src/verifier/Verifier.hpp:234-305 | what verify leaves meets all static conditions of the runs |
| `Variables.ArgumentStoreSteps` | src/state/FrameStack.hpp:135-137 | a store to an argument is a step if and only if the argument was passed |
| `Accepted.ArgumentMissing` | src/verifier/Verifier.hpp:271-278 | code that verify accepts and whose run gets to a store to an argument that was not passed |
| `Interpreter.Machine.StackDup` | src/single_interpreters/stack_ops_interpreters.hpp:14-17 | on the flat stack the handler is exactly the step of DUP on the list of frames; it leaves the array if and only if there are fewer free slots than it writes |
| `Interpreter.Machine.StackDrop` | src/single_interpreters/stack_ops_interpreters.hpp:19-22 | on the flat stack the handler is exactly the step of DROP on the list of frames |
| `Interpreter.Machine.StackConst` | src/single_interpreters/stack_ops_interpreters.hpp:24-27 | on the flat stack the handler is exactly the step of CONST on the list of frames; it leaves the array if and only if there are fewer free slots than it writes |
| `Interpreter.Machine.StackSwap` | src/single_interpreters/stack_ops_interpreters.hpp:29-37 | on the flat stack the handler is exactly the step of SWAP on the list of frames |
| `Interpreter.Machine.Jump` | src/single_interpreters/jump_interpreters.hpp:8-11 | on the flat stack the handler is exactly the step of JMP on the list of frames |
| `Interpreter.Machine.JumpIf` | src/single_interpreters/jump_interpreters.hpp:13-29 | on the flat stack the handler is exactly the step of both conditional jumps on the list of frames |
| `Interpreter.Machine.ReadVariable` | src/state/FrameStack.hpp:71-73 | the slot of a global, local or argument that exists holds it; also other slots of the array can be read |
| `Interpreter.Machine.MemLoad` | src/single_interpreters/mem_interpreters.hpp:16-35 | on the flat stack the handler is the step of LD on the list of frames, which yields the variable if it exists; it leaves the array exactly if that slot is outside or none is free |
| `Interpreter.Machine.MemStore` | src/single_interpreters/mem_interpreters.hpp:37-55 | on the flat stack the handler is the step of ST on the list of frames; it leaves the array exactly if the slot is outside, and strays exactly if it is inside and no variable |
| `Interpreter.Machine.Compute` | src/main.cpp:42-203 | the stack effect of an instruction whose value the runtime computes without a collection is its step |
| `Interpreter.Machine.Allocate` | src/single_interpreters/boxing_interpreters.hpp:17-30 | SEXP and CALL_ARRAY on the flat stack: the operands and everything above them are rewritten by the collection, and that is the step |
| `Interpreter.Machine.CallStackBegin` | src/single_interpreters/call_stack_interpreters.hpp:8-18 | throws exactly when the reserved depth and locals do not fit, else reserves the locals |
| `Interpreter.Machine.CallStackCall` | src/single_interpreters/call_stack_interpreters.hpp:33-41 | on the flat stack the handler is exactly the step of CALL on the list of frames; it leaves the array if and only if there are fewer free slots than it writes |
| `Interpreter.Machine.CallStackEnd` | src/single_interpreters/call_stack_interpreters.hpp:20-31 | leaves the activation, or ends the run |
| `Interpreter.Machine.ClosuresCall` | src/single_interpreters/closures.hpp:55-65 | the frame of a closure call, with its closure slot |
| `Interpreter.Machine.Dispatch` | src/main.cpp:42-203 | one round of the loop is one step, with a move of objects where it allocates; it throws, leaves the array, strays or returns exactly in the states that have the condition for it |
| `Interpreter.OneOutcome` | src/main.cpp:42-203 | no state has two outcomes, so each condition is exact |
| `Interpreter.Machine.Interpret` | src/main.cpp:36-203 | on code that meets the static conditions the loop makes a run from the initial state, in which all depths are as the verifier found and every load and store is in range; it stops before the last round only where END leaves the first activation, or at a state in which the next instruction throws or leaves the array |
| `Moves.RenamedIsMoved` | runtime/gc.c:334-346 | what a collection does to a root word is a function of the word |
| `Moves.MoveFixesSaved` | runtime/gc.c:501-503 | that function fixes integers, null, and addresses of the stack and of the code |
| `Moves.CollectionKeepsFrames` | runtime/gc.c:462-471 | a collection that fixes every word of the stack leaves the frame stack in order, with mapped operands, locals, arguments and globals |
| `Moves.CallArrayRound` | src/single_interpreters/builtin_interpreters.hpp:57-66 | on the memory of the collector the round of CALL_ARRAY is the step on the frames that its stack stands for, whether or not a collection ran |
| `Moves.SexpRound` | src/single_interpreters/boxing_interpreters.hpp:17-30 | the same for the round of SEXP |
| `Analyzer.Analyzer.CollectMarks` | src/analyzer/Analyzer.hpp:224-271 | ends normally if and only if every offset that it is led to from the public symbols is inside of the code and is the marker or an instruction with its target inside; then these offsets are marked and the targets are labels; it throws only where it is led to a byte that is no instruction |
| `Analyzer.Analyzer.AddInstruction` | src/analyzer/Analyzer.hpp:129-138 | the previous instruction joins the pairs unless this one is a label |
| `Analyzer.Analyzer.CheckLabel` | src/analyzer/Analyzer.hpp:143-148 | an offset is taken and queued once |
| `Analyzer.Analyzer.CheckNxt` | src/analyzer/Analyzer.hpp:150-159 | an offset is taken once, and only then is the walk continued |
| `Analyzer.Analyzer.ProcessLabel` | src/analyzer/Analyzer.hpp:161-220 | one walk from a label terminates and keeps the invariant of the traversal |
| `Analyzer.Analyzer.Analyze` | src/analyzer/Analyzer.hpp:279-290 | it fails exactly if a byte 0xFF is reachable; else the collected instructions are exactly the reachable ones, each once, and the pairs are instructions that fall through to one without a label |
| `Analyzer.PairsComplete` | src/analyzer/Analyzer.hpp:129-138 | all of them are pairs if and only if no two collected instructions fall through to the same offset without a label |
| `Coverage.SearchesAgree` | src/verifier/Verifier.hpp:159-190 | from an instruction the verifier goes to the same offsets as the analyzer, but not into the function of a CLOSURE |
| `Coverage.VisitedReachable` | src/analyzer/Analyzer.hpp:161-220 | every offset that the verifier visits is reached by the analyzer, if the symbols named main are public |
| `Coverage.RunCollected` | src/analyzer/Analyzer.hpp:279-290 | the analyzer collects every instruction that a run of the packed code executes or returns to |
| `Analyzer.CollectedHasIdiom` | src/analyzer/Analyzer.hpp:101-118 | what is collected can be compared by its bytes |
| `Assembly.EncodedReads` | src/analyzer/Analyzer.hpp:40-88 | an instruction in the layout of the decoders is read back with its type, low bits, arguments and designations |
| `Assembly.ProgramReads` | src/verifier/Verifier.hpp:240-250 | the scan visits the instructions of a program one by one up to the marker, and each is read back |
| `Counting.CompareBytes` | src/analyzer/Analyzer.hpp:90-99 | the loop computes the lexicographic comparison of signed bytes |
| `Counting.CompareZero` | src/analyzer/Analyzer.hpp:90-99 | zero exactly for the same bytes |
| `Counting.CompareTransitive` | src/analyzer/Analyzer.hpp:90-99 | the comparison is transitive, strictly so if one step is strict |
| `Counting.CompareLess` | src/analyzer/Analyzer.hpp:90-99 | negative exactly if the first encoding ends, or has the smaller signed byte, where the two first differ |
| `Counting.LessTotal` | src/analyzer/Analyzer.hpp:101-118 | two idioms are equivalent exactly when their bytes are the same |
| `Counting.LessTransitive` | src/analyzer/Analyzer.hpp:101-118 | the order of idioms is transitive, so with LessTotal a strict weak order |
| `Counting.CmpSingle` | src/analyzer/Analyzer.hpp:101-106 | compares two instructions by that order |
| `Counting.CmpPair` | src/analyzer/Analyzer.hpp:108-118 | compares two pairs lexicographically |
| `Counting.Group` | src/analyzer/Analyzer.hpp:298-319 | over a sorted vector every distinct idiom is counted once, with its exact multiplicity |
| `Counting.SortIdioms` | src/analyzer/Analyzer.hpp:292-293 | sorts the offsets by the order of their idioms, as a permutation |
| `Counting.SortCounter` | src/analyzer/Analyzer.hpp:320 | sorts the counter, as a permutation |
| `Counting.ReverseCounter` | src/analyzer/Analyzer.hpp:321 | then the counter is in descending order |
| `Counting.SumOfPermuted` | src/analyzer/Analyzer.hpp:298-321 | sorting keeps the sum of the counts |
| `Counting.Count` | src/analyzer/Analyzer.hpp:292-321 | every distinct instruction and pair has one entry with its exact multiplicity, in descending order, and the counts add up to the sizes of both vectors |

## Left out

- Printing, reading files, regular expressions, printf, environment, time and random numbers.
- mmap failure, munmap, signals and debug code; the old chunk is not freed.
- The string table: filling it in the constructor of the frame stack, and get_string_ptr.
- LDA, STI, STA through a reference, and the links to slots: raw stack addresses.
- The value of BINOP and of the tag tests, and the other readers of runtime.c: easy.
- Runs.CallReturns: the run between call and END is in the fragment, so without CLOSURE and CALLC; the call itself may be either.
- Interpreter.Machine.CallStackCall: the source does not check room for the three words of a frame; the model stops there with an outcome of its own.
- MaxStack.Verify: stops where an instruction ends at or before its own offset, which needs a CLOSURE that runs round 2^32; the source goes on from there, possibly for ever.
- Verifier.CollectMarks: leaving the bounds of `visited` or of the code is one outcome of the model; in the source it is undefined.
- Collector.Gc.Mark: a header with an unknown tag ends the source's process; here every object has one of the four tags.
- Interpreter.Machine.Compute: the stack effect and the throws, with the value as a parameter; a failure inside of the runtime ends the source's process.
- Interpreter.Machine.Interpret: runs for a given number of rounds, since a run need not end.
- Interpreter.Machine.MemLoad: not the variables of a closure. A slot outside of the array is an outcome of its own.
- Interpreter.Machine.MemStore: the same, and so is a store to a global or argument that does not exist, which in the source hits another word of the stack.
- Interpreter.Machine.Dispatch: one round inside the fragment; no closures, references or string literals.
- Interpreter.Machine.ClosuresCall: the jump offset is a parameter; the source reads it from the closure, where `Closures.ClosureRound` puts it.
- Closures.ClosureRound: the captured values of the closure that runs have to exist; neither verify nor the handler checks that.
- Depths.StaDepth: with the lemmas beside it, the cells that a handler leaves, not what it writes through an address.
- Frames.FrameStack.GetClosure: the closure word; the element that is then read is in the heap.
- Frames.FrameStack.constructor: without the loading of the string values.
- Strings.Lsubstring: a negative length that is accepted, and bytes from before the heap, end the model with an outcome of their own.
- Strings.Bstring: the C string of a Lama string ends with a NUL.
- Strings.BstaByte: the index is inside of the string or just after it; the source does not check that.
- Structural.Lcompare: different words stand for acyclic values, on others the source need not end; strcmp is the difference of the first bytes that differ.
- Counting.SortIdioms: std::sort is an insertion sort here; the order is the source's.
- TagHash.DeHash: stops where the source would write before its buffer.
- Runtime.Bsta: a store into a field; stores through a reference are left out.
