# Verified models of WebKit tools

A Dafny model of seven pieces of logic in the WebKit source tree, with proofs of what each is for. Run
`dafny verify dfyconfig.toml` to check all of it.

- **The keyword recogniser generator** (`KeywordTrie`, `KeywordCompare`, `KeywordCode`, `KeywordTrieNodes`).
  The generator builds a trie from the keyword table, coalesces it, orders siblings by weight and prints nested
  comparisons. The printed code is a small syntax tree with an interpreter; packed comparisons are modelled down to the
  bytes in memory, for targets that need aligned access, big-endian, little-endian and x86_64 ones, and for 8-bit and
  16-bit characters. `KeywordTrieNodes` is the generator itself, on linked objects updated in place.
- **The self-respawning thread pool** (`ThreadPool`, `ThreadPoolOrder`, `ThreadPoolRuns`). A transition relation with one program counter for each thread, a
  mutex, the set of threads and the terminate flag; steps happen in any order the mutex allows, and `rand()` is a free
  choice. A thread that has passed its check of the flag and may still respawn is called armed.
- **The LLVM module combiner** (`References`, `MetaDataMerge`, `MetaDataMeaning`, `CombinedModule`, `ModuleCombiner`).
  References are parsed out of text and renumbered; metadata nodes are merged by a worklist; attribute groups and
  declarations are shared. `ModuleCombiner` is the program with its loops and global tables.
- **The CRC and the PNG comment** (`Crc`, `ByteWords`, `Png`). The table-driven CRC against the bit-serial one, the errors it
  detects, and the chunk spliced into a PNG stream.
- **The dependency closure of the Cygwin downloader** (`PackageClosure`).
- **The two work queues** (`WorkQueues`): a fixed array with moving ends, and a deque.
- **The escape scanner of testRegExp** (`ScanString`).

`Prelude` holds shared definitions. Methods follow the loops and updates of the source and are proved against
functions; the theorems are about these functions.

## Where the code and its promises differ

- The generated recogniser returns the shortest keyword after which an identifier may end. This is the lookup of the
  leading identifier exactly when the identifier part of every keyword is a keyword (`KeywordCode.GeneratedCodeIsLookup`);
  keywords made of identifier characters meet this, and `KeywordCode.OvershootingTable` is a table that does not.
- The accessor of the thread set asserts that the mutex is held. The final clear at
  Tools/DumpRenderTree/JavaScriptThreading.cpp:150 does not take it, so there the assertion holds exactly when some
  thread happens to have the mutex (`ThreadPool.SetIsUsedUnderTheMutex`). Both cases are reachable
  (`ThreadPoolRuns.ClearWithoutMutex`, `ThreadPoolRuns.ClearWhileAnotherHoldsMutex`).
- Waiting for the threads is reliable exactly when no thread is armed at the moment the flag is set
  (`ThreadPool.JoinGuaranteedIffNoneArmed`): an armed thread does not look at the flag again. Such a moment is reachable
  (`ThreadPoolRuns.FlagSetWithArmedThread`).
- The metadata merge keeps ancestor chains exactly when a name has one parent name throughout the modules
  (`MetaDataMeaning.HomomorphismIffConsistent`): the first node of a name decides
  (`MetaDataMeaning.InconsistentModulesMerge`).
- Splitting module text and printing it again drops leading zeros of references (`References.RenderPieces`, `References.PaddedReferenceIsChanged`).

## Model

| member | source | states |
|---|---|---|
| KeywordTrie.InsertKeepsInvariant | Source/JavaScriptCore/KeywordLookupGenerator.py:103-109 | `insert` keeps a trie of one-character labels in which siblings differ in their first character and every node below the root has a value or a child |
| KeywordTrie.InsertLookup | Source/JavaScriptCore/KeywordLookupGenerator.py:103-109 | inserting a key sets the value of that key and changes the value of no other word |
| KeywordTrie.BuildIsDictionary | Source/JavaScriptCore/KeywordLookupGenerator.py:214-217 | the trie built from a table holds exactly the dictionary of the table (a later line wins), for every table and word |
| KeywordTrie.CoalesceFirstEntries | Source/JavaScriptCore/KeywordLookupGenerator.py:112-116 | no entry of the new dictionary in `coalesce` overwrites another: the children keep their number and order, and their labels only grow |
| KeywordTrie.CoalesceLookup | Source/JavaScriptCore/KeywordLookupGenerator.py:111-126 | `coalesce` keeps the value of every word, in the trie it returns and in the object it was called on |
| KeywordTrie.CoalesceShape | Source/JavaScriptCore/KeywordLookupGenerator.py:111-126 | afterwards sibling labels start with different characters and every node below the root has a value or at least two children, also when the trie returned for the root is dropped |
| KeywordTrie.SortIsPermutation | Source/JavaScriptCore/KeywordLookupGenerator.py:137 | the sort keeps the siblings as a multiset and puts them in descending order of weight |
| KeywordTrie.SortIsStable | Source/JavaScriptCore/KeywordLookupGenerator.py:137 | siblings of the same weight keep their order |
| KeywordTrie.AnySiblingOrder | Source/JavaScriptCore/KeywordLookupGenerator.py:137 | whatever permutation siblings are put into, they stay distinguishable by their first character and every word selects the same child |
| KeywordTrie.FillOutKeeps | Source/JavaScriptCore/KeywordLookupGenerator.py:128-138 | `fillOut` keeps every word, the radix shape and the branching, sets each full prefix to the parent's plus the label, makes each weight the node's own plus those of its children, and sorts all levels by weight |
| KeywordTrie.MaxLengthBounds | Source/JavaScriptCore/KeywordLookupGenerator.py:176-182 | `maxLength` is the maximum over the node's own full prefix and all children |
| KeywordTrie.PrepareIsDictionary | Source/JavaScriptCore/KeywordLookupGenerator.py:214-219 | the trie that is printed is a laid-out radix tree holding exactly the dictionary of the table |
| KeywordCompare.Load2 | Source/JavaScriptCore/KeywordLookupGenerator.py:237-263 | a two-character load from memory is the packed pair of the two characters, on every target that packs |
| KeywordCompare.Load4 | Source/JavaScriptCore/KeywordLookupGenerator.py:246-270 | a four-character load is the packed quad, for 8-bit and 16-bit characters |
| KeywordCompare.QuadIsInjective | Source/JavaScriptCore/KeywordLookupGenerator.py:248-255 | two packed quads are equal exactly when all four characters are |
| KeywordCompare.CompareIsPointwise | Source/JavaScriptCore/KeywordLookupGenerator.py:222-302 | on every target and for both character widths a comparison of 1 to 8 characters, the overlapping seven-character form included, holds exactly when all characters are equal |
| KeywordCode.ReadsBelowMaxTokenLength | Source/JavaScriptCore/KeywordLookupGenerator.py:140-190 | no test of the printed code, on any path of any laid-out trie, reads at maxTokenLength or beyond; this covers the rewound tests and the character after a keyword |
| KeywordCode.MaxTokenLengthIsLeast | Source/JavaScriptCore/KeywordLookupGenerator.py:184-190 | maxTokenLength is the least such bound |
| KeywordCode.CompilableIffShortLabels | Source/JavaScriptCore/KeywordLookupGenerator.py:157-164 | every printed comparison has a macro exactly when all labels below the root have 1 to 8 characters |
| KeywordCode.ComparisonForm | Source/JavaScriptCore/KeywordLookupGenerator.py:152-164 | a label of three characters below the root is compared as four characters from one place back, every other label as it is; what is compared is always the end of the full prefix |
| KeywordCode.TestSelectsChild | Source/JavaScriptCore/KeywordLookupGenerator.py:152-164 | the test printed for a child, widened from three characters to four or not, holds exactly when the child's label comes next in the buffer |
| KeywordCode.ChainSelects | Source/JavaScriptCore/KeywordLookupGenerator.py:151-174 | the else-if chain runs the code of the one child that the buffer selects, or falls through |
| KeywordCode.RunFindsShortest | Source/JavaScriptCore/KeywordLookupGenerator.py:140-174 | the code of a subtree returns the shortest word of the subtree after which an identifier may end, and falls through exactly when there is none |
| KeywordCode.GeneratedCodeFindsShortestKeyword | Source/JavaScriptCore/KeywordLookupGenerator.py:184-219 | the same for the whole generated function, for every table, weighting, target, width and buffer of maxTokenLength characters |
| KeywordCode.OvershootFails | Source/JavaScriptCore/KeywordLookupGenerator.py:140-174 | a keyword whose identifier part is no keyword gives a buffer on which the code differs from the lookup |
| KeywordCode.GeneratedCodeIsLookup | Source/JavaScriptCore/KeywordLookupGenerator.py:103-219 | the generated code is the dictionary lookup of the maximal leading identifier on every buffer if and only if the identifier part at the start of each keyword is itself a keyword |
| KeywordCode.OvershootingTable | Source/JavaScriptCore/KeywordLookupGenerator.py:103-219 | such a table and buffer: one keyword of an identifier character and another |
| KeywordCode.ShortKeywordsCompile | Source/JavaScriptCore/KeywordLookupGenerator.py:157-164 | keywords of at most 8 characters always give code that compiles |
| KeywordCode.IdentifierKeywordsAreFound | Source/JavaScriptCore/KeywordLookupGenerator.py:103-219 | so it is for all keywords made of identifier-part characters |
| KeywordCode.KeywordsFit | Source/JavaScriptCore/KeywordLookupGenerator.py:189-195 | every keyword and the character after it fit into maxTokenLength |
| KeywordTrieNodes.Node.Insert | Source/JavaScriptCore/KeywordLookupGenerator.py:103-109 | the recursive method on linked, mutable nodes computes the insertion on values and allocates only new nodes |
| KeywordTrieNodes.Node.CoalesceChildren | Source/JavaScriptCore/KeywordLookupGenerator.py:112-116 | the loop that builds the new dictionary while it coalesces the children in place |
| KeywordTrieNodes.Node.Coalesce | Source/JavaScriptCore/KeywordLookupGenerator.py:111-126 | what the object becomes and what is returned |
| KeywordTrieNodes.Node.FillOut | Source/JavaScriptCore/KeywordLookupGenerator.py:128-138 | the pass that sets prefixes and weights in place and reorders the children |
| KeywordTrieNodes.SortNodes | Source/JavaScriptCore/KeywordLookupGenerator.py:137 | a stable insertion in descending order of weight, and a permutation |
| KeywordTrieNodes.Node.MaxLength | Source/JavaScriptCore/KeywordLookupGenerator.py:176-182 | the loop computes the longest full prefix |
| KeywordTrieNodes.Node.PrintSubTree | Source/JavaScriptCore/KeywordLookupGenerator.py:140-174 | the loop prints the code that the interpreter runs |
| KeywordTrieNodes.Generate | Source/JavaScriptCore/KeywordLookupGenerator.py:214-219 | the whole generator over mutable nodes gives the code and the bound that the theorems above are about |
| ThreadPool.ExecutionKeepsInv | Tools/DumpRenderTree/JavaScriptThreading.cpp:63-153 | the inductive invariant (mutex ownership, detaching, the set, the main thread) holds all along every execution |
| ThreadPool.ReachableInv | Tools/DumpRenderTree/JavaScriptThreading.cpp:63-153 | and so in every reachable state |
| ThreadPoolOrder.ThreadsLiveInOrder | Tools/DumpRenderTree/JavaScriptThreading.cpp:63-121 | in every execution the critical sections a thread enters are the beginning of: make the context, make the script, then evaluate, allocate and check at least once and any number of times, perhaps replace itself, clean up; and all of that once it has exited |
| ThreadPoolOrder.OnlyReplacedThreadsEnd | Tools/DumpRenderTree/JavaScriptThreading.cpp:99-121 | in every reachable state before the flag is set, a thread that is at its cleanup or has exited is detached: threads that do not respawn continue their loop |
| ThreadPoolOrder.FourLiveThreads | Tools/DumpRenderTree/JavaScriptThreading.cpp:105-131 | so until the flag is set the set has four members that are alive, whenever no JavaScript thread has the mutex |
| ThreadPoolOrder.StartsOnce | Tools/DumpRenderTree/JavaScriptThreading.cpp:71-83 | a thread never makes its context or its script again |
| ThreadPoolOrder.EachRoundWorks | Tools/DumpRenderTree/JavaScriptThreading.cpp:83-107 | between two visits to the decision it evaluates the script and then allocates |
| ThreadPoolOrder.ClearedThreadsStayOut | Tools/DumpRenderTree/JavaScriptThreading.cpp:147-150 | after the final clear no thread that was waited for is in the set |
| ThreadPool.SetIsAttachedThreads | Tools/DumpRenderTree/JavaScriptThreading.cpp:105-145 | from the end of startJavaScriptThreads to the final clear, whenever no JavaScript thread has the mutex, the set has exactly four members: the threads created and not detached |
| ThreadPool.SnapshotHasFourThreads | Tools/DumpRenderTree/JavaScriptThreading.cpp:140-145 | the size assertion in stopJavaScriptThreads holds whenever it is evaluated |
| ThreadPool.SetIsUsedUnderTheMutex | Tools/DumpRenderTree/JavaScriptThreading.cpp:54-59 | who uses the set (adds, removes, copies, clears) has the mutex if and only if the use is not the final clear; what the accessor asserts, that somebody has it, fails exactly at a final clear with the mutex free, that is, with no thread in a critical section |
| ThreadPool.ChangesAreUses | Tools/DumpRenderTree/JavaScriptThreading.cpp:54-153 | every step that changes the set or the copy is one of these uses |
| ThreadPool.FewArmed | Tools/DumpRenderTree/JavaScriptThreading.cpp:99-115 | in every reachable state at most four threads are between their check of the flag and their respawn |
| ThreadPool.FewRespawnsAfterFlag | Tools/DumpRenderTree/JavaScriptThreading.cpp:83-138 | after the flag is set at most four more threads are created in any execution, and no thread created after that point ever gets to respawn |
| ThreadPool.MeasureDrops | Tools/DumpRenderTree/JavaScriptThreading.cpp:83-120 | after the flag is set every thread step lowers a natural number and no step of the main thread changes it |
| ThreadPool.FlaggedExecutionsEnd | Tools/DumpRenderTree/JavaScriptThreading.cpp:83-153 | so every execution after the flag is set has a bounded number of steps, of all threads together |
| ThreadPool.SomethingCanStep | Tools/DumpRenderTree/JavaScriptThreading.cpp:83-145 | until all threads have exited one of them can step, or the main thread can release the mutex |
| ThreadPool.StopsOnlyWhenDone | Tools/DumpRenderTree/JavaScriptThreading.cpp:83-153 | after the flag is set some step is possible until stopJavaScriptThreads has finished and every thread ever created has exited: no deadlock |
| ThreadPool.ArmedThreadEscapes | Tools/DumpRenderTree/JavaScriptThreading.cpp:99-148 | if a thread is armed when the flag is set, there is an execution in which it detaches itself while stopJavaScriptThreads waits for it |
| ThreadPool.JoinGuaranteedIffNoneArmed | Tools/DumpRenderTree/JavaScriptThreading.cpp:99-153 | the join guarantee (the waited-for threads are the set, none is detached, each has exited once waited for) holds in every execution if and only if no thread is armed when the flag is set |
| ThreadPoolRuns.FlagSetWithArmedThread | Tools/DumpRenderTree/JavaScriptThreading.cpp:63-138 | an execution from the start after which a thread is armed when the flag is set, and the join guarantee fails |
| ThreadPoolRuns.FlagSetWithNoneArmed | Tools/DumpRenderTree/JavaScriptThreading.cpp:123-138 | one after which none is armed, and the guarantee holds |
| ThreadPoolRuns.ClearWithoutMutex | Tools/DumpRenderTree/JavaScriptThreading.cpp:123-150 | an execution from the start to a final clear with the mutex free: what the accessor asserts is false |
| ThreadPoolRuns.ClearWhileAnotherHoldsMutex | Tools/DumpRenderTree/JavaScriptThreading.cpp:109-150 | one to a final clear while a detached thread that was waited for has the mutex |
| ThreadPool.AllFourExited | Tools/DumpRenderTree/JavaScriptThreading.cpp:133-153 | and then four different threads have been waited for, all have exited, and no other thread is attached |
| References.ToIntToString | Tools/ReducedFTL/combineModules.rb:57 | a number printed and read again is the number |
| References.ToStringToInt | Tools/ReducedFTL/combineModules.rb:57 | digits read and printed again are the digits, exactly when they have no superfluous leading zeros |
| References.DigitsRead | Tools/ReducedFTL/combineModules.rb:57 | the digit at place k of 0123456789 reads as k |
| References.ReadingIsPositional | Tools/ReducedFTL/combineModules.rb:57 | reading is positional: ToInt(a + b) is ToInt(a) times ten to the length of b, plus ToInt(b) |
| References.AllReferencesFound | Tools/ReducedFTL/combineModules.rb:48-60 | the pieces hold exactly the references a search at every place of the text finds: `!` or `#` followed by a digit, with the number the digits make, in order |
| References.Parse | Tools/ReducedFTL/combineModules.rb:48-60 | the loop computes the list of pieces: text up to the leftmost reference, the reference, and so on |
| References.RenderPieces | Tools/ReducedFTL/combineModules.rb:48-60 | the pieces concatenate back to the text if and only if no reference in it has leading zeros |
| References.PaddedReferenceIsChanged | Tools/ReducedFTL/combineModules.rb:48-60 | `#01` is changed to `#1` |
| References.PiecesOfRender | Tools/ReducedFTL/combineModules.rb:48-60 | splitting undoes printing for every list of pieces that can come from a text |
| References.RewriteEach | Tools/ReducedFTL/combineModules.rb:34-45 | rewriting fails exactly when some reference is undefined, and otherwise renumbers piece by piece |
| References.RewrittenTextSplits | Tools/ReducedFTL/combineModules.rb:164-189 | the rewritten text splits into the same pieces with only the references renumbered |
| MetaDataMerge.SwapRemovePlaces | Tools/ReducedFTL/combineModules.rb:149-150 | the last node takes the place of the removed one and all others stay |
| MetaDataMerge.SwapRemoveTakes | Tools/ReducedFTL/combineModules.rb:149-150 | the swap with the last element and the pop remove exactly the node at the index |
| MetaDataMerge.SweepVisitsAll | Tools/ReducedFTL/combineModules.rb:144-158 | each pass of the inner loop looks at every node present at its start exactly once |
| MetaDataMerge.PendingInOrder | Tools/ReducedFTL/combineModules.rb:126-128 | the worklist holds the nodes with a parent in the order of the lines |
| MetaDataMerge.SweepGoesForward | Tools/ReducedFTL/combineModules.rb:144-158 | up to the first node it can resolve a pass looks at the nodes in order and changes nothing |
| MetaDataMerge.SweepConserves | Tools/ReducedFTL/combineModules.rb:144-158 | the nodes a pass resolves are exactly those it removes |
| MetaDataMerge.SweepProgress | Tools/ReducedFTL/combineModules.rb:144-158 | a pass removes a node exactly when some pending node can be resolved at once |
| MetaDataMerge.ResolvableAfter | Tools/ReducedFTL/combineModules.rb:146-154 | resolving a node neither makes nor breaks the condition that all pending nodes are grounded |
| MetaDataMerge.ResolvableProgress | Tools/ReducedFTL/combineModules.rb:143-160 | if all pending nodes are grounded each pass removes at least one |
| MetaDataMerge.EndsIffResolvable | Tools/ReducedFTL/combineModules.rb:143-160 | the outer loop ends if and only if every pending node is grounded: mapped parent, known name, or a pending node that is its parent or namesake and is grounded; at most one pass per node is needed |
| MetaDataMerge.SweepsAreResolveAll | Tools/ReducedFTL/combineModules.rb:143-160 | any number of passes that empties the worklist gives the result of the loop |
| MetaDataMerge.EachResolvedOnce | Tools/ReducedFTL/combineModules.rb:143-160 | over the whole loop every pending node is resolved exactly once |
| MetaDataMeaning.ReadLineKeeps | Tools/ReducedFTL/combineModules.rb:119-128 | reading a metadata line keeps the invariant of table and renumbering, and only extends the table |
| MetaDataMeaning.ResolveKeeps | Tools/ReducedFTL/combineModules.rb:146-154 | so does resolving a node |
| MetaDataMeaning.MergeKeepsNames | Tools/ReducedFTL/combineModules.rb:119-160 | the combined table is dense, has no duplicate names, has every parent before its children, and every node of every module is sent to an entry of its name |
| MetaDataMeaning.EntryForEachName | Tools/ReducedFTL/combineModules.rb:119-160 | the table has an entry for a name exactly when some module has a node of that name |
| MetaDataMeaning.ChainsIffConsistent | Tools/ReducedFTL/combineModules.rb:119-160 | for any table and maps that keep names, chains of ancestor names are kept if and only if a name has one parent name throughout the modules |
| MetaDataMeaning.HomomorphismIffConsistent | Tools/ReducedFTL/combineModules.rb:119-160 | every module's map keeps the whole chain of ancestor names if and only if a name has the same parent name throughout the modules |
| MetaDataMeaning.InconsistentModulesMerge | Tools/ReducedFTL/combineModules.rb:119-160 | two modules that merge although they are not consistent: an ancestor is lost |
| MetaDataMeaning.DuplicateIndexMakesCycle | Tools/ReducedFTL/combineModules.rb:126-154 | a module that defines an index twice can give an entry that is its own parent |
| MetaDataMeaning.RootedModulesMerge | Tools/ReducedFTL/combineModules.rb:143-160 | if all parent chains inside the modules end, merging terminates whatever the table held before |
| CombinedModule.LinesAreRead | Tools/ReducedFTL/combineModules.rb:117-128 | the nodes and the declarations of a module are those of its lines |
| CombinedModule.LastAttributesWin | Tools/ReducedFTL/combineModules.rb:129-138 | the body of an attribute group is that of the last line with its number |
| CombinedModule.AttributesMean | Tools/ReducedFTL/combineModules.rb:129-138 | attribute groups are entered without duplicates, the table only grows, and each number of the module is mapped to an entry with the body of its group |
| CombinedModule.AttributesComeFromLines | Tools/ReducedFTL/combineModules.rb:129-138 | no group is made up |
| CombinedModule.RewritingPreservesMeaning | Tools/ReducedFTL/combineModules.rb:164-189 | a text can be rewritten exactly when its module defines all its references; the result splits into the same pieces, and each reference denotes the same attribute body or metadata name as in its own module |
| CombinedModule.DeclareMeans | Tools/ReducedFTL/combineModules.rb:175-190 | declarations are entered in rewritten form and without duplicates, and nothing else is entered |
| CombinedModule.CombiningPreservesMeaning | Tools/ReducedFTL/combineModules.rb:89-211 | the combiner finishes exactly when every worklist can be emptied and every module defines its own references; then every definition and declaration is there with the meaning it had, without duplicate attribute groups or declarations, and the metadata is the merged table, which is dense, and acyclic if no module defines an index twice |
| CombinedModule.FiniteRun | Tools/ReducedFTL/combineModules.rb:91-191 | a run that finishes or raises within some number of passes shows what the program does; one still busy after as many passes as a module has lines never ends |
| CombinedModule.OutcomesAreExact | Tools/ReducedFTL/combineModules.rb:91-191 | on all inputs the program finishes with a combined module, raises at an undefined reference or runs for ever, and which of these is said exactly |
| CombinedModule.ReferencesKeepAncestors | Tools/ReducedFTL/combineModules.rb:119-189 | with consistent parents a metadata reference in a combined definition denotes a node with the same chain of ancestor names |
| ModuleCombiner.Combiner.EnterAttributes | Tools/ReducedFTL/combineModules.rb:132-138 | the back map and the list of groups stay in step; the number is the position of the body |
| ModuleCombiner.Combiner.ReadModule | Tools/ReducedFTL/combineModules.rb:104-141 | the reading loop computes the four tables of a module and extends the global ones |
| ModuleCombiner.Combiner.EnterNode | Tools/ReducedFTL/combineModules.rb:119-128 | a root is entered and mapped, a node with a parent put off |
| ModuleCombiner.Combiner.SweepOnce | Tools/ReducedFTL/combineModules.rb:144-159 | the inner loop with the swap and pop computes one pass |
| ModuleCombiner.Combiner.ResolveMetaData | Tools/ReducedFTL/combineModules.rb:143-160 | the nested loops over the shrinking worklist do exactly the given number of passes, or fewer if it gets empty |
| ModuleCombiner.Combiner.Print | Tools/ReducedFTL/combineModules.rb:164-171 | the printing loop gives the rewritten text, or fails |
| ModuleCombiner.Combiner.EnterDeclarations | Tools/ReducedFTL/combineModules.rb:175-190 | the loop over the declarations of a module |
| ModuleCombiner.Combiner.AddModule | Tools/ReducedFTL/combineModules.rb:93-191 | one turn of the main loop changes the tables as specified, raises, or is still busy |
| ModuleCombiner.Combiner.CombineAll | Tools/ReducedFTL/combineModules.rb:91-191 | for every list of modules and every bound on passes the program has the outcome that the theorems are about |
| Crc.TableEntry | Tools/DumpRenderTree/CyclicRedundancyCheck.cpp:39-46 | the inner loop shifts a byte through the bit-serial register eight times |
| Crc.MakeCrcTable | Tools/DumpRenderTree/CyclicRedundancyCheck.cpp:36-48 | the table holds that entry for every byte |
| Crc.CrcTable.ComputeCrc | Tools/DumpRenderTree/CyclicRedundancyCheck.cpp:50-63 | for every buffer, and whether or not the table was filled before, the result is the bit-serial CRC: reflected polynomial 0xEDB88320, all ones at the start, complement at the end (section 3.4 of RFC 2083) |
| Crc.StepXor | Tools/DumpRenderTree/CyclicRedundancyCheck.cpp:41-44 | the register is linear |
| Crc.EightStepsByTable | Tools/DumpRenderTree/CyclicRedundancyCheck.cpp:61 | eight shifts at once are a look-up of the low byte and a shift of the rest |
| Crc.TableFeedsByte | Tools/DumpRenderTree/CyclicRedundancyCheck.cpp:61 | one turn of the loop feeds the eight bits of the byte |
| Crc.FeedIsInjectiveInState | Tools/DumpRenderTree/CyclicRedundancyCheck.cpp:60-61 | the update is injective in the register |
| Crc.FeedIsInjectiveInBits | Tools/DumpRenderTree/CyclicRedundancyCheck.cpp:60-61 | up to 32 bits fed from the same register are told apart |
| Crc.ChecksumOfNothing | Tools/DumpRenderTree/CyclicRedundancyCheck.cpp:59-62 | the CRC of the empty buffer is 0 |
| Crc.ChecksumIsRemainder | Tools/DumpRenderTree/CyclicRedundancyCheck.cpp:59-62 | the CRC of at least four bytes is the complement of the remainder, from a zero register, of the message with its first 32 bits inverted |
| Crc.CheckValue | Tools/DumpRenderTree/CyclicRedundancyCheck.cpp:36-63 | the CRC of the characters 123456789 is 0xCBF43926, the check value published for it |
| Crc.BurstsAreDetected | Tools/DumpRenderTree/CyclicRedundancyCheck.cpp:50-63 | two buffers of the same length that differ only within 32 consecutive bits, wherever these start, have different CRCs |
| Crc.FourByteErrorsAreDetected | Tools/DumpRenderTree/CyclicRedundancyCheck.cpp:50-63 | in particular buffers that differ only inside four consecutive bytes |
| Png.AppendIntToVector | Tools/DumpRenderTree/PixelDumpSupport.cpp:79-87 | the four bytes of the integer are appended, most significant first |
| ByteWords.ReadIntBytes | Tools/DumpRenderTree/PixelDumpSupport.cpp:79-87 | and read back as the integer |
| ByteWords.SizeIsBase256 | Tools/DumpRenderTree/PixelDumpSupport.cpp:79-87 | four bytes are read as their base-256 value, most significant first |
| Png.NamesAreAscii | Tools/DumpRenderTree/PixelDumpSupport.cpp:91-112 | the names in the chunks are the ASCII codes of IHDR, tEXt and checksum, and the signature is that of section 3.1 of RFC 2083 |
| Png.ConvertChecksumToPNGComment | Tools/DumpRenderTree/PixelDumpSupport.cpp:89-105 | prefix, checksum and CRC are appended |
| Png.CommentIsValidChunk | Tools/DumpRenderTree/PixelDumpSupport.cpp:89-105 | what is appended is a valid chunk with 41 data bytes (sections 3.2 and 4.2.7 of RFC 2083) |
| Png.WriteInChunks | Tools/DumpRenderTree/PixelDumpSupport.cpp:127-137 | the loop writes everything, or as much as the output takes |
| Png.PrintPNG | Tools/DumpRenderTree/PixelDumpSupport.cpp:114-138 | the announced Content-Length is the length of the spliced stream, and the bytes written are that stream as far as the output has room, all of it if there is room for it |
| Png.HeaderSplits | Tools/DumpRenderTree/PixelDumpSupport.cpp:107-112 | the offset is the end of the header chunk of every stream that starts with one |
| Png.SplicedStreamHasComment | Tools/DumpRenderTree/PixelDumpSupport.cpp:107-138 | for every well-formed stream the spliced stream parses as the same chunks with one valid tEXt chunk right after the header; without it, it is the input |
| PackageClosure.Downloader.AddPackageAndDependencies | Tools/CygwinDownloader/cygwin-downloader.py:129-137 | the recursion terminates on every graph, flags exactly what it adds, leaves nothing that an added package requires outside, and adds only what the name needs |
| PackageClosure.Downloader.MarkRequired | Tools/CygwinDownloader/cygwin-downloader.py:139-141 | the loop over flags that the recursion sets ends with the least set that contains the marked packages and is closed under requirements among known packages; the flags are exactly that set |
| PackageClosure.Downloader.DownloadAll | Tools/CygwinDownloader/cygwin-downloader.py:143-147 | each flagged package is downloaded once, in order, numbered up to the announced total |
| PackageClosure.Downloader.DownloadRequired | Tools/CygwinDownloader/cygwin-downloader.py:125-147 | the packages downloaded are exactly those a chain of requirements leads to from a marked one |
| PackageClosure.LeastClosedIsReachable | Tools/CygwinDownloader/cygwin-downloader.py:129-141 | the least closed set is the set of packages reachable from the marked ones, so no order of listing matters |
| PackageClosure.SelectedKeepsOrder | Tools/CygwinDownloader/cygwin-downloader.py:143-147 | packages are downloaded in the order of the list: whatever holds along the list holds along the downloads |
| PackageClosure.SelectedHasAll | Tools/CygwinDownloader/cygwin-downloader.py:143-147 | a list without duplicates selects each member of a set once, so the count ends at the size of the set |
| WorkQueues.WorkQueue.SetFrozen | Tools/DumpRenderTree/WorkQueue.h:43 | freezing changes nothing but whether items are accepted |
| WorkQueues.WorkQueue.Queue | Tools/DumpRenderTree/WorkQueue.cpp:52-63 | an item is appended, or deleted at once when the queue is frozen |
| WorkQueues.WorkQueue.Dequeue | Tools/DumpRenderTree/WorkQueue.cpp:65-73 | the first item is taken |
| WorkQueues.WorkQueue.Count | Tools/DumpRenderTree/WorkQueue.cpp:75-78 | the distance of the two ends is the number of waiting items |
| WorkQueues.WorkQueue.ClearQueue | Tools/DumpRenderTree/WorkQueue.cpp:80-89 | all waiting items are deleted in order and the array can be used from the start again |
| WorkQueues.WorkQueue.ProcessWork | Tools/DumpRenderTree/WorkQueue.cpp:91-104 | the items run are the shortest prefix that ends in a load starter, or all; the result is true exactly when none starts a load |
| WorkQueues.RunLengthIs | Tools/DumpRenderTree/WorkQueue.cpp:91-104 | the loop's stopping point is that prefix |
| WorkQueues.CallQueue | Tools/DumpRenderTree/WorkQueue.cpp:52-104 | over every sequence of calls with at most 1024 accepted items between clears the array queue does what the sequence does |
| WorkQueues.CallManager | Tools/WebKitTestRunner/WorkQueueManager.cpp:111-225 | every sequence of calls on the deque has the effect it has on the sequence |
| WorkQueues.FirstInFirstOut | Tools/DumpRenderTree/WorkQueue.cpp:52-104 | over every sequence of calls the accepted items are those that left, in that order, followed by those that wait |
| WorkQueues.EachItemDeletedOnce | Tools/DumpRenderTree/WorkQueue.cpp:52-104 | every submitted item waits or has been deleted exactly once |
| WorkQueues.RunInvokesWhatItTakes | Tools/DumpRenderTree/WorkQueue.cpp:91-104 | the items that leave in a run are exactly those it invokes, in the same order, and the others stay; a run that returns true leaves the queue empty, one that returns false ends with the item that starts a load |
| WorkQueues.InvokedItemsLeave | Tools/DumpRenderTree/WorkQueue.cpp:80-104 | over every sequence of calls the items that have left are those invoked and those cleared, each as often |
| WorkQueues.NothingInvokedTwice | Tools/DumpRenderTree/WorkQueue.cpp:91-104 | with different items nothing is invoked twice |
| WorkQueues.FrozenByLastSet | Tools/DumpRenderTree/WorkQueue.h:43 | the array queue turns items away exactly if the last setting froze it |
| WorkQueues.RoomFor1024 | Tools/DumpRenderTree/WorkQueue.cpp:35-63 | without a clear exactly 1024 items can be accepted |
| WorkQueues.OneLoadForEachFalse | Tools/DumpRenderTree/WorkQueue.cpp:91-104 | runs return false exactly as often as a load is started |
| WorkQueues.WorkQueueManager.Enqueue | Tools/WebKitTestRunner/WorkQueueManager.cpp:215-225 | an item is appended, or deleted at once while a load is in flight |
| WorkQueues.WorkQueueManager.ClearWorkQueue | Tools/WebKitTestRunner/WorkQueueManager.cpp:111-115 | the queue is emptied and open again |
| WorkQueues.WorkQueueManager.ProcessWorkQueue | Tools/WebKitTestRunner/WorkQueueManager.cpp:117-126 | as for the array queue; after a load the queue stays closed |
| WorkQueues.ManagerIsQueue | Tools/WebKitTestRunner/WorkQueueManager.cpp:111-126 | every sequence of calls on the deque is a sequence of calls on the queue with the closing and opening made explicit |
| WorkQueues.ManagerInvokesOnce | Tools/WebKitTestRunner/WorkQueueManager.cpp:117-126 | on the deque, too, what is invoked leaves and nothing is invoked twice |
| WorkQueues.ClosedInFlight | Tools/WebKitTestRunner/WorkQueueManager.cpp:111-225 | the deque turns items away exactly while a load is in flight: one was started by a run and no run and no clear followed |
| WorkQueues.ManagerKeepsOrder | Tools/WebKitTestRunner/WorkQueueManager.cpp:111-225 | so order, deletion and one load for each false result hold for the deque as well |
| ScanString.Scan | Source/JavaScriptCore/testRegExp.cpp:239-303 | the loop with its index and escape flag computes the recursive scan |
| ScanString.LettersMean | Source/JavaScriptCore/testRegExp.cpp:247-284 | a backslash and a letter of abtnvfr append the controls 7 to 13 in that order, a backslash and 0 appends 0, and every other letter but u appends itself |
| ScanString.UnicodeEscapes | Source/JavaScriptCore/testRegExp.cpp:278-284 | a backslash and u fail if fewer than four characters follow or nothing is read there, and otherwise append what is read modulo 2^16 |
| ScanString.HexDigitsMean | Source/JavaScriptCore/testRegExp.cpp:281 | a hexadecimal digit is its place in 0123456789abcdef, in either case |
| ScanString.HexIsPositional | Source/JavaScriptCore/testRegExp.cpp:281 | four digits are read from left to right, each worth sixteen of the next |
| ScanString.ScanToken | Source/JavaScriptCore/testRegExp.cpp:244-300 | one written code unit moves the scan past it and appends what it means, whatever follows |
| ScanString.ScanTokens | Source/JavaScriptCore/testRegExp.cpp:239-303 | scanning any mixture of raw, lettered and hexadecimal escapes up to the terminator returns the terminator's index and appends exactly what was encoded |
| ScanString.ScanReadsTokens | Source/JavaScriptCore/testRegExp.cpp:239-303 | a scan that returns an index has read valid codings up to the terminator there and appended what they mean, if the `u` escapes before it have four digits |
| ScanString.ScanAcceptsExactly | Source/JavaScriptCore/testRegExp.cpp:239-303 | the scan returns an index exactly when the terminator is there and valid codings fill the buffer up to it |
| ScanString.ScanUnterminated | Source/JavaScriptCore/testRegExp.cpp:239-303 | without a terminator the scan returns -1 |
| ScanString.HexRoundTrip | Source/JavaScriptCore/testRegExp.cpp:273-280 | four digits printed for a code unit are read back as it |
| ScanString.ScanUndoesEscape | Source/JavaScriptCore/testRegExp.cpp:239-303 | every string of 16-bit code units has a printable ASCII form that scans back to it, followed by the terminator and any suffix |

## Left out

- Text formatting of the generated C++, its `shouldCreateIdentifier` switch, `parseKeywords` and the command line of the generator: the table is given and the code is a syntax tree.
- The big-endian 16-bit quad macro at Source/JavaScriptCore/KeywordLookupGenerator.py:243-244: it is used under x86_64 only, where it is not selected.
- Keyword characters are taken to be 7-bit (`AsciiTable`), as they are printed as C character literals, and labels to have at most 8 characters (`Compilable`), as there is no macro for more.
- KeywordTrie.FillOutKeeps: weights are exact reals; the source adds floating-point numbers, whose rounding can only change the order of siblings, and the order does not matter to any theorem.
- JavaScript evaluation, garbage collection and the thread library: steps under the mutex, fresh identifiers, and an abstract wait.
- ThreadPool: nothing is said about progress before the flag is set, where the threads run for as long as they like.
- ThreadPool: waiting for a thread that is detached is abstracted to a wait that returns. In Source/WTF/wtf/ThreadingPthreads.cpp:250-269 the join of a detached thread is an error, and the function then asserts that the thread is joinable and uses an entry of the thread map that a detached thread removes when it exits.
- MetaDataMeaning.MergeKeepsNames: is about modules that define no metadata index twice, which LLVM guarantees; otherwise a later node takes the number over. That the table is acyclic is shown for these modules only; `MetaDataMeaning.DuplicateIndexMakesCycle` is one of the others.
- ModuleCombiner.Combiner.CombineAll: the bound on passes is not in the program; it lets a method that terminates describe a program that may not. The program itself is all bounds together (`CombinedModule.OutcomesAreExact`).
- The combiner: numbered headers of definitions, passing an already combined module through, and the line patterns are not modelled; lines arrive classified, other LLVM syntax is opaque text.
- PNG: data shorter than the 33 bytes before the insertion point, an output that fails once and later accepts bytes again, MD5, bitmaps and rendering.
- Tools/WebKitTestRunner/CyclicRedundancyCheck.cpp and the chunk insertion in Tools/WebKitTestRunner/PixelDumpSupport.cpp are copies of the code modelled here.
- The downloader's parsing of setup.ini, its network access and its final call of setup.exe; the sorted list of package names is an argument.
- Work items are a load starter or not; an item that queues more work while it is invoked is not modelled.
- ScanString.ScanTokens: says nothing about a `\u` that is not followed by four hexadecimal digits; there `sscanf` is an arbitrary function. `char` is taken to be signed.
- `parseRegExpLine`, `parseTestLine`, option tables and file buffers of testRegExp.
