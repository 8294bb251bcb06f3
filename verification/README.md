# Verified models of WebKit's generators and test tools

The project models five programs of the WebKit tree whose behaviour is more than glue, and a few
stateful pieces beside them, and proves what each is for.

- **The keyword recogniser generator** (`Keyword*.dfy`, `WideCompare.dfy`). It builds a trie of the
  JavaScript keywords, merges chains, weighs and sorts it, and prints nested tests that compare
  several characters with one machine load. The model takes it from the table to running the
  printed code on the bytes of a buffer, for every table, CPU variant and character width.
- **The graph that ReducedFTL's complex test builds** (`Ssa*.dfy`). Loops and diamonds in static
  single assignment form, emitted through a builder; an instruction-by-instruction semantics in
  machine arithmetic is held against a structured interpreter.
- **The cyclic redundancy check and the PNG comment** of DumpRenderTree (`Crc.dfy`, `Png.dfy`).
  The table-driven loop against a bit-serial register, and that against polynomial long division;
  the splice against a parser of PNG chunks.
- **The JavaScript threads** of DumpRenderTree (`ThreadProtocol.dfy`): threads that replace
  themselves while a stop request waits for them, as a state machine over all interleavings.
- **The module combiner** of ReducedFTL (`MetaDataResolver.dfy`, `ModuleCombiner.dfy`,
  `ModuleMeaning.dfy`, `CombinedMeaning.dfy`, `CombinerObjects.dfy`): interning attributes and
  metadata of many modules and renumbering the references to them.
- **Choosing Cygwin packages** (`PackageClosure.dfy`), **resolving module names** in the jsc shell
  (`ModulePaths.dfy`), **salts for media devices** in WebKitTestRunner (`DeviceSalts.dfy`) and the
  **work queue** of DumpRenderTree (`WorkQueues.dfy`).

Programs that update objects, maps or arrays in place are classes and methods with loops, each tied
to a function about which the lemmas speak. `dafny verify dfyconfig.toml` verifies everything.

Some promises turn out to hold under a condition only. Each is stated as an equivalence with its
condition, with an input on which it fails:

- The generator prints a macro that does not exist for segments of nine characters or more
  (`RecogniserCompiles`, `NineLettersDoNotCompile`). It returns the shortest keyword that stands, so
  every standing keyword exactly when no keyword begins another (`ReturnsEveryExactly`,
  `LongerKeywordIsMissed`); when keywords consist of identifier characters only one can stand
  (`RecogniserReturnsTheKeyword`).
- With one variable the complex test's graph does not mean what its constructs say on every memory
  (`MeaningPreservedExactly`). On the slots that the test itself writes it does
  (`WrittenSlotsPreserveMeaning`).
- Stopping can return while a thread created by a late respawn still runs
  (`StopJoinsWorkersExactly`, `StopCanLeaveWorker`), and while a replaced thread still cleans up
  (`StopJoinsEveryThreadExactly`, `StopCanLeaveCleanup`).
- Metadata keys can collide across different contents (`MetaDataKeptExactly`,
  `BranchWeightsCanMerge`), the resolver's loop need not end (`ResolverEndsExactly`,
  `UndefinedParentNeverEnds`), and an entry can become its own parent
  (`ResolverKeepsOrderExactly`, `SelfNamedIsNotOrdered`).
- A result of module resolution is canonical, and re-resolving it the identity, only when the part of
  the base directory that it keeps is canonical (`ResultCanonicalExactly`,
  `ReresolvingIsIdentityExactly`, `DottedDirectoryStays`); the directory of a resolved module is not
  the directory the module names (`ReferrerIsNotDirectoryExactly`, `ModuleIsNotDirectory`); and a
  name from the root starts afresh (`ResolutionComposesExactly`, `RootedNameDoesNotCompose`).

## Model

| member | source | states |
|---|---|---|
| `KeywordTrie.InsertMeaning` | webkit/Source/JavaScriptCore/KeywordLookupGenerator.py:103-109 | Inserting a word changes the lookup of exactly that word and keeps every node's children distinguishable by one character. |
| `KeywordTrie.InsertAllMeaning` | webkit/Source/JavaScriptCore/KeywordLookupGenerator.py:214-217 | The trie of a keyword table looks up every string as the table read as a map does, a later entry overriding an earlier one. |
| `KeywordTrie.CoalesceKidsKeepsEach` | webkit/Source/JavaScriptCore/KeywordLookupGenerator.py:111-117 | Re-keying the children by their merged prefixes never overwrites one: each child survives, merged. |
| `KeywordTrie.CoalesceMeaning` | webkit/Source/JavaScriptCore/KeywordLookupGenerator.py:111-126 | Merging single-child chains changes the lookup of no string, at a node and at the merged node handed to its parent. |
| `KeywordTrie.CoalesceCompresses` | webkit/Source/JavaScriptCore/KeywordLookupGenerator.py:111-126 | Afterwards no node below the root lacks both a token and a second child. |
| `KeywordEmitter.SortByWeightSpec` | webkit/Source/JavaScriptCore/KeywordLookupGenerator.py:137-137 | The children come out heaviest first, are the same children, and equal weights keep their order. |
| `KeywordEmitter.WeightIsSubtreeSum` | webkit/Source/JavaScriptCore/KeywordLookupGenerator.py:128-138 | A node's weight is the sum of the weights given to the full prefixes of all the nodes in its subtree, itself included, whether keywords or not. |
| `KeywordEmitter.FillOutHeaviestFirst` | webkit/Source/JavaScriptCore/KeywordLookupGenerator.py:128-138 | At every node no sibling weighs less than a later one, in the weights that the table gives to the full prefixes at and below it. |
| `KeywordEmitter.FillOutAddresses` | webkit/Source/JavaScriptCore/KeywordLookupGenerator.py:128-138 | Every node's full prefix is its parent's followed by its own segment, through the sorting. |
| `KeywordEmitter.FillOutMeaning` | webkit/Source/JavaScriptCore/KeywordLookupGenerator.py:128-138 | Weighing and reordering siblings changes no lookup. |
| `WideCompare.LoadSplits` | webkit/Source/JavaScriptCore/KeywordLookupGenerator.py:237-270 | On either byte order a load of two or four code units is its two half loads packed in that order. |
| `WideCompare.Compare2Refines` | webkit/Source/JavaScriptCore/KeywordLookupGenerator.py:224-263 | The two-unit macro, for one- and two-byte units on every CPU variant, decides equality of both units. |
| `WideCompare.Compare4Refines` | webkit/Source/JavaScriptCore/KeywordLookupGenerator.py:226-279 | The four-unit macro decides equality of all four units, whether one load or two. |
| `WideCompare.CompareRefines` | webkit/Source/JavaScriptCore/KeywordLookupGenerator.py:222-302 | Every macro from two to eight characters, including the overlapping seven, decides exactly what a unit-by-unit comparison decides, and never faults inside the buffer. |
| `KeywordRecogniser.ArmCondDecides` | webkit/Source/JavaScriptCore/KeywordLookupGenerator.py:151-164 | In the context it is printed in, a child's test decides whether the child's segment comes next. |
| `KeywordRecogniser.WidenedTestDecides` | webkit/Source/JavaScriptCore/KeywordLookupGenerator.py:152-157 | Re-reading the last character already matched, to turn a three-character test into a four-character one, decides the same. |
| `KeywordRecogniser.ArmsPickMatchingKid` | webkit/Source/JavaScriptCore/KeywordLookupGenerator.py:150-174 | The if/else-if chain runs the one child whose segment comes next, or none. |
| `KeywordRecogniser.SubTreeCorrect` | webkit/Source/JavaScriptCore/KeywordLookupGenerator.py:140-174 | Running the code printed for a subtree returns the shortest word below it that stands in the input, or falls through when there is none. |
| `KeywordGenerator.RootMeaning` | webkit/Source/JavaScriptCore/KeywordLookupGenerator.py:214-219 | After inserting, coalescing and filling out, lookup is still the table read as a map. |
| `KeywordGenerator.HeaviestTestsFirst` | webkit/Source/JavaScriptCore/KeywordLookupGenerator.py:214-219 | The recogniser for a table and weights is printed from a tree in which, by those weights, the heaviest tests come first. |
| `KeywordGenerator.MaxTokenLengthIsLongestKeyword` | webkit/Source/JavaScriptCore/KeywordLookupGenerator.py:176-190 | The printed bound is one more than the longest keyword's length, and some keyword attains it. |
| `KeywordGenerator.RecogniserCorrect` | webkit/Source/JavaScriptCore/KeywordLookupGenerator.py:140-212 | With that many units in the buffer the printed function never reads outside it; it returns the shortest standing keyword with its token and shift, and falls through only when no keyword stands. |
| `KeywordSegments.RecogniserCompiles` | webkit/Source/JavaScriptCore/KeywordLookupGenerator.py:151-164 | The printed code uses only macros that exist if and only if no keyword runs on for nine characters without another keyword ending or branching off. |
| `KeywordSegments.StandingKeywordIsUnique` | webkit/Source/JavaScriptCore/KeywordLookupGenerator.py:143-149 | When keyword characters are identifier characters, at most one keyword stands in an input. |
| `KeywordSegments.RecogniserReturnsTheKeyword` | webkit/Source/JavaScriptCore/KeywordLookupGenerator.py:140-212 | For every table without such a run, every CPU and every buffer, the recogniser returns a keyword if and only if it stands in the input, and IDENT if and only if none does. |
| `KeywordSegments.NineLettersDoNotCompile` | webkit/Source/JavaScriptCore/KeywordLookupGenerator.py:151-164 | A lone keyword of nine letters is one: its test uses a macro that does not exist. |
| `KeywordSegments.ReturnsEveryExactly` | webkit/Source/JavaScriptCore/KeywordLookupGenerator.py:140-212 | Every keyword that stands is returned, on every input and with every set of identifier characters, if and only if no keyword begins another. |
| `KeywordSegments.LongerKeywordIsMissed` | webkit/Source/JavaScriptCore/KeywordLookupGenerator.py:143-149 | With the keywords a and ab there is an input on which ab stands and is not returned. |
| `KeywordObjects.TrieNode.Insert` | webkit/Source/JavaScriptCore/KeywordLookupGenerator.py:103-109 | Inserting into linked nodes, in place, gives the tree whose lookups InsertMeaning describes; only the node's own tree changes. |
| `KeywordObjects.TrieNode.Coalesce` | webkit/Source/JavaScriptCore/KeywordLookupGenerator.py:111-126 | Coalescing linked nodes rebinds this node's dictionary and returns the merged node, as trees of which CoalesceMeaning speaks. |
| `KeywordObjects.TrieNode.FillOut` | webkit/Source/JavaScriptCore/KeywordLookupGenerator.py:128-138 | Filling out in place sets prefix, weights and sorted children of every node of the tree and of no other. |
| `KeywordObjects.TrieNode.MaxLength` | webkit/Source/JavaScriptCore/KeywordLookupGenerator.py:176-182 | The loop over children finds the length that MaxTokenLengthIsLongestKeyword is about. |
| `KeywordObjects.TrieNode.PrintSubTreeAsC` | webkit/Source/JavaScriptCore/KeywordLookupGenerator.py:140-174 | The printing loop over linked nodes emits the code that SubTreeCorrect is about. |
| `KeywordObjects.Generate` | webkit/Source/JavaScriptCore/KeywordLookupGenerator.py:214-305 | The whole program, on mutable nodes, yields the recogniser and the bound that RecogniserReturnsTheKeyword is about. |
| `SsaBuilder.EmitDiamond` | webkit/Tools/ReducedFTL/ComplexTest.cpp:103-134 | Emitting a diamond through the builder closes the current block on the predicate, appends the two sides and their join, and rebinds the two variables, leaving one open block. |
| `SsaBuilder.EmitLoop` | webkit/Tools/ReducedFTL/ComplexTest.cpp:135-180 | Emitting a loop through the builder appends guard, body with back edge, and exit, and rebinds one variable. |
| `SsaBuilder.BuildFunction` | webkit/Tools/ReducedFTL/ComplexTest.cpp:80-183 | The construction loop emits the graph whose shape and meaning the next rows state, for all sizes. |
| `SsaBuilder.BuildHasOneOpen` | webkit/Tools/ReducedFTL/ComplexTest.cpp:93-183 | After any number of constructs exactly the current block is open and every other block is ended. |
| `SsaWellFormed.BuiltGraphIsWellFormed` | webkit/Tools/ReducedFTL/ComplexTest.cpp:80-183 | For every size, every block is ended, every register assigned once, every phi has one value for each predecessor, and every use is dominated by its definition. |
| `SsaIr.BitAndBits` | webkit/Tools/ReducedFTL/ComplexTest.cpp:162-164 | The graph's mask is bitwise and: a bit of the result is set if and only if it is set in both numbers. |
| `SsaIr.MaskIsRemainder` | webkit/Tools/ReducedFTL/ComplexTest.cpp:162-164 | With a power of two of variables, masking with one less is taking the remainder. |
| `SsaIr.PhisReadTogether` | webkit/Tools/ReducedFTL/ComplexTest.cpp:147-151 | The phis of a block read their operands before any is written: two that take each other's registers swap them. |
| `SsaIr.WordSizes` | webkit/Tools/ReducedFTL/ComplexTest.cpp:83-83 | Values wrap at 32 bits and addresses at 64. |
| `SsaIr.ReturnsOnce` | webkit/Tools/ReducedFTL/ComplexTest.cpp:80-183 | Running a graph is deterministic: it returns at most one value. |
| `SsaMeaning.SlotAddress` | webkit/Tools/ReducedFTL/ComplexTest.cpp:156-167 | Masking, widening, shifting and adding in machine arithmetic reads the slot at the masked index, for any number of variables. |
| `SsaMeaning.LoopTurns` | webkit/Tools/ReducedFTL/ComplexTest.cpp:147-172 | From any 32-bit index the emitted loop ends, with the sum that counting down gives, and clobbers no earlier register. |
| `SsaMeaning.LoopRuns` | webkit/Tools/ReducedFTL/ComplexTest.cpp:135-180 | The emitted loop, run instruction by instruction, takes variables to what the structured loop takes them to. |
| `SsaMeaning.DiamondRuns` | webkit/Tools/ReducedFTL/ComplexTest.cpp:103-134 | The emitted diamond takes variables to what its two phis select, on either branch. |
| `SsaMeaning.SumSlots` | webkit/Tools/ReducedFTL/ComplexTest.cpp:135-180 | Counting the index down to zero and wrapping at every turn gives the sum of the slots at the masked indices below it, wrapped once. |
| `SsaMeaning.LoopSumClosed` | webkit/Tools/ReducedFTL/ComplexTest.cpp:135-180 | The count-down loop from any index and partial sum, in closed form. |
| `SsaMeaning.MaskedSumGoesRound` | webkit/Tools/ReducedFTL/ComplexTest.cpp:135-180 | With a power of two of variables the loop adds the slots met in going round through all of them. |
| `SsaMeaning.Interpret` | webkit/Tools/ReducedFTL/ComplexTest.cpp:102-183 | An interpreter of the constructs as structured statements, the meaning the graph is held against. |
| `SsaMeaning.GraphReturns` | webkit/Tools/ReducedFTL/ComplexTest.cpp:80-183 | For every size and memory the graph terminates and returns the first variable after the constructs' effects. |
| `SsaMeaning.ConstructionPreservesMeaning` | webkit/Tools/ReducedFTL/ComplexTest.cpp:80-183 | With two variables or more the graph returns what interpreting the constructs as statements gives, on every memory. |
| `SsaMeaning.MeaningPreservedExactly` | webkit/Tools/ReducedFTL/ComplexTest.cpp:80-183 | It does so on every memory if and only if there are two variables or more, or at most one construct: with one variable the two phis of a diamond overwrite each other, which shows when the slot holds 1. |
| `SsaMeaning.WriteSlots` | webkit/Tools/ReducedFTL/ComplexTest.cpp:88-90 | The slots hold the numbers below the number of variables, highest first. |
| `SsaMeaning.WrittenSlotsPreserveMeaning` | webkit/Tools/ReducedFTL/ComplexTest.cpp:80-183 | On the slots that the program writes, the graph returns what interpreting the constructs gives, for one variable or more and any number of constructs. |
| `Crc.PolynomialValue` | webkit/Tools/DumpRenderTree/CyclicRedundancyCheck.cpp:41-42 | The bits used are those of the constant -306674912 taken as 32-bit unsigned. |
| `Crc.MessageIsBytesLowestBitFirst` | webkit/Tools/DumpRenderTree/CyclicRedundancyCheck.cpp:60-61 | The message bits are the bytes in order, each from its bit of weight 1 to its bit of weight 128. |
| `Crc.TableIndex` | webkit/Tools/DumpRenderTree/CyclicRedundancyCheck.cpp:61-61 | The index looked up is the exclusive or, bit by bit, of the byte with the low byte of the register's number. |
| `Crc.EightSteps` | webkit/Tools/DumpRenderTree/CyclicRedundancyCheck.cpp:39-45 | The inner loop is eight steps of the bit-serial register. |
| `Crc.CrcTable.MakeCrcTable` | webkit/Tools/DumpRenderTree/CyclicRedundancyCheck.cpp:36-48 | Every entry is eight register steps from its index. |
| `Crc.CrcTable.NextCrc` | webkit/Tools/DumpRenderTree/CyclicRedundancyCheck.cpp:61-61 | One table lookup equals feeding the byte's bits one at a time, for any register. |
| `Crc.CrcTable.ComputeCrc` | webkit/Tools/DumpRenderTree/CyclicRedundancyCheck.cpp:50-63 | The table-driven value, with the table made on first use or before, is the bit-serial check of the bytes. |
| `Crc.CrcIsPolynomialRemainder` | webkit/Tools/DumpRenderTree/CyclicRedundancyCheck.cpp:50-63 | The value is the complemented remainder of the preset, shifted message under long division by the generator polynomial, as section 3.4 of RFC 2083 defines. |
| `Crc.BurstDetected` | webkit/Tools/DumpRenderTree/CyclicRedundancyCheck.cpp:50-63 | Two messages of one length that differ only within 32 consecutive bits never have the same check. |
| `Crc.FourByteBurstDetected` | webkit/Tools/DumpRenderTree/CyclicRedundancyCheck.cpp:50-63 | In particular any change confined to four consecutive bytes is seen. |
| `Png.BigEndianInverse` | webkit/Tools/DumpRenderTree/PixelDumpSupport.cpp:77-85 | The four bytes written for a 32-bit number read back as it. |
| `Png.HighestByteFirst` | webkit/Tools/DumpRenderTree/PixelDumpSupport.cpp:77-85 | The bytes go from the highest power of 256 to the lowest. |
| `Png.AppendIntToVector` | webkit/Tools/DumpRenderTree/PixelDumpSupport.cpp:77-85 | Growing and filling four places appends the big-endian bytes and changes nothing before. |
| `Png.ConvertChecksumToPNGComment` | webkit/Tools/DumpRenderTree/PixelDumpSupport.cpp:87-103 | Appends a complete tEXt chunk holding the keyword and the 32 characters. |
| `Png.SpliceInsertsComment` | webkit/Tools/DumpRenderTree/PixelDumpSupport.cpp:87-119 | For every parsable PNG the spliced bytes parse to the same chunks with one more after the header; it is a tEXt chunk with the keyword checksum, a zero byte and the 32 characters, and its check read as a number is that of type and data. |
| `Png.PrintPNG` | webkit/Tools/DumpRenderTree/PixelDumpSupport.cpp:112-136 | Whatever each write accepts, the output consists of beginnings of the header lines, the file start, the comment and the rest, in order; if no write is short, a reader who splits it at the second newline finds the content type, the length of what follows in decimal digits, and the spliced file. |
| `Png.HeaderIsRead` | webkit/Tools/DumpRenderTree/PixelDumpSupport.cpp:117-118 | After the header lines a reader finds the content type, the announced number, and the rest untouched. |
| `Png.CheckReadsBack` | webkit/Tools/DumpRenderTree/PixelDumpSupport.cpp:97-102 | The check of a chunk is that of its type followed by its data. |
| `Png.WriteRest` | webkit/Tools/DumpRenderTree/PixelDumpSupport.cpp:124-135 | Writing in blocks delivers a beginning of the rest, all of it unless a write is short, and stops there. |
| `Numerals.OneMoreDigit` | webkit/Tools/DumpRenderTree/PixelDumpSupport.cpp:118-118 | Numbers are printed in base ten: appending a digit is multiplying by ten and adding it. |
| `Numerals.DecimalReadsBack` | webkit/Tools/DumpRenderTree/PixelDumpSupport.cpp:118-118 | The announced length reads back as the number. |
| `ThreadProtocol.StepPreserves` | webkit/Tools/DumpRenderTree/JavaScriptThreading.cpp:64-157 | Each locked region or private choice of any thread keeps the registry, the threads' positions and the late counts consistent. |
| `ThreadProtocol.ReachableInv` | webkit/Tools/DumpRenderTree/JavaScriptThreading.cpp:64-157 | Hence in every interleaving of a start, any respawns and a stop. |
| `ThreadProtocol.AlwaysFourRegistered` | webkit/Tools/DumpRenderTree/JavaScriptThreading.cpp:110-145 | From start until the set is cleared exactly four threads are registered, so the asserted size of the copied vector always holds. |
| `ThreadProtocol.LateRespawnsBounded` | webkit/Tools/DumpRenderTree/JavaScriptThreading.cpp:100-115 | Once the flag is set at most four respawns follow, and a thread created by one never respawns. |
| `ThreadProtocol.ClearEmptiesTheSet` | webkit/Tools/DumpRenderTree/JavaScriptThreading.cpp:151-154 | The clear empties the set, and in every later state only threads created by respawns since then are in it. |
| `ThreadProtocol.QuietWaitsCover` | webkit/Tools/DumpRenderTree/JavaScriptThreading.cpp:134-149 | If no thread is between a false flag and its respawn when the set is copied, no worker is left once the waits return. |
| `ThreadProtocol.StopJoinsWorkersExactly` | webkit/Tools/DumpRenderTree/JavaScriptThreading.cpp:134-149 | The waits leave no worker in any continuation if and only if that window is empty at the copy. |
| `ThreadProtocol.StopJoinsEveryThreadExactly` | webkit/Tools/DumpRenderTree/JavaScriptThreading.cpp:134-157 | They leave no thread at all, cleaning up included, if and only if moreover every replaced thread had finished by the copy. |
| `ThreadProtocol.StopCanLeaveWorker` | webkit/Tools/DumpRenderTree/JavaScriptThreading.cpp:100-149 | A run on which the waits return while a worker is left: one thread reads the flag before it is set. |
| `ThreadProtocol.StopCanLeaveCleanup` | webkit/Tools/DumpRenderTree/JavaScriptThreading.cpp:110-149 | A run on which they return with no worker left but a replaced thread still cleaning up. |
| `MetaDataResolver.ResolverEndsExactly` | webkit/Tools/ReducedFTL/combineModules.rb:165-183 | The swap-and-pop passes empty the list of waiting entries if and only if no set of them can only be resolved after one another. |
| `MetaDataResolver.UndefinedParentNeverEnds` | webkit/Tools/ReducedFTL/combineModules.rb:165-183 | One entry with a new name and a parent that no line numbers keeps the loop going for ever. |
| `MetaDataResolver.AcyclicChainsResolve` | webkit/Tools/ReducedFTL/combineModules.rb:165-183 | Parent chains that are acyclic and grounded are enough for ending. |
| `MetaDataResolver.PassProgresses` | webkit/Tools/ReducedFTL/combineModules.rb:166-182 | Each pass resolves at least one entry while the loop can still end. |
| `MetaDataResolver.PassResolvesAllReady` | webkit/Tools/ReducedFTL/combineModules.rb:167-182 | A pass resolves every entry that is ready when it begins, those moved into a freed place included. |
| `MetaDataResolver.SwapPopElements` | webkit/Tools/ReducedFTL/combineModules.rb:172-173 | Taking an entry off puts the last one in its place and leaves the others where they are. |
| `MetaDataResolver.ResolvedExactly` | webkit/Tools/ReducedFTL/combineModules.rb:165-183 | As many passes as entries suffice if any number does. |
| `MetaDataResolver.IdlePassChangesNothing` | webkit/Tools/ReducedFTL/combineModules.rb:167-182 | A pass that resolves nothing leaves the state as it was, so the loop repeats it for ever. |
| `MetaDataResolver.ResolveKeepsOrderExactly` | webkit/Tools/ReducedFTL/combineModules.rb:174-178 | A resolving step keeps every parent's index below its child's if and only if the entry, under a new name, is not its own parent. |
| `MetaDataResolver.ResolverKeepsOrderExactly` | webkit/Tools/ReducedFTL/combineModules.rb:165-183 | So does the whole loop if and only if no entry with a new name is its own parent, unless some name waits both with itself and with another as parent. |
| `ModuleCombiner.LastBodyCounts` | webkit/Tools/ReducedFTL/combineModules.rb:152-162 | Of several attribute lines with one number the last counts. |
| `ModuleCombiner.ChildrenWaitInOrder` | webkit/Tools/ReducedFTL/combineModules.rb:127-129 | After reading, exactly the lines that name a parent wait, in their order. |
| `ModuleCombiner.WeightsShareKeyExactly` | webkit/Tools/ReducedFTL/combineModules.rb:130-144 | Branch weights share a key if and only if they read the same without gaps, and share it with the name that spells them. |
| `ModuleCombiner.PairsShareKeyExactly` | webkit/Tools/ReducedFTL/combineModules.rb:145-151 | So do pairs of numbers. |
| `ModuleCombiner.NamesShareKeyExactly` | webkit/Tools/ReducedFTL/combineModules.rb:120-129 | A name has one key, with and without a parent. |
| `ModuleCombiner.ReadKeepsSound` | webkit/Tools/ReducedFTL/combineModules.rb:110-163 | Reading any line keeps table indices dense, entries unchanged and every number on the entry of one of its lines, and loses no line. |
| `ModuleCombiner.ResolveKeepsSound` | webkit/Tools/ReducedFTL/combineModules.rb:168-182 | Resolving any entry keeps the same. |
| `ModuleCombiner.TableIsDense` | webkit/Tools/ReducedFTL/combineModules.rb:92-183 | After any modules the indices are 0 to n-1, each used once, and no parent's is above its child's. |
| `ModuleCombiner.TableGrows` | webkit/Tools/ReducedFTL/combineModules.rb:92-183 | Entries never move or change once made. |
| `ModuleCombiner.TableIsOrdered` | webkit/Tools/ReducedFTL/combineModules.rb:92-183 | If no line names itself as its parent, every parent's index is below its child's. |
| `ModuleCombiner.SelfNamedIsNotOrdered` | webkit/Tools/ReducedFTL/combineModules.rb:174-178 | A number defined twice, the second time with itself as parent, is entered as its own parent. |
| `ModuleCombiner.NumbersStay` | webkit/Tools/ReducedFTL/combineModules.rb:92-195 | Every metadata number of any module names, in the final table, the entry of one of the number's lines. |
| `ModuleMeaning.MeaningfulModulesResolve` | webkit/Tools/ReducedFTL/combineModules.rb:110-183 | A module whose metadata numbers have a meaning never makes the resolver loop for ever, on any table. |
| `ModuleMeaning.KnownNameResolves` | webkit/Tools/ReducedFTL/combineModules.rb:170-173 | That is not necessary: an entry whose name is known resolves although its parent is undefined. |
| `ModuleMeaning.ReadKeepsMeant` | webkit/Tools/ReducedFTL/combineModules.rb:110-163 | With meanings, reading keeps every line numbered by its key's entry or waiting, and every new entry saying what a line says. |
| `ModuleMeaning.ResolveKeepsMeant` | webkit/Tools/ReducedFTL/combineModules.rb:168-182 | So does resolving. |
| `CombinedMeaning.MetaDataKeptExactly` | webkit/Tools/ReducedFTL/combineModules.rb:92-183 | Over any modules with meanings, every metadata number means in the combined table, parents written out, what it meant in its module, if and only if lines that share a key mean the same. |
| `CombinedMeaning.BranchWeightsCanMerge` | webkit/Tools/ReducedFTL/combineModules.rb:130-144 | It fails for branch weights 1, 23 beside 12, 3, which share a key. |
| `CombinerObjects.Combiner.ReadAttributes` | webkit/Tools/ReducedFTL/combineModules.rb:152-162 | Keeps the table free of duplicates with the back map its inverse, adds a body only if new, and numbers it. |
| `CombinerObjects.JoinWeights` | webkit/Tools/ReducedFTL/combineModules.rb:132-140 | The loop over weights builds the key under which the line is stored. |
| `CombinerObjects.Combiner.ReadLines` | webkit/Tools/ReducedFTL/combineModules.rb:105-163 | After any lines the attribute map names the bodies they define, the table has only grown, and the metadata is in the state that the rows above are about. |
| `CombinerObjects.Combiner.ResolvePass` | webkit/Tools/ReducedFTL/combineModules.rb:167-182 | The inner loop is one pass of the resolver of the rows above. |
| `CombinerObjects.Combiner.ResolveMetaData` | webkit/Tools/ReducedFTL/combineModules.rb:165-183 | The outer loop ends, with nothing waiting, if and only if no set of waiting entries is unfounded; otherwise it comes to a pass that changes nothing. |
| `CombinerObjects.Combiner.Remap` | webkit/Tools/ReducedFTL/combineModules.rb:185-195 | A printed reference names what its module's lines defined, and printing raises exactly when something referred to is undefined. |
| `CombinerObjects.JoinPieces` | webkit/Tools/ReducedFTL/combineModules.rb:208-208 | The pieces of a declaration joined into its text. |
| `CombinerObjects.DeclaredExactly` | webkit/Tools/ReducedFTL/combineModules.rb:118-119 | What is declared is what the declaring lines hold. |
| `CombinerObjects.RenderedInOrder` | webkit/Tools/ReducedFTL/combineModules.rb:200-208 | The text of pieces is their texts one after another. |
| `CombinerObjects.ReferenceReadsBack` | webkit/Tools/ReducedFTL/combineModules.rb:202-203 | The text of a reference gives its kind and number back. |
| `CombinerObjects.Combiner.AddDeclarations` | webkit/Tools/ReducedFTL/combineModules.rb:197-213 | The text of every declaration, renumbered, is in the list, and no text twice. |
| `CombinerObjects.Combiner.CombineModule` | webkit/Tools/ReducedFTL/combineModules.rb:94-214 | One module, whatever its lines: tables only grow, body and declarations keep their references; it diverges exactly when the resolver does and raises exactly for a dangling reference. |
| `CombinerObjects.CombineAll` | webkit/Tools/ReducedFTL/combineModules.rb:92-224 | Over any modules: every number printed names, in the final attribute table, the body it had in its own module; indices are dense; the program finishes exactly when every module resolves and refers to what it defines, and else diverges or raises as the first other module does. |
| `PackageClosure.ClosureIsReached` | webkit/Tools/CygwinDownloader/cygwin-downloader.py:129-141 | A closed set that holds the flagged packages and only what they reach is exactly what they reach. |
| `PackageClosure.Downloader.AddPackageAndDependencies` | webkit/Tools/CygwinDownloader/cygwin-downloader.py:129-137 | Ends on cyclic graphs; adds only packages reachable from the name, closed under known dependencies, and flags just those. |
| `PackageClosure.Downloader.ChoosePackages` | webkit/Tools/CygwinDownloader/cygwin-downloader.py:139-141 | The chosen names are exactly the known packages reachable from those flagged at first, and the flags agree with them. |
| `PackageClosure.SelectCounts` | webkit/Tools/CygwinDownloader/cygwin-downloader.py:143-147 | Going through the sorted names meets each chosen package once. |
| `PackageClosure.SelectKeepsOrder` | webkit/Tools/CygwinDownloader/cygwin-downloader.py:144-145 | It meets them at increasing positions of the list. |
| `PackageClosure.Downloader.Download` | webkit/Tools/CygwinDownloader/cygwin-downloader.py:143-147 | Exactly the chosen packages are downloaded, at increasing positions of the sorted list, numbered from one to the announced total. |
| `ModulePaths.SplitString` | webkit/Source/WTF/wtf/text/WTFString.cpp:739-752 | Splitting at separators, with or without empty entries. |
| `ModulePaths.SplitJoin` | webkit/Source/JavaScriptCore/jsc.cpp:979-1004 | Splitting undoes joining of components. |
| `ModulePaths.DirectoryOfDeepFile` | webkit/Source/JavaScriptCore/jsc.cpp:921-937 | The directory of root, query and file name is root and query. |
| `ModulePaths.ExtractDirectoryName` | webkit/Source/JavaScriptCore/jsc.cpp:921-937 | The two searches find the directory, and fail exactly without separator. |
| `ModulePaths.ResolvePath` | webkit/Source/JavaScriptCore/jsc.cpp:979-1004 | The push-and-pop loop and the string builder compute the resolution that the rows below are about. |
| `ModulePaths.WalkKeeps` | webkit/Source/JavaScriptCore/jsc.cpp:984-994 | A name keeps a prefix of the directory it starts from, never climbs above the root, and adds the same components everywhere. |
| `ModulePaths.RootedByText` | webkit/Source/JavaScriptCore/jsc.cpp:904-919 | A name starts at the root if and only if it is empty or begins with a separator. |
| `ModulePaths.RootedNameStartsAfresh` | webkit/Source/JavaScriptCore/jsc.cpp:984-994 | Such a name forgets the directory. |
| `ModulePaths.OtherNameStaysBelow` | webkit/Source/JavaScriptCore/jsc.cpp:984-994 | Any other name, ./A/B.js included, keeps the directory's components but for those it removes, and adds its own. |
| `ModulePaths.PieceByPiece` | webkit/Source/JavaScriptCore/jsc.cpp:988-994 | One more piece at the end of a name goes up one, stays, or goes down by that component. |
| `ModulePaths.ResolutionComposesExactly` | webkit/Source/JavaScriptCore/jsc.cpp:904-1004 | Resolving a/b is resolving b in the directory that a resolves to, if and only if b does not start at the root or removes all that a leaves. |
| `ModulePaths.ReferrerComposes` | webkit/Source/JavaScriptCore/jsc.cpp:921-1004 | A name imported by module a, relative to the directory of a's resolution, is the name a/../b. |
| `ModulePaths.ReferrerIsNotDirectoryExactly` | webkit/Source/JavaScriptCore/jsc.cpp:921-1004 | It is the name a/b if and only if it removes everything that a leaves. |
| `ModulePaths.ResultCanonicalExactly` | webkit/Source/JavaScriptCore/jsc.cpp:979-1004 | A result has no empty, dot or dot-dot component if and only if the part of the base directory it keeps has none. |
| `ModulePaths.ResultCanonical` | webkit/Source/JavaScriptCore/jsc.cpp:979-1004 | In particular from a canonical base directory, or with a name from the root. |
| `ModulePaths.ReresolvingIsIdentityExactly` | webkit/Source/JavaScriptCore/jsc.cpp:979-1004 | Resolving a result again from anywhere gives it back if and only if it is canonical. |
| `ModulePaths.DottedDirectoryStays` | webkit/Source/JavaScriptCore/jsc.cpp:921-1004 | The directory of /a/../m is not canonical, a name resolved in it is not, and resolving that again changes it. |
| `ModulePaths.ModuleIsNotDirectory` | webkit/Source/JavaScriptCore/jsc.cpp:921-1004 | A name imported by module x of the root directory is not a name below x. |
| `ModulePaths.RootedNameDoesNotCompose` | webkit/Source/JavaScriptCore/jsc.cpp:904-1004 | A second name from the root starts afresh where the joined name goes on. |
| `DeviceSalts.SaltsEqualExactly` | webkit/Tools/WebKitTestRunner/TestController.cpp:1859-1922 | Over any run, two answers are equal if and only if no reset lies between, the origin is one, and both are its persistent salt or one frame's own. |
| `DeviceSalts.PermissionFromEvents` | webkit/Tools/WebKitTestRunner/TestController.cpp:1911-1921 | Whether an origin is permitted is what was last set for it since the last reset, false if nothing was. |
| `DeviceSalts.AnswersEqualExactly` | webkit/Tools/WebKitTestRunner/TestController.cpp:1879-1921 | From the list of events alone: two answers are equal if and only if no reset came between, the origin is one, and either both requests are of a permitted origin by frames that have not asked unpermitted, or neither is and the frame is one. |
| `DeviceSalts.PermittedFramesShare` | webkit/Tools/WebKitTestRunner/TestController.cpp:1891-1901 | Frames of a permitted origin that have not asked unpermitted since the reset get one salt. |
| `DeviceSalts.UnpermittedFramesDiffer` | webkit/Tools/WebKitTestRunner/TestController.cpp:1903-1908 | Different frames that ask while their origins are not permitted get different salts. |
| `DeviceSalts.OriginsNeverShare` | webkit/Tools/WebKitTestRunner/TestController.cpp:1879-1909 | Different origins never get the same salt. |
| `DeviceSalts.SaltChangesAtMostOnce` | webkit/Tools/WebKitTestRunner/TestController.cpp:1879-1922 | Between resets the answers for one origin and frame change at most once, whatever permissions are set, and never after the frame's own salt was given. |
| `DeviceSalts.SaltsStay` | webkit/Tools/WebKitTestRunner/TestController.cpp:1879-1922 | A salt once kept stays until a reset. |
| `DeviceSalts.TestController.AskSalt` | webkit/Tools/WebKitTestRunner/TestController.cpp:1879-1909 | The controller's map and answer are those of the run with this request added. |
| `DeviceSalts.TestController.SetUserMediaPermission` | webkit/Tools/WebKitTestRunner/TestController.cpp:1911-1922 | Setting a permission is the run with that event added. |
| `DeviceSalts.TestController.ResetToConsistentState` | webkit/Tools/WebKitTestRunner/TestController.cpp:764-768 | A reset is the run with that event added. |
| `WorkQueues.WorkQueue.Queue` | webkit/Tools/DumpRenderTree/WorkQueue.cpp:53-64 | A frozen queue deletes the item, otherwise it goes last; every item has been handed over as often as it was deleted, is running and waits. |
| `WorkQueues.WorkQueue.SetFrozen` | webkit/Tools/DumpRenderTree/WorkQueue.h:47-47 | Freezing and thawing keep the items as they are. |
| `WorkQueues.WorkQueue.Dequeue` | webkit/Tools/DumpRenderTree/WorkQueue.cpp:66-74 | Takes the first waiting item, if there is one. |
| `WorkQueues.WorkQueue.Clear` | webkit/Tools/DumpRenderTree/WorkQueue.cpp:81-90 | Every item ever handed over has then been deleted, each as often as it was handed over. |
| `WorkQueues.WorkQueue.ProcessWork` | webkit/Tools/DumpRenderTree/WorkQueue.cpp:92-105 | Ends although items queue more; invoked items stay the first of those accepted, in order, and add to them exactly what they queue, or nothing when frozen; exactly the last may start a load; each is deleted after it ran; done means empty with everything deleted. |

## Left out

- Text of the generated C++ and of the combined LLVM module: code, lines and references are
  datatypes; parsing the keyword list and matching lines with regular expressions are not modelled.
- Non-ASCII keywords, and keyword characters that would need escaping in a C literal.
- Rounding in keyword weights: weights are reals. Python's sort is written as a stable insertion sort.
- The order in which a Python dictionary yields its entries is taken to be insertion order.
- Whether a unit continues an identifier is a predicate on positions, not the lexer's function.
- Undefined behaviour of misaligned loads on CPUs that are not marked as needing aligned access.
- The big-endian four-unit macro for two-byte units, which no supported CPU expands.
- KeywordObjects.TrieNode.Coalesce: the merged node and the merged child share one dictionary in the
  source; the model copies the reference and does not speak about later use of the child.
- LLVM's constant folding, verifier, optimiser and code generation, and the timing of the complex test;
  zero variables, for which the source divides by zero.
- SsaMeaning.GraphReturns: memory is the variable slots only, at an address range that does not wrap.
- Png.PrintPNG: image data shorter than 33 bytes, for which the source reads past the data, is
  excluded; the two header lines are one write.
- ThreadProtocol: waiting for a thread returns once the thread has finished; one start and one stop;
  JavaScriptCore's own locking and the release of the context group.
- CombinerObjects.CombineAll: a run that does not end is an outcome, reached at the pass that changes
  nothing. Input that is already combined is copied through by the source and not modelled.
- CombinedMeaning.MetaDataKeptExactly: is about modules whose metadata numbers have a meaning: one
  content for each number, every parent defined by a line the program recognises, no cycle. What
  the numbers of other modules name is stated by NumbersStay.
- MetaDataResolver.ResolverKeepsOrderExactly: leaves out names that wait both with themselves and with
  another as parent, for which the order of the list decides.
- PackageClosure: parsing setup.ini, mirrors, downloading and running setup; the sorted list of names
  is a parameter.
- ModulePaths: the Windows separator and drive letters, and the current working directory.
- DeviceSalts: generated identifiers are parameters; settings are values in the map, since nothing
  else holds them.
- WorkQueues: invoking an item is a function from the item to its effects; items that clear or
  freeze the queue while they run are not modelled. A queue that overflows ends in a failed
  assertion.
- Everything else in the tree: engines, ports, bindings, scripts and tests whose logic is mostly
  calls into platform code.
