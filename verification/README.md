# Proofs about the Python library layer

Dafny models of the parts of the library with the most intricate logic, and proofs of
what each part is for. `dafny verify dfyconfig.toml` verifies all of it.

The modules follow the source files. Code that changes state is a class or a method with
loops, proved against a function; the properties are then proved about the function.

**Local variables of compiled functions** (`FlowGraph`, `DefiniteAssignment`,
`CodePaths`, `LocalsOptimizer`, `LocalsMeaning`). `PyroFlowGraph` drops stores to locals that nothing
reads, finds by a dataflow analysis where a local is surely assigned, and replaces loads
there by unchecked, reverse-indexed ones. What is emitted is stated twice: by what it means when
it runs, and instruction by instruction in terms of the code of all paths. Graphs have any shape; a path is any sequence of
`get_children` edges. The machine model has an operand stack and slots that are bound or
unbound; what the other instructions do to the stack is a parameter. The graph must have
an entry block without predecessors, and parameters are the first locals.

**Text streams** (`Decoders`, `BufferedDecoder`, `NewlineDecoder`, `Lines`, `LineMeaning`, `Bits`,
`Ratios`, `TextCookie`, `TextSnapshot`, `TextStream`, `TextRun`, `TextDecoders`, `BufferedWriter`). A byte decoder
is a state machine given by its answer to one byte and to the end of the input. `Lawful`
collects what the text layer relies on: after any step the decoder is where feeding its
held bytes to its empty state with the same flags, without output, would put it; held
bytes are a suffix of the input; after the end of the input it says nothing more. The laws
are proved for `BufferedIncrementalDecoder` over any lawful `_buffer_decode` and kept by
`IncrementalNewlineDecoder`, so the stream theorems hold of the decoders that
`_get_decoder` makes. The buffer delivers any number of bytes each time. The ratio that
`tell` guesses from is rounded by any function with the relative error of doubles.

**LRU cache** (`CallKeys`, `LruSpec`, `LruCache`, `LruCalls`). A dictionary and a circular
doubly linked list of heap cells with a moving root refine a sequence of entries in the
order of use. The user function runs between the two critical sections, and may call the
wrapper again, clear it or raise, to any depth.

**Module import lock** (`WaitGraph`, `ModuleLock`, `LockHistory`). Any number of threads and locks as a
step system. Setting `_blocking_on[tid]` and the `with self.lock` block after it are one
step; so is a recheck after a wake-up.

**printf formatting** (`Printf`, `Directives`, `Formatter`, `PrintfRewrite`, `RewrittenFormats`,
`PrintfMeaning`). The
reference formatter, the compiler's rewriting of `%` formats into f-strings, and the format
mini-language restricted to what the rewriting emits (following `runtime/formatter.cpp`).
The two sides agree exactly on formats called fair.

**Marshal** (`MarshalFormat`, `MarshalRoundTrip`, `MarshalRefs`, `MarshalSharing`,
`MarshalDump`, `MarshalBytes`, `MarshalRuntime`, `MarshalWriter`, `RuntimeLong`, `RuntimeReader`). Versions 2
and 3 of the writer over any acyclic object graph, and a reader that inverts it. A graph
lists objects so that children come before their container; identity is the position in
the list. The runtime's own reader is modelled on bytes: it builds objects while it reads,
and packs the 15-bit digits of big integers into machine words.

**Smaller pieces** (`EllipsisMatch`, `DunderNew`, with `Basics` and `Strings`). The greedy
ellipsis matcher of doctest, and the bytecode of generated `__new__` functions.

## Where the code falls short of a simple claim

Each of these is a lemma with a concrete input, next to the exact condition.

- A local's bit need not be exact over paths that start at a block without predecessors:
  a loop that nothing reaches and that deletes a local clears its bit there
  (`DeadLoopIsNotExact`). Exactness holds for all blocks and locals exactly if no
  unreachable block leaves a local deleted (`RootedExactness`). Over all paths, where a
  path that starts inside a loop counts with every local assigned, it always holds
  (`AnalysisIsExact`).
- No load reads a slot that was never written, but a deletion can: `if c: x = 1` followed
  by `del x` compiles to a check of an uninitialised slot, so garbage there hides the
  unbound local (`DeletionReadsGarbage`). The compiled code means the same as the original
  exactly if no path from the entry comes to the deletion of a local whose slot may hold
  garbage and was not written on the way, with no unbound local to stop it before
  (`MeaningKeptIffDeletesGuarded`). Nothing is asked if slots start unbound.
- `tell` can raise after a seek: the fast search starts from a ratio of bytes to characters
  that a seek does not reset, and the guess must not pass the input of the snapshot. The
  exact condition is in `Tell` and `SeekAndTell`; while a stream is only read it cannot
  happen (`ReadAndTell`), and `StaleRatioGuessesTooFar` has bytes where it does.
- A `0` flag on `%s`, `%r`, `%a` pads with zeros in the f-string and with spaces in the
  formatter, or raises when there is no width; anything between the two percent signs of a
  `%%` raises in the formatter and is dropped by the rewriting (`ZeroFlagOnTextDiffers`,
  `WidthBeforePercentDiffers`). With integers where integers belong, these are the only
  differences (`SameTextIffFair`).
- The cache is transparent exactly for functions that treat calls with equal keys alike
  (`TransparentIffRespects`). Without `typed`, `f(1, 1)` and `f(1.0, 1)` share an entry; a
  lone `1` and a lone `1.0` do not, since only the former is its own key
  (`EqualNumbersShareAnEntry`).
- A `0` flag that no `-` overrules can leave a number narrower than its width asks. It does
  so for an integer exactly if the precision is below its number of digits and the text has
  to be padded, and for a float exactly if the text has to be padded at all: the formatter
  takes the precision of floats for 0 there, so their text uses up its room twice
  (`ConversionMeetsWidth`, `ZeroFilledFloat`, `ZerosFallShortOfWidth`,
  `ZeroFlagNeverFillsFloat`). All other conversions meet their width.
- The runtime's reader gives a flagged empty frozen set no reference number
  (`runtime/marshal.cpp:368-376`), while the version 3 writer counts it. Of the byte
  streams whose kinds of objects the runtime reads at all, exactly those with a reference at
  or above that number are misread (`RuntimeLoadsIffSafe`, `SharedEmptyFrozenSetIsNotLoaded`).
- The counts that `BufferedWriter.write` reports account for every byte taken exactly if no
  write meets an answer of the raw stream that is an error, before a refusal and while its
  bytes are queued: then they stay queued unreported (`AccountIsRight`,
  `QueuedBytesAreNotReported`).

## Model

| member | source | states |
|---|---|---|
| DefiniteAssignment.ComputePreds | library/_compiler.py:233-243 | the predecessor sets are exactly the `get_children` edges turned around |
| DefiniteAssignment.ProcessOneBlock | library/_compiler.py:268-296 | one visit computes the block equation from the current facts, and reports whether they changed |
| DefiniteAssignment.ClearingBitsShrinks | library/_compiler.py:293-302 | replacing a fact by a proper subset strictly lowers the total number of set bits, so the loop ends |
| DefiniteAssignment.ProcessingKeepsInvariant | library/_compiler.py:268-302 | every visit only clears bits, and never below a consistent set of facts |
| DefiniteAssignment.Round | library/_compiler.py:299-302 | a round keeps the invariant; it changes nothing only at a solution of the block equations, and otherwise clears a bit |
| DefiniteAssignment.Analyse | library/_compiler.py:245-302 | for any order of the blocks the loop ends with the greatest solution of the block equations |
| DefiniteAssignment.GreatestIsUnique | library/_compiler.py:245-302 | the result cannot depend on the order of the blocks |
| DefiniteAssignment.SolutionIsSafe | library/_compiler.py:268-302 | a bit set at the end of a block means that every path to it leaves the local assigned |
| DefiniteAssignment.AnalysisIsExact | library/_compiler.py:234-302 | a bit is set if and only if every path to the end of the block leaves the local assigned |
| DefiniteAssignment.RootedExactness | library/_compiler.py:268-302 | over paths from blocks without predecessors the if-and-only-if holds everywhere exactly when unreachable blocks leave no local deleted |
| DefiniteAssignment.DeadLoopIsNotExact | library/_compiler.py:268-302 | a concrete unreachable loop where that fails |
| CodePaths.TransferLeavesAssigned | library/_compiler.py:277-291 | a local is set after a block exactly if some store to it is followed by no deletion, or it was set before and nothing deletes it |
| CodePaths.FactsAreSure | library/_compiler.py:268-302 | inside a block too, a local is set after the first instructions exactly if the code of every path to that place leaves it assigned |
| LocalsOptimizer.PyroFlowGraph.OptimizeStoreFast | library/_compiler.py:214-231 | instruction by instruction: a store becomes POP_TOP if and only if no instruction loads or deletes its local and the code does not mention `locals`; nothing else changes |
| LocalsOptimizer.RewriteOneBlock | library/_compiler.py:268-296 | with the final facts a block's loads and stores are rewritten in place, its facts stay, and the conditionally assigned locals are collected; `RewrittenIsEmitted` says what that is for each instruction |
| LocalsOptimizer.RewrittenIsEmitted | library/_compiler.py:277-291 | by the greatest solution a load becomes unchecked, at `total_locals - i - 1`, if and only if every path leaves its local assigned there, every store becomes a reverse store, and the rest stays |
| LocalsOptimizer.ConditionalIsUnsure | library/_compiler.py:281-285 | collected are exactly the locals, parameters aside, that some instruction loads where not every path leaves them assigned |
| LocalsOptimizer.PyroFlowGraph.RewriteBlocks | library/_compiler.py:304-305 | after the pass every block is its rewriting by the original graph's facts, which `RewrittenIsEmitted` describes, and exactly the conditionally loaded locals are collected |
| LocalsOptimizer.PyroFlowGraph.UnsetAtStart | library/_compiler.py:307-316 | the entry begins with one unchecked deletion for each of them |
| LocalsOptimizer.PyroFlowGraph.OptimizeLoadFast | library/_compiler.py:233-316 | the graph becomes its rewriting by the greatest solution; without the analysis: each load is unchecked and reverse-indexed if and only if the code of every path to it leaves its local assigned, each store is a reverse store, and the entry first deletes, once each, the locals that some load may find unassigned |
| LocalsOptimizer.PyroFlowGraph.GetCode | library/_compiler.py:318-321 | both passes in order: the stores are dropped and the loads and stores emitted as those contracts say, which gives a compiled graph as the meaning theorems take it |
| LocalsOptimizer.DroppingKeepsValid | library/_compiler.py:214-231 | dropping dead stores keeps the graph well-formed for the second pass |
| LocalsOptimizer.StepSimulates | library/_compiler.py:214-316 | one instruction, unless it deletes a local whose slot may hold garbage, and its rewritten form take related frames to related frames, or fail alike |
| LocalsOptimizer.BlockSimulates | library/_compiler.py:214-316 | so does a guarded block; failures are at the same instruction |
| LocalsOptimizer.BlockDiverges | library/_compiler.py:214-316 | in a block that is not guarded the original stops at a deletion that the rewritten block passes, when unwritten slots hold garbage |
| LocalsMeaning.PathSimulation | library/_compiler.py:214-321 | every guarded path after the entry block takes related frames to related frames, or both codes stop at the same instruction |
| LocalsMeaning.CompilationPreservesMeaning | library/_compiler.py:214-321 | along every guarded path from the entry both codes have equal stacks, fail at the same instruction, and agree on every loaded or deleted local whose slot is clean or was written on the path, among them all that are bound |
| LocalsMeaning.UnguardedPathDiverges | library/_compiler.py:214-321 | on every path that is not guarded some frames, garbage and effects make the codes differ |
| LocalsMeaning.MeaningKeptIffDeletesGuarded | library/_compiler.py:214-321 | both codes mean the same on all paths, for all effects, frames and garbage, if and only if all deletions are guarded |
| LocalsMeaning.FactsGuardDeletes | library/_compiler.py:268-302 | it is enough that locals are deleted only where the analysis has them assigned or their slot is known to be clean |
| LocalsMeaning.CleanFramesPreserveMeaning | library/_compiler.py:214-321 | without any condition on deletions, both codes mean the same when slots start unbound, and agree on all locals that are loaded or deleted |
| LocalsMeaning.NoLoadReadsGarbage | library/_compiler.py:268-316 | on every path every load reads a slot that was written before, whatever slots held at the start |
| LocalsMeaning.DeletionReadsGarbage | library/_compiler.py:268-316 | a concrete function whose deletion depends on an unwritten slot |
| Decoders.DecodeConcat | library/_io.py:1548-1566 | decoding `a + b` is decoding `a`, then `b` |
| Decoders.FeedHoldsSuffix | library/_io.py:1535-1541 | the bytes a lawful decoder holds back are the last ones it was fed |
| Decoders.DecodeKeepsCanonical | library/_io.py:1535-1541 | after any decoding, final or not, the state is what its held bytes make of the empty state with its flags |
| BufferedDecoder.DecodeIsFold | library/_codecs.py:899-903 | one call on all input equals feeding it byte by byte, so chunks do not matter |
| BufferedDecoder.BufferedIsLawful | library/_codecs.py:891-913 | `BufferedIncrementalDecoder` over a lawful `_buffer_decode` meets all decoder laws |
| BufferedDecoder.BufferedIncrementalDecoder.Decode | library/_codecs.py:899-903 | the method's buffer and text are those of the state machine |
| NewlineDecoder.CountsGiveKinds | library/_io.py:183-187 | the three counts are positive exactly for the kinds of newline in the text |
| NewlineDecoder.ReplacingTwice | library/_io.py:189-193 | replacing pairs and then lone carriage returns is newline translation |
| NewlineDecoder.TranslateRemovesCr | library/_io.py:189-193 | translated text has no carriage return, and text without any is left as it is |
| NewlineDecoder.KindsByPlace | library/_io.py:183-187 | the kinds are those of the places where a carriage return stands alone, a line feed stands alone, or both form a pair |
| NewlineDecoder.CutText | library/_io.py:177-193 | translation and kinds of a text are those of its parts, unless the cut splits a carriage return, line feed pair |
| NewlineDecoder.ChunkingDoesNotMatter | library/_io.py:163-195 | however a text is cut into calls, the joined output is the one-shot translation and the recorded kinds are exactly those of the whole text |
| NewlineDecoder.IncrementalNewlineDecoder.Decode | library/_io.py:163-195 | a call is a step of the wrapped decoder's state machine with the kept carriage return, and records exactly the kinds in what it passes on |
| NewlineDecoder.DecodeChunks | library/_io.py:163-195 | the object run over any chunks of bytes, the last one final: the joined outputs translate what the wrapped decoder says to all of them, and `_seennl` gains exactly the kinds in that text |
| NewlineDecoder.DecodeFromStart | library/_io.py:151-195 | from a new decoder the newlines recorded are exactly those of the whole text |
| NewlineDecoder.NewlinesDecode | library/_io.py:163-195 | decoding bytes through the wrapper passes on what one call on the inner decoder's text does |
| NewlineDecoder.NewlinesIsLawful | library/_io.py:163-218 | wrapping a lawful decoder gives a lawful decoder, so its states can be saved and restored |
| NewlineDecoder.NewlinesFlags | library/_io.py:197-206 | the wrapper doubles the bound on the flags |
| NewlineDecoder.NewlinesKeepsPairs | library/_io.py:177-181 | output that ends with a carriage return is never continued by a line feed |
| Lines.SearchLineEnd | library/_io.py:1709-1757 | the searches of the three newline modes find the first line end, given that none starts before `start`; `LineMeaning` says what that is |
| Lines.LineHasNoInnerTerminator | library/_io.py:1709-1757 | no terminator ends before the line does; by `LineKeepsPairs` and `LineEndsAtFirst` none begins before its last characters either |
| LineMeaning.TranslatedLines | library/_io.py:1709-1757 | a text cut after its first universal line and translated is the translated text cut after its first line: both the line and the rest agree |
| LineMeaning.LineKeepsPairs | library/_io.py:1716-1744 | a universal line never ends between a carriage return and a line feed, ends with a newline unless it is the whole text, and holds none before its last |
| LineMeaning.LineEndsAtFirst | library/_io.py:1707-1751 | with a given terminator, and in the translating mode, the line ends with its first occurrence, or is the whole text if there is none |
| Lines.FoundInPrefix | library/_io.py:1709-1773 | a line end found in the text gathered so far is that of the whole text |
| Lines.NotFoundInPrefix | library/_io.py:1709-1773 | if none is found there, the line goes on past it |
| TextCookie.PackIsSum | library/_io.py:1509-1523 | for fields that fit, the packed integer has the fields as its digits |
| TextCookie.ZeroCookie | library/_io.py:1826-1831 | of the cookies that fit only that of the start of the file, with the decoder reset, is 0 |
| TextCookie.CookieRoundTrip | library/_io.py:1509-1585 | unpacking gives back the fields if and only if each fits its width |
| TextSnapshot.CookieFeeds | library/_io.py:1816-1843 | feeding a good cookie's bytes gives enough text, and leaves what the cookie stands for to be read |
| TextSnapshot.FastSearch | library/_io.py:1881-1911 | from any guess within the input the search ends at a point not past the guess or the position where nothing is held back, and at the guess if that is one |
| TextSnapshot.Walk | library/_io.py:1920-1944 | the byte-by-byte walk always gets enough text, so the OSError cannot come up; it passes over no safe point before the position, and feeds just the bytes needed from the last |
| TextSnapshot.FindCookie | library/_io.py:1867-1949 | for such a guess the fields found replay to the current position |
| TextSnapshot.ExactPoint | library/_io.py:1917-1949 | where a byte first completes the characters used and leaves the decoder empty, no characters are left to skip and no bytes to feed |
| TextSnapshot.OneBytePosition | library/_io.py:1881-1949 | if every byte gives one character the search ends at the very byte of the position |
| TextStream.TextIOWrapper.constructor | library/_io.py:1437-1441 | a new stream has the decoding of all bytes from its position to read |
| TextStream.TextIOWrapper.ReadChunk | library/_io.py:1525-1566 | a chunk moves text from the undecoded to the decoded part, keeps the snapshot true, and is False exactly at the end of the file |
| TextStream.TextIOWrapper.Read | library/_io.py:1653-1684 | returns the next `size` characters, or all, of the text that was left |
| TextStream.TextIOWrapper.ReadLine | library/_io.py:1690-1773 | returns the text up to its first line end, cut at `size` if that is not negative and less; the rewind is never out of bounds |
| TextStream.TextIOWrapper.GatherLine | library/_io.py:1709-1766 | the text gathered and the text still undecoded are the text that was left, and the end found is the line's |
| TextStream.TextIOWrapper.RewindDecodedChars | library/_io.py:1568-1571 | moves back exactly when that many characters were used |
| TextStream.TextIOWrapper.Tell | library/_io.py:1851-1951 | changes nothing; raises AssertionError exactly if characters are used and the ratio's guess passes the snapshot's input, and otherwise returns a cookie that restores the text to be read, starting at the nearest safe point and feeding no byte too many |
| TextStream.TextIOWrapper.RatioGuesses | library/_io.py:1553-1566 | the ratio of the chunk in the snapshot never guesses too far |
| Ratios.GuessInRange | library/_io.py:1554-1557 | two roundings with the relative error of doubles never guess past an input of up to 2^51 bytes |
| TextStream.TextIOWrapper.SeekTo | library/_io.py:1782-1845 | seeking to a cookie that can be replayed, also past the end of the file, leaves exactly its text to be read; negative cookies are refused; the OSError comes up exactly if the cookie's bytes give too few characters, and then their text is decoded and nothing skipped |
| TextStream.TextIOWrapper.Seek | library/_io.py:1782-1845 | from the current position and from the end only seeks by 0 are possible: the first changes nothing in the text to be read unless `tell` raises, the second leaves none |
| TextStream.TellCookie | library/_io.py:1867-1949 | the packed fields unpack to themselves and stand for the text to be read |
| TextStream.TellOneByte | library/_io.py:1851-1951 | with one byte for each character `tell` returns the plain file position of the snapshot and the characters used since |
| TextStream.ChunkRead | library/_io.py:1535-1566 | after a chunk the snapshot explains the decoded text and the decoder's state |
| TextStream.Bookmark | library/_io.py:1653-1951 | tell, any read, any readline, seek: unless `tell` raised, the text to be read is as before |
| TextStream.SeekAndTell | library/_io.py:1782-1951 | right after a seek `tell` raises exactly if the ratio from before it guesses more bytes than the cookie has to feed |
| TextStream.StaleRatioGuessesTooFar | library/_io.py:1888-1890 | concrete bytes and chunks where it does, however results are rounded |
| TextRun.ReadMix | library/_io.py:1653-1773 | any mix of `read` and `readline` returns consecutive slices of the text, of the lengths the whole text determines, and keeps the ratio good |
| TextRun.ReadAndTell | library/_io.py:1653-1951 | after any mix of reads of a new stream of up to 2^51 bytes `tell` succeeds |
| TextDecoders.GetDecoderOpens | library/_io.py:1498-1503 | every buffered codec, wrapped as each newline mode asks, meets what the stream needs; `GetDecoderText` says which text it gives |
| TextDecoders.GetDecoderText | library/_io.py:1498-1503 | a file's bytes decoded at once are what the codec makes of them, with newlines translated in the default mode and as they are in the others |
| TextDecoders.OpenAndRead | library/_io.py:1437-1773 | a stream opened on bytes, and any mix of reads: the slices and what is left make up that text |
| TextDecoders.SameLines | library/_io.py:1690-1773 | the lines that readline gives in universal mode, translated, are those it gives in the default mode |
| BufferedWriter.BufferedWriter.FlushUnlocked | library/_io.py:996-1016 | the loop does what `AfterFlush` says for any answers of the raw stream |
| BufferedWriter.BufferedWriter.Write | library/_io.py:1041-1065 | the method does what `AfterWrite` says, with all its ways to raise |
| BufferedWriter.FlushSendsAccepted | library/_io.py:996-1016 | a flush sends exactly the bytes the raw stream accepts before it blocks or errs, keeps the rest, and raises what that answer makes it raise |
| BufferedWriter.WriteBuffers | library/_io.py:1051-1065 | bytes that fit in the buffer are queued and the raw stream is not asked |
| BufferedWriter.WriteFlushes | library/_io.py:1051-1065 | bytes that do not fit go out after those queued before, as far as the raw stream accepts; if it blocks the buffer stays full with the next ones and the rest is reported as not taken |
| BufferedWriter.WritePreFlushes | library/_io.py:1046-1051 | a buffer that is over its size is flushed first, and only if that empties it are the new bytes added |
| BufferedWriter.WriteConserves | library/_io.py:1041-1065 | raw contents and buffer grow by exactly the bytes taken; the reported count is never negative; the buffer is within its size after a write that returns, or that raises BlockingIOError from the flush after it added its bytes |
| BufferedWriter.RunConserves | library/_io.py:996-1065 | over any run of writes and flushes nothing is lost, repeated or reordered |
| BufferedWriter.AccountIsRight | library/_io.py:996-1065 | the counts reported to the caller account for all bytes if and only if no write meets an error of the raw stream with its bytes queued |
| BufferedWriter.WriteFailsOnError | library/_io.py:996-1065 | whether a write does is decided by the lengths queued and the raw stream's answers alone |
| BufferedWriter.QueuedBytesAreNotReported | library/_io.py:1057-1065 | a concrete write whose bytes are queued and not reported |
| CallKeys.KeysMatchCalls | library/_functools.py:28-57 | two calls get equal keys if and only if their arguments and ordered keywords are equal, with the same types if `typed`, and, for a lone argument if not `typed`, both or neither an int or a str; no argument is the private mark |
| LruCache.BoundedLruCache.Lookup | library/_functools.py:158-171 | a hit returns the entry's result and moves it to the newest end, a miss changes nothing; the ring stays a cycle that matches the dictionary one to one |
| LruCache.BoundedLruCache.Store | library/_functools.py:173-207 | a new key is appended, dropping exactly the oldest entry when there are `maxsize`; a key added meanwhile is left alone where it is |
| LruCache.BoundedLruCache.StoreFull | library/_functools.py:180-199 | the old root takes the new entry and the oldest link becomes the root: only the oldest entry goes |
| LruCache.BoundedLruCache.StoreMore | library/_functools.py:200-207 | a link is added at the newest end and `_full` is set at `maxsize` |
| LruCache.BoundedLruCache.CacheClear | library/_functools.py:146-152 | leaves a lone root, no entries and zero counts |
| LruCache.Unlink | library/_functools.py:162-164 | taking out a link leaves a cycle of the others in order |
| LruCache.LinkNewest | library/_functools.py:165-168 | putting it before the root leaves a cycle with it newest |
| LruCache.RotatedIsRing | library/_functools.py:182-199 | the cycle read from its second link on is again a well-formed cycle |
| LruCache.RotateMatches | library/_functools.py:180-199 | after the root moves the links store the entries without the oldest and with the new one, and the dictionary finds each |
| LruSpec.CacheHoldsMostRecent | library/_functools.py:154-208 | after any run of uses the cache holds exactly the `maxsize` most recently used keys, in the order of their last uses |
| LruSpec.UseIsLookupThenStore | library/_functools.py:154-208 | lookup and store together do to the keys what that theorem is about |
| LruCalls.ExecIsTransparent | library/_functools.py:154-208 | under any nesting of calls, clearing and raising, every call returns what the function returns, if it treats calls with equal keys alike |
| LruCalls.CallOutcome | library/_functools.py:154-208 | the function runs exactly for a call that is not cached; one that returns is cached then, one that raises leaves what its inner calls left; a hit keeps all entries |
| LruCalls.HoldsMostRecentCalls | library/_functools.py:154-208 | of calls made one after the other the cache holds the `maxsize` most recent that differ, in the order in which they were last made |
| LruCalls.TransparentIffRespects | library/_functools.py:154-208 | the cache is transparent if and only if the function does |
| LruCalls.EqualNumbersShareAnEntry | library/_functools.py:31-57 | concrete calls that share an entry and get one answer, and two that look alike and do not |
| LruCalls.CachedFunction.Run | library/_functools.py:154-208 | the wrapper object does to its ring what the theorems' executor does to the sequence |
| WaitGraph.EdgeClosesCycle | library/_frozen_importlib.py:77-87 | an edge added to an acyclic graph closes a cycle if and only if its end already leads to its start |
| ModuleLock.HasDeadlock | library/_frozen_importlib.py:77-87 | the loop ends, and returns True exactly when the owner leads to the caller |
| ModuleLock.AcquireBody | library/_frozen_importlib.py:89-108 | the body of `acquire` is one step of the system |
| ModuleLock.StepKeepsInv | library/_frozen_importlib.py:89-125 | every step of every thread keeps the wait-for graph acyclic and the lock discipline |
| ModuleLock.ReachableInv | library/_frozen_importlib.py:89-125 | so they hold in every reachable state |
| ModuleLock.RefusedIffCycle | library/_frozen_importlib.py:77-107 | a thread is refused if and only if waiting would close a cycle of waiting threads |
| ModuleLock.RecheckNeverRefused | library/_frozen_importlib.py:98-110 | a thread that waited once is never refused |
| ModuleLock.ReleaseIsSafe | library/_frozen_importlib.py:114-125 | the assertion in `release` holds and it never releases a wake-up lock that is not held; `LockHistory` says when it frees the lock |
| ModuleLock.LockDiscipline | library/_frozen_importlib.py:89-125 | an owner exactly while the count is positive (`CountIsDepth` says what it counts), at most one waiter counted, the wake-up lock held by the closed gate or by one passing thread and never both, and an open gate on every free lock |
| LockHistory.StepMovesDepth | library/_frozen_importlib.py:89-125 | a step moves the depth of a thread in a lock up for its acquisition, down for its release, and not otherwise |
| LockHistory.CountIsDepth | library/_frozen_importlib.py:89-125 | over any run the acquisitions of a lock by a thread, less its releases, are the lock's count if it is the owner and none otherwise |
| LockHistory.FreeIffReleased | library/_frozen_importlib.py:89-125 | a lock is free exactly when every thread has released it as often as it acquired it |
| LockHistory.OwnerStays | library/_frozen_importlib.py:98-125 | while a thread owns a lock no step of another changes owner or count or acquires it; its own release frees it only at count 1 |
| LockHistory.AcquiredIffFreeOrOwn | library/_frozen_importlib.py:98-102 | `acquire` succeeds at once exactly on a lock that is free or the caller's |
| LockHistory.WaitsAtClosedGate | library/_frozen_importlib.py:105-108 | a thread that has to wait finds the gate closed |
| LockHistory.GateOpens | library/_frozen_importlib.py:108-125 | and only the release that frees the lock, or a thread leaving the gate, opens it |
| ModuleLock.FreeLockWakes | library/_frozen_importlib.py:108-125 | no wake-up is lost: on a free lock a waiting thread can pass, at once or after the thread that is passing |
| ModuleLock.NeverStuck | library/_frozen_importlib.py:77-125 | every blocked thread waits, through a chain of owners, for one that can go on |
| Formatter.Format | library/_str_mod.py:124-413 | the single pass with its appends gives what `Printf.Format` defines, for a tuple, a single value or a mapping on the right, every conversion, flag, name, `*` and precision, errors included; `Directives` says what each part of that means |
| Directives.FlagsByMembership | library/_str_mod.py:194-213 | each flag is set exactly if its character stands anywhere in the run of flags; `+` overrules a blank |
| Directives.DirectiveIsRead | library/_str_mod.py:194-268 | flags, width, point, precision and conversion are read in this order, digits as the number they stand for and `*` from the arguments, a negative one as `-`; it is refused exactly if the string ends or a `*` has no int |
| Directives.NumberOfDigits | library/_str_mod.py:230-268 | the decimal numeral of a number is read as that number |
| Directives.DigitsAreNumeral | library/_str_mod.py:309-385 | the digits of a conversion stand for the number in its base, without leading zeros |
| Directives.KeyRunsToMatch | library/_str_mod.py:173-182 | a key runs to the parenthesis that matches its first; there is none only if the rest never closes it |
| Directives.NameIsLookedUp | library/_str_mod.py:161-192 | a name takes what the mapping has for it as the only argument, and is refused without a mapping, a closing parenthesis or an entry |
| Directives.TextConverted | library/_str_mod.py:33-47 | `s`, `r`, `a` and `c` give the text cut to the precision, with blanks to the width behind it if `-` is given and before it otherwise |
| Directives.IntConverted | library/_str_mod.py:50-385 | integers give blanks, sign, prefix if `#` is given, zeros and digits in this order, in the base of the conversion |
| Directives.FloatConverted | library/_str_mod.py:50-392 | floats give their digits at the precision, 6 if none, laid out as for the precision 0 |
| Directives.PlainCharacter | library/_str_mod.py:140-150 | a character that is no percent sign stands for itself |
| Directives.PercentSign | library/_str_mod.py:150-399 | a doubled percent sign stands for one; else its directive is replaced by what the conversion makes of its argument, and the next argument is taken after it |
| Formatter.AppendNumber | library/_str_mod.py:50-89 | the order of padding, sign, prefix, zeros and digits |
| Formatter.NumberMeetsWidth | library/_str_mod.py:50-89 | the helper's text is as wide as asked unless a `0` flag meets a precision, as given to the helper, below the number of digits |
| Formatter.ConversionMeetsWidth | library/_str_mod.py:33-392 | the text of a conversion is as wide as asked, except exactly: integers with a `0` flag and a precision below their digits that need padding, and floats with a `0` flag that need padding |
| Formatter.ZeroFilledFloat | library/_str_mod.py:50-392 | how wide a float with a `0` flag comes out instead |
| Formatter.ZerosFallShortOfWidth | library/_str_mod.py:66-76 | a concrete number that is not |
| Formatter.ZeroFlagNeverFillsFloat | library/_str_mod.py:372-392 | two concrete floats, one without a precision and one with a large one, that are too narrow |
| Formatter.AppendString | library/_str_mod.py:33-47 | truncation and padding of text |
| PrintfRewrite.RewriteStrMod | library/_compiler.py:42-187 | for a tuple display or any other right side, the scans and appends give the parts that `Rewrite` defines, or refuse |
| RewrittenFormats.RewrittenIff | library/_compiler.py:42-187 | a format is rewritten if and only if no percent sign ends it or precedes a parenthesis as the first scan pairs them, it is made of text, `%%` and zeros, width and one of `sradiuxXo`, and it takes as many values as the right side shows |
| PrintfMeaning.TextConversion | library/_compiler.py:147-155 | `%s`, `%r`, `%a`: both sides give texts of one length, the same exactly when fair |
| PrintfMeaning.IntConversion | library/_compiler.py:156-173 | `%d`, `%i`, `%u`, `%x`, `%X`, `%o`: both sides give the same text |
| PrintfMeaning.SegmentMeaning | library/_compiler.py:79-187 | from any point of the format on, f-string and formatter agree if the rest is fair, and give the same text only then |
| PrintfMeaning.RewritePreservesMeaning | library/_compiler.py:42-187 | a fair format that is rewritten has the same value, and raises in the same cases, also for a mapping on the right; for a right side that turns out to be a tuple of another length, empty or not, both raise, fair or not |
| PrintfMeaning.SameTextIffFair | library/_compiler.py:42-187 | with integers for integer conversions the texts are equal if and only if the format is fair and there is one argument for each conversion |
| PrintfMeaning.ZeroFlagOnTextDiffers | library/_compiler.py:100-155 | a concrete `0` flag on `%s` that gives another text |
| PrintfMeaning.WidthBeforePercentDiffers | library/_compiler.py:115-133 | a concrete width before a percent sign that no longer raises |
| MarshalRoundTrip.RoundTrip | library/marshal.py:183-364 | reading the bytes of any object, followed by any bytes, gives back the object and those bytes: integers of any size, nested containers, dictionaries closed by TYPE_NULL, code objects, references |
| MarshalFormat.DigitsRoundTrip | library/marshal.py:246-264 | 15-bit digits stand for the integer they were peeled from |
| MarshalRoundTrip.WritesExactlyTheWritable | library/marshal.py:246-364 | writing raises if and only if some length or header field does not fit in four signed bytes |
| MarshalRefs.RefsNameStarted | library/marshal.py:183-243 | every TYPE_REF is below the number of flagged objects started before it |
| MarshalSharing.ReadBack | library/marshal.py:183-243 | a reader that numbers flagged objects as they start stays in step with the writer's table and rebuilds each object once |
| MarshalDump.Version2RoundTrip | library/marshal.py:183-233 | version 2: the nested value comes back, with exactly the bytes that follow |
| MarshalDump.Version2Writes | library/marshal.py:183-364 | version 2 raises exactly for unsupported objects and numbers that do not fit |
| MarshalDump.Version3RoundTrip | library/marshal.py:88-243 | version 3: an isomorphic copy of the object graph comes back, one object for each, with the same contents and sharing |
| MarshalDump.Version3WritesOnce | library/marshal.py:88-243 | each reachable object is written in full exactly once, and flagged are exactly those that the counting walk comes to more than once |
| MarshalBytes.LongIsLittleEndian | library/marshal.py:359-360 | a number is four bytes, lowest first, in two's complement |
| MarshalBytes.SingletonBytes | library/marshal.py:183-193 | the five singletons are the bytes 78, 83, 46, 70 and 84 |
| MarshalBytes.AtomBytes | library/marshal.py:246-294 | each atom has its code, 128 more if flagged, and then its number, digits, eight bytes or length and bytes |
| MarshalBytes.SequenceBytes | library/marshal.py:297-356 | tuples, lists and sets have their code, length and items |
| MarshalBytes.DictBytes | library/marshal.py:313-319 | dictionaries have 123, keys and values, and 48 |
| MarshalBytes.CodeBytes | library/marshal.py:322-340 | code objects have 99, six numbers, eight parts, the first line number and the last part |
| MarshalBytes.SharedPairBytes | library/marshal.py:88-243 | the bytes of a concrete tuple in version 3, with a flag and a reference |
| MarshalDump.Version3Refuses | library/marshal.py:97-138 | while addresses suffice version 3 refuses exactly what version 2 does |
| RuntimeLong.DigitsAreRead | runtime/marshal.cpp:496-521 | the digits taken one by one stand for the integer that the round trip reads |
| RuntimeLong.DigitSplits | runtime/marshal.cpp:512-519 | a digit across a word boundary is split so that words and buffer stand for the digits read |
| RuntimeLong.NegatedGrows | runtime/marshal.cpp:530-537 | the carry chain negates the number word by word |
| RuntimeLong.ReadLongObject | runtime/marshal.cpp:476-558 | packing digits into words of any width, negating in place and extending the sign gives the two's complement of the integer that was written, with no redundant word, or None for a negative digit |
| RuntimeReader.ReadsItem | runtime/marshal.cpp:139-473 | from the bytes of any item, followed by anything, the runtime builds what the item stands for under its numbering of references, and refuses exactly the kinds it does not read |
| RuntimeReader.RuntimeLoadsVersion2 | runtime/marshal.cpp:139-473 | the runtime loads the bytes of version 2 if and only if it reads the kinds of all objects in the graph, and then the value that was written |
| RuntimeReader.RuntimeLoadsIffSafe | runtime/marshal.cpp:139-473 | it loads the bytes of version 3 as they were written if and only if it reads the kinds of all objects in the graph and no reference is at or above the number of a flagged empty frozen set |
| RuntimeReader.RuntimeLoadsBack | runtime/marshal.cpp:139-473 | without shared empty frozen sets it loads a copy of the graph, with the same sharing, and leaves the bytes that follow |
| RuntimeReader.SharedEmptyFrozenSetIsNotLoaded | runtime/marshal.cpp:368-376 | the bytes of a concrete pair that it does not load |
| MarshalRuntime.ReadableIffGraph | runtime/marshal.cpp:139-267 | what version 3 wrote holds only kinds the runtime reads if and only if the graph does |
| MarshalRuntime.RuntimeAgreesIffSafe | runtime/marshal.cpp:139-267 | the same for the items: two readers that number differently agree if and only if no reference is at or above the lost number |
| MarshalRuntime.SharedEmptyFrozenSetIsLost | runtime/marshal.cpp:368-376 | a concrete pair whose second reference names nothing |
| MarshalWriter.Dumps | library/marshal.py:380-393 | counting and dumping through the stream and the tables give exactly the bytes of `MarshalDump.Dumps`, or raise with it |
| MarshalWriter.Dump | library/marshal.py:183-233 | one object: the bytes appended, their count and the new table |
| MarshalWriter.DumpInt | library/marshal.py:246-264 | the digit loops write the bytes of the integer |
| MarshalWriter.ReferenceData.GetIndirectRef | library/marshal.py:88-94 | returns the object's first position, appending it if new, and disturbs no count or address |
| MarshalWriter.ReferenceData.CountReferences | library/marshal.py:97-176 | adds to each count the visits of a walk that never prunes, and fails exactly on unsupported objects |
| EllipsisMatch.EllipsisMatch | library/doctest.py:285-332 | True if and only if some gaps joined with the pieces of `want` make `got` |
| EllipsisMatch.GreedyIsComplete | library/doctest.py:319-330 | taking the leftmost place for each piece loses no match |
| EllipsisMatch.SplitJoins | library/doctest.py:294-295 | the pieces hold no marker, joined by markers they make `want`, and each ends at the leftmost |
| DunderNew.EmitOp | library/_bytecode_utils.py:21-33 | appends an instruction with its prefixes, or fails on an argument over 32 bits |
| DunderNew.OpRuns | library/_bytecode_utils.py:21-33 | prefixes and opcode run as one instruction with the full argument |
| DunderNew.CallsTarget | library/_bytecode_utils.py:36-59 | for every number of arguments the code returns the call of the target with the class and the tuple of the others, within `co_stacksize` |
| DunderNew.MakeDunderNew | library/_bytecode_utils.py:36-59 | emits that code, with `nlocals` one more than the arguments with the class and `co_stacksize` one more than that, and fails only for more arguments than 32 bits can count |
| DunderNew.LiteralCode | library/_bytecode_utils.py:13-59 | the bytes of the shortest such function and of an instruction with three prefixes |

## Left out

- Exceptional exits from the middle of a block: a path moves only along `get_children` edges at block ends.
- The entry block without predecessors, and bit vectors as sets of positions, are assumptions of the local-variable model; the order in which unset locals are deleted is arbitrary, where the source sorts by name.
- Locals are identified by their position in `varnames`, which the source keeps free of duplicates.
- TextStream.TextIOWrapper.Tell: the contract requires fewer than `2**bits` decoded characters, and a stream opened on fewer bytes than that, since a cookie field holds no more; `bits` is 64 in the source.
- Ratios.GuessInRange: numbers of characters are taken to be exact as doubles, as they are below 2^53.
- TextStream.TextIOWrapper.Seek: the checks of the type of `whence` and for streams that cannot seek.
- `__next__`, writing through TextIOWrapper, encoders, `flush`, and the checks for closed or detached streams.
- IncrementalNewlineDecoder without an inner decoder.
- That a decoder is silent after the end of the input is an added law about `_buffer_decode`, which is an abstract method at `library/_codecs.py:896`.
- BufferedWriter: the checks for closed streams and text arguments, `seek`, `tell` and `truncate`; the raw stream is a finite script of answers, after which it accepts everything, and writes a prefix when it accepts one.
- Threads in the LRU cache: each critical section keeps the ring valid on its own, so any interleaving of whole sections does; hit and miss counts are fields but no theorem sums them over a run.
- CallKeys.KeysMatchCalls: requires that no argument or keyword is the private mark object, as the source assumes.
- `_get_module_lock` and its weak references, which depend on the garbage collector.
- Printf: an object stands for what the conversions make of it: its texts, character, integers and the digits of its float are given; a mapping stands for its lookup. Widths over 2^63 and the order in which right-hand sides are evaluated are not modelled.
- PrintfRewrite.RewriteStrMod: does not model the folding of constant right sides before the scans, which computes the formatter's own result and would only add an easy member.
- Marshal: strings stand for their UTF-8 bytes, floats for their eight bytes, bytearrays for bytes, sets for their elements in iteration order. Cyclic graphs, which the module's documentation rules out, are not graphs of the model.
- RuntimeReader.RuntimeLoadsBack: does not model that the runtime returns one shared object for all empty tuples and one for all empty frozen sets, that its sets merge equal elements, and what `newCode` does to a code object: its checks of the parts, interned strings and the recomputed NOFREE flag. Built-in code objects and code objects with metadata or negative numbers count as not read; reading past the end of the buffer counts as failing.
- RuntimeLong.ReadLongObject: requires that the buffer holds the digits, that their bits can be counted in an int32, and that they are not all zero unless there are none, as the writer has it; that small results become SmallInts is a matter of representation.
- RuntimeReader.ReadObject: a function on the bytes left, where the source moves a position and appends to a list of references.
- `ComprehensionRenamer`, finders and loaders, file objects, dataclasses and the rest of doctest: simpler than the parts above, operating-system plumbing, or code made as text. `PyroCodeGenerator` rests on visitors of the `compiler` package, which is not part of this model.
