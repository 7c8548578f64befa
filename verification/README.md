# scroller, modelled and verified in Dafny

scroller is a small SQL database in C. This project models its core and proves what it promises. Every method of a
model class does step by step what the C function does, on the same fields, and is proved against a pure function or a
ghost sequence; lemmas then say what that function means for whole runs. `dafny verify dfyconfig.toml` checks everything.

## The parts

**Caches over index-linked nodes.** `IndexList` is the doubly linked list over slots with its freelist, `IndexHash` the
chained hash table over a fixed node pool, `IndexCache` the LRU cache built from the two, in which each hash entry stores
the index of its list node. Their abstract states are a sequence of slots and a finite map. `LruModel` is the recency
order as a pure state machine; `ICache.Touch` refines it. A put can fail: evicting the least recent key frees no chain
node when that key is alone in a bucket other than the new key's. `TouchFails` gives the exact condition, on failure
exactly the evicted key is lost. `FdCache` keeps the open descriptors equal to those of live entries; `PageCache` adds
frames, the stack of unused frames and the disk, a total map of full pages. Every operation of the two states exactly
when it succeeds, from the orders of both caches and the kernel's answers. `PageModel` proves over whole runs that the
cache cannot be told from a plain store, and that a page written through a frame remembered from earlier is the page
meant, as when a new page is linked behind the tail; `Handles` has this for any number of remembered pages that are read
and written while others are touched, as the row iterators do.

**WHERE.** The first grammar flattens a condition to infix tokens inside a loop, `bc_prepare` links the loop marks, the
lexer replays the body once per visible row with no separator, and the second grammar reads the stream and computes
while it reads. `WhereSyntax` has the trees, the flattening and the second grammar as a recursive-descent reading whose
semantic actions are a parameter; with tree-building actions it gives the round trip (`WhereRoundTrip`, `WhereSound`),
with the evaluating ones the meaning (`WhereEval`, and `WhereMeaning` for what the operators amount to). `Bytecode` and
`WhereExec` put the pipeline together. The meaning is what the code computes: a parenthesised condition is worth 1 or 0,
NOT BETWEEN is computed as BETWEEN, both operands of AND and OR are always computed, an identifier that names no column
stays a name and is true unless it is empty, 64-bit arithmetic wraps. `WhereTruth` has what conditions say over plain
numbers and texts, without the code's data, and proves that this is what is computed wherever they say something.
`DeleteWhere` is DELETE with a condition, in place, where the lexer's iterator and the lines' iterator both run over rows
that the lines are marking. `Like` proves the greedy LIKE loop against the recursive definition of `%` and `_` of ISO/IEC
9075:1992, section 8.5, without ESCAPE.

**Transactions.** `Mvcc` is the state machine of interleaved sessions, one statement at a time, with its invariants;
an autocommit transaction is flagged committed when it is made and its id outlives the statement. `Erasure` proves that
a transaction that never commits leaves every other session's views, after every statement, as if its START had been
refused (which spends an id, so that later ids agree) and its other statements left out, if and only if it never
overwrites the deletion mark of another open transaction; the replies then agree too. A refused START is a device: the
table of transactions is private to its process and holds one entry at a time, so it does not fill up. `Removal` has the
same with the START taken out, up to the renaming of later ids. `TranEngine` does the statements in place over the flag
page's bits. `Endings` is what START, COMMIT and ROLLBACK do to the session itself, and that a rolled-back transaction
stays without trace for good.

**Tables.** `Mesh` is the chain of pages, allocation at its tail and the row iterator; `TableScan` joins it with the
transactions' views, with WHERE, and with the page bytes; `Grid` lays out columns and cells in them, with the rounding
of `Align`; `IdSequence` is the number sequence with its setters.

**Memory and wire.** `Bump` is the bump allocator over bytes in which headers occupy real cells, with its slots for child
contexts. `Wire` is the server's send buffer, the reply format, and the client's receive buffer under any fragmentation
of the stream.

The hash function is an arbitrary total function. The kernel's answer to `open`, the size of each chunk that `recv`
returns, and whether the transaction table has room are inputs.

## Where the code differs from its documentation, or from what one expects

The model follows the code.

- A cache touch documented as insert-or-update can fail after it has evicted a key (`TouchFails`, and `TouchCanFail` for
  a run); the page cache asserts that it does not.
- The page linked behind the tail is written through a frame remembered from before other pages were touched; with fewer
  chain nodes than those the write lands in another page (`StaleWrite`, `RememberedExactly`). The row iterators keep the
  frames of their page and of the table's header likewise: one iterator reads its pages right with one chain node
  (`OneIterator`), but the header's frame, and an iterator that another one runs ahead of, only while fewer pages than
  `chainsz` were passed (`FewMovesSuffice`, `FrameReused`).
- NOT BETWEEN is BETWEEN (`NotBetweenIsBetween`).
- A name that is no column is true as a condition (`UnknownName`).
- A column declared with 16 characters or more is not found under its name (`LongNameIsLost`, `FoundUnderItsName`).
- A statement with WHERE over no visible row is a syntax error, since its list of conditions is empty
  (`WhereChoosesTrueRows`).
- Integer comparison subtracts with wrap-around and is right exactly if the difference fits 64 bits
  (`CmpIntegerExact`, `OrderIsRight`); so BETWEEN need not be the range test (`BetweenIsRange`).
- The assertion on a row's deleter in the visibility test can fail for autocommit inserters (`AutocommitRowTouched`, and
  `AssertionBreaks` for exactly when).
- A deletion by a committed transaction is lost if another transaction overwrote its mark (`LostDelete`,
  `OverwritingIsNotErased`, and `ErasedExactly` for when a rolled-back transaction leaves no trace).
- The iterator stops at a page without rows; rows in later pages are not visited (`ReachIsFlat`).
- `align_up` is documented for powers of two and used for any column size; columns with bytes still follow each other
  (`AlignUpBounds`), but are aligned to all multiples only for powers of two (`AlignUpAligns`).
- A column of no bytes, which SQL accepts as `CHAR(0)`, and one that makes the row longer than 16 bits, as `CHAR(65536)`
  does, bring the row's size back: the columns behind it lie over the first ones, in an MVCC table over the row's
  inserter (`WidthsThatRestart`, `InserterOverwritten`). `LayoutExactly` says for which declarations all columns are apart.
- `grid_alloc_row` is documented to return a zeroed row; it does not clear it. The row is zero as long as every row given
  up in last place was (`AllocRow` and `DeleteRow` of `Grid`, `StaleRow`).
- A number of a narrower kind put into a column of another kind is read as eight bytes, of which only the narrow ones were
  set (`CellTrip`).
- A context smaller than its own record is created without complaint, and everything is granted in it
  (`SmallContexts`).
- Popping from an empty list is documented to return nothing; it takes slot -1.
- A failed realloc of the last block releases the block (`Realloc`).
- The fifteen largest sizes wrap to 0 when they are rounded and pass the assertion meant to stop them: alloc then returns
  a block of no bytes (`WrappedAlloc`), realloc the old block as if it had grown (`AcceptedSizes`, `Alloc`, `Realloc`).
- A write of 4096 bytes or more into an empty send buffer loses its last 4096 bytes (`Send`).
- The client copies a column record of its own size, whatever size was sent (`CopiedExactly`).
- A stream that ends inside a row's command is reported as an unknown command, not as a closed connection (`RecvRow`).

## Model

| member | source | states |
|---|---|---|
| IndexList.IList.Clear | lib/core/src/ilist2.c:116-139 | the list is empty and every slot is on the freelist, in index order; values stay |
| IndexList.IList.PopBack | lib/core/src/ilist2.c:187-215 | returns and removes the last element; its slot becomes the first free one; links stay mutual inverses |
| IndexList.IList.PopFront | lib/core/src/ilist2.c:223-251 | returns and removes the first element; its slot becomes the first free one |
| IndexList.IList.TouchNew | lib/core/src/ilist2.c:443-466 | the first free slot becomes the only element of an empty list |
| IndexList.IList.TouchBack | lib/core/src/ilist2.c:259-296 | appends the first free slot, or changes nothing and reports UNDEF exactly if no slot is free |
| IndexList.IList.TouchFront | lib/core/src/ilist2.c:304-342 | prepends the first free slot, or changes nothing and reports UNDEF exactly if no slot is free |
| IndexList.IList.MoveFrontByIdx | lib/core/src/ilist2.c:398-434 | the element in any slot of the list becomes the first, the others keep their order and slots |
| IndexList.IList.MoveBackByIdx | lib/core/src/ilist2.c:351-390 | the element in any slot of the list becomes the last, the others keep their order and slots |
| IndexList.FreeRoom | lib/core/src/ilist2.c:187-463 | list and freelist partition the slots: the freelist is empty exactly when the list has all of them |
| IndexList.MovedFront | lib/core/src/ilist2.c:398-434 | relinking a slot in front keeps forward and backward links inverse to each other |
| IndexList.MovedBack | lib/core/src/ilist2.c:351-390 | relinking a slot at the back keeps forward and backward links inverse to each other |
| IndexHash.IHash.Clear | lib/core/src/ihash.c:250-280 | the table stores nothing and all chain nodes are free |
| IndexHash.IHash.Get | lib/core/src/ihash.c:313-345 | finds the slot that stores the key, or UNDEF exactly if no slot does |
| IndexHash.IHash.Touch | lib/core/src/ihash.c:367-424 | finds or makes the key's slot and keeps every other payload; fails exactly if the key is absent, its bucket is taken and no chain node is free |
| IndexHash.IHash.Erase | lib/core/src/ihash.c:434-497 | removes exactly the key, also when a chain node is copied into its bucket |
| IndexHash.IHash.Begin | lib/core/src/ihash.c:507-518 | the iteration starts with a sequence that lists every stored key once |
| IndexHash.IHash.Next | lib/core/src/ihash.c:527-551 | moves on by one entry of that sequence |
| IndexHash.IHash.NextOccupiedBucket | lib/core/src/ihash.c:561-575 | skips empty buckets only |
| IndexHash.FilledOk | lib/core/src/ihash.c:375-380 | a key put into its empty bucket keeps chains and freelist a partition of the nodes |
| IndexHash.ExtendedOk | lib/core/src/ihash.c:387-402 | a node taken from the freelist to the end of a chain keeps the partition |
| IndexHash.PromotedOk | lib/core/src/ihash.c:455-463 | copying the first chain node into the bucket and freeing it removes exactly the bucket's old key |
| IndexHash.UnchainedOk | lib/core/src/ihash.c:475-489 | unlinking a chain node removes exactly its key |
| IndexHash.RewrittenOk | lib/core/src/ihash.c:367-424 | a payload written in place changes one key's value and no link |
| Buckets.OccupiedIff | lib/core/src/ihash.c:367-424 | a bucket is occupied exactly if some key hashes to it |
| Buckets.FlatEnumerates | lib/core/src/ihash.c:507-575 | the rows of all buckets one after the other list each key once |
| LruModel.TouchKeepsInv | lib/core/src/icache.c:183-214 | in every reachable order the keys are distinct and fit the chain nodes |
| LruModel.RetryOutcome | lib/core/src/icache.c:197-206 | after the eviction the second touch succeeds if and only if the evicted key shared its bucket with another key or hashed to the new key's bucket |
| LruModel.TouchFails | lib/core/src/icache.c:183-214 | a touch fails if and only if the key is new, the table has no room for it, and the evicted key was alone in a bucket other than the new key's |
| LruModel.TouchCanFail | lib/core/src/icache.c:197-206 | a reachable cache of two buckets and no chain nodes where the touch of a new key drops another one and fails |
| LruModel.OneBucketNeverFails | lib/core/src/icache.c:183-214 | with a single bucket every touch succeeds |
| LruModel.EvictionNeedsFullTable | lib/core/src/icache.c:197-206 | an eviction happens only with more than `chainsz` entries resident |
| LruModel.Capacity | lib/core/src/icache.c:183-214 | never more keys than buckets and chain nodes together |
| LruModel.WorkingSet | lib/core/src/icache.c:183-214 | a touched key stays resident through any touches of at most `chainsz` distinct other keys |
| LruModel.RunKeepsWorkingSet | lib/core/src/icache.c:183-214 | the same for any starting order in which only working-set keys are more recent |
| IndexCache.ICache.Touch | lib/core/src/icache.c:183-214 | the cache does to its recency order exactly what the pure model does; success returns the key's slot; other users' payloads stay |
| IndexCache.ICache.Promote | lib/core/src/icache.c:190-191 | a hit moves the key to the front |
| IndexCache.ICache.DropLast | lib/core/src/icache.c:198-203 | an eviction removes exactly the least recent key from list and hash |
| IndexCache.ICache.TryInsert | lib/core/src/icache.c:193-197 | the new key goes in front; refused, with nothing changed, exactly if the hash has no room |
| IndexCache.ICache.Clear | lib/core/src/icache.c:152-157 | empty hash and empty list |
| IndexCache.ICache.constructor | lib/core/src/icache.c:104-145 | starts empty with the given sizes |
| IndexCache.SameKeys | lib/core/src/icache.c:183-214 | hash keys are list keys, each once |
| IndexCache.HitAgree | lib/core/src/icache.c:190-191 | after a hit each entry's stored index still names the list node with its key |
| IndexCache.Dropped | lib/core/src/icache.c:198-203 | after an eviction each remaining entry's stored index still names its list node |
| FdCaching.FdCache.Touch | lib/core/src/fdcache.c:64-109 | recency as in the model; succeeds exactly if the file is open already, or the kernel opens it and the recency model's touch succeeds; a hit opens nothing; afterwards the open descriptors are exactly those of live entries, also after a failed retry |
| FdCaching.FdCache.Descriptor | lib/core/src/pagecache.c:158-162 | an open descriptor of that file, or none exactly if the touch fails |
| FdCaching.FdCache.Insert | lib/core/src/fdcache.c:73-108 | a new descriptor is entered, the evicted entry's closed; if the retry fails the new one is closed too |
| FdCaching.FdCache.Clear | lib/core/src/fdcache.c:31-41 | closes every open descriptor, none twice |
| FdCaching.EntryRemoved | lib/core/src/fdcache.c:86-103 | removing an entry and closing its descriptor keeps descriptors and entries in step |
| PageModel.TouchHidden | lib/core/src/pagecache.c:85-117 | transparency: no successful touch, hit, miss or eviction with write-back, changes the logical contents of any page |
| PageModel.RunIsPlain | lib/core/src/pagecache.c:85-176 | over any run of touches, stores, loads and flushes a load returns the last page stored, or else the one seen at the start |
| PageModel.FlushReachesDisk | lib/core/src/pagecache.c:120-131 | a flush puts the page that programs see on the disk and no other page; an empty cache over that disk shows it |
| PageModel.TouchOk | lib/core/src/pagecache.c:85-117 | a page touch succeeds exactly when the recency model's does, and keeps the frames of all pages that stay |
| PageModel.StackNotEmpty | lib/core/src/pagecache.c:95-113 | the frame stack never underflows on a miss that finds a node |
| PageModel.FrameStays | lib/core/src/mesh.c:41-46 | a page just touched keeps its frame through successful touches of at most `chainsz` other pages, so the old page pointer is not stale |
| PageModel.WriteReaches | lib/core/src/mesh.c:41-46 | a write through a frame index is seen in the page that has the frame now, and in no other |
| PageModel.RememberedFrame | lib/core/src/mesh.c:41-46 | so the write of the old tail's link reaches the old tail if at most `chainsz` other pages were touched since |
| PageModel.RememberedExactly | lib/core/src/mesh.c:41-46 | whatever was touched in between, the write changes the page meant and no other if and only if that page is resident in that frame |
| PageModel.FrameReused | lib/core/src/mesh.c:41-46 | the bound is tight: in an empty cache of one bucket, after one more page than there are chain nodes, the frame remembered for the first page is the last one's |
| PageModel.StaleWrite | lib/core/src/mesh.c:41-46 | so a write meant for the first page lands in the last one, for any number of chain nodes |
| PageModel.EvictOk | lib/core/src/pagecache.c:97-103 | the evicted page's frame goes on the stack: frames of live entries and stacked frames partition all frames |
| PageModel.LoadOk | lib/core/src/pagecache.c:108-113 | the loaded page takes the top frame of the stack: the partition stays |
| PageModel.StepSeen | lib/core/src/pagecache.c:85-176 | a store changes the logical contents of one page; touches, loads and flushes of none |
| PageCaching.PageCache.Touch | lib/core/src/pagecache.c:85-117 | the in-place cache refines the model step; whether the page becomes resident, a descriptor is missing or no node is free is exactly what the orders of both caches and the kernel's answers say |
| PageCaching.FateIsTouch | lib/core/src/pagecache.c:85-117 | if the kernel opens every file and the descriptor cache never refuses one, a touch succeeds if and only if the page model's does; in any case it never does more |
| PageCaching.OneBucketSuffices | lib/core/src/fdcache.c:64-109 | a descriptor cache with a single bucket never refuses a file |
| PageCaching.PageCache.WriteRemembered | lib/core/src/mesh.c:22-46 | a page written through the frame remembered from before other pages were touched: with at most `chainsz` other pages in between the write changes that page, as programs see it, and no other |
| PageCaching.PageCache.ReadPages | lib/core/src/table.c:44-66 | a scan that touches each page, then looks up commit flags, then reads the page through the frame remembered: with one chain node it reads what the pages hold |
| PageCaching.PageCache.ReadRemembered | lib/core/src/tran.c:39-48 | one such read, exact up to `chainsz` other pages; no page changes |
| Handles.HandlesAreTransparent | lib/core/src/table.c:12-66 | any number of remembered pages, with reads, writes and other touches mixed in any way: what is read and what all pages hold is as without a cache, if each use comes within `chainsz` other pages |
| Handles.OneIterator | lib/core/src/table.c:44-66 | one iterator with its flag look-ups reads what the pages hold, for any chain of pages, with one chain node |
| Handles.FewMovesSuffice | src/scrs/execute.y:217-244 | with several, such as the two of DELETE or the header page a scan keeps: a use is right if the others moved to fewer than `chainsz` pages since |
| PageCaching.PageCache.TouchEach | lib/core/src/mesh.c:16-43 | touching pages one after the other refines the model's run of touches |
| PageCaching.PageCache.Flush | lib/core/src/pagecache.c:120-131 | writes the resident page's frame to its disk page and changes nothing else; succeeds exactly if the page is resident and its file can be had |
| PageCaching.PageCache.WriteBack | lib/core/src/pagecache.c:155-176 | the frame becomes the disk page and goes on the stack, exactly if the file can be had |
| PageCaching.PageCache.ReadIn | lib/core/src/pagecache.c:134-152 | the top frame of the stack gets the disk page, exactly if the file can be had |
| PageCaching.PageCache.Store | lib/core/src/pagecache.c:85-117 | writing into a handed-out frame is the model's store |
| PageCaching.PageCache.Load | lib/core/src/pagecache.c:85-117 | reading a handed-out frame is the model's load |
| PageCaching.PageCache.Clear | lib/core/src/pagecache.c:57-68 | no page resident, all frames on the stack |
| Types.Wrap64 | lib/core/src/type.c:187-196 | the 64-bit value congruent to the exact result modulo 2 to the 64th |
| Types.CharToVarchar | lib/core/src/type.c:121-130 | cuts exactly the trailing spaces |
| Types.TrimRightUnique | lib/core/src/type.c:121-130 | which prefix that is |
| Types.CmpIntegerExact | lib/core/src/type.c:187-196 | comparison by wrapping subtraction has the right sign if and only if the difference fits 64 bits; equality is always right |
| Types.CmpIsAlphabetical | lib/core/src/type.c:284-298 | comparison of trimmed data is alphabetical order, a proper prefix first |
| Types.BeforeIs | lib/core/src/type.c:284-298 | alphabetical order: the texts agree up to some place, where the first one ends or has the smaller character |
| Types.CmpCharacterOrder | lib/core/src/type.c:284-298 | it is antisymmetric, transitive, and zero exactly on data equal up to padding |
| Types.TruncModSign | lib/core/src/type.c:252-276 | quotient and remainder recompose the dividend; the remainder has the dividend's sign |
| Like.LikeMatch | lib/core/src/type.c:470-496 | the greedy loop with one remembered `%` terminates and returns true exactly if the recursive definition of `%` and `_` matches |
| Like.EarliestIsEnough | lib/core/src/type.c:470-496 | at a further `%`, a match exists from some start if and only if it exists from the earliest one |
| Like.PercentIsAnySuffix | lib/core/src/type.c:470-496 | `%` matches any characters: some suffix matches the rest |
| Like.AttemptFails | lib/core/src/type.c:470-496 | a mismatch rules the current start out |
| WhereSyntax.ParseOr | src/scrs/execute.y:295-398 | reading a condition always consumes tokens |
| WhereRoundTrip.OrTrip | src/scrs/hquery.y:270-393 | the second grammar reads a flattened condition back, whatever follows that cannot continue it, and its actions are a fold over the tree |
| WhereRoundTrip.CompareTrip | src/scrs/hquery.y:295-317 | a comparison between two sums |
| WhereRoundTrip.InTrip | src/scrs/hquery.y:318-332 | IN and NOT IN lists, with their parentheses |
| WhereRoundTrip.BetweenTrip | src/scrs/hquery.y:324-338 | BETWEEN and NOT BETWEEN, emitted without their AND |
| WhereRoundTrip.AddTrip | src/scrs/hquery.y:341-353 | sums associate to the left |
| WhereRoundTrip.MulTrip | src/scrs/hquery.y:355-366 | products associate to the left |
| WhereRoundTrip.ConditionStarts | src/scrs/execute.y:269-273 | a condition never starts with a token that continues the one before, which is why no separator is needed |
| WhereRoundTrip.LinesTrip | src/scrs/execute.y:269-273 | conditions written one after the other without separators are read back one by one as the same trees |
| WhereRoundTrip.SumsRead | src/scrs/execute.y:371-393 | without parentheses sums group from the left, products before sums, both before a comparison |
| WhereRoundTrip.ConnectivesRead | src/scrs/execute.y:299-312 | and NOT before AND before OR |
| WhereRoundTrip.Unambiguous | src/scrs/execute.y:269-398 | no token stream flattens two different sequences of conditions |
| WhereSound.ReadsExactlyFlattenings | src/scrs/execute.y:295-398 | a stream is read as the tree `e` to its end if and only if it is the flattening of the derivation `e` |
| WhereSound.OrSound | src/scrs/execute.y:295-398 | what is read is a derivation whose flattening is the consumed tokens |
| WhereEval.FoldIsEval | src/scrs/execute.y:295-398 | computing in the actions gives the tree's value (what that is: `WhereTruth`) |
| WhereEval.ReadingEvaluates | src/scrs/execute.y:295-398 | reading a condition's tokens computes the tree's value for the current row, errors included |
| WhereEval.NotBetweenIsBetween | src/scrs/execute.y:365-369 | NOT BETWEEN is computed as BETWEEN, and so equals NOT of BETWEEN only when both are errors |
| WhereTruth.ComputesWhatItSays | src/scrs/execute.y:295-398 | for every condition and row: where its operands have values of matching kinds and results fit, computing it gives its truth over plain numbers and texts, with connectives, order and LIKE, IN, BETWEEN, arithmetic and parentheses as in SQL |
| WhereTruth.KindsDecide | src/scrs/execute.y:26-45 | if the operands' kinds go together there is no mismatch whatever the values; if not there is an error, except that the search of an IN list may stop before |
| WhereTruth.OrTruth | src/scrs/execute.y:299-302 | OR is true exactly if both sides have a truth value and one is true, false exactly if both are false; the first error is the result |
| WhereTruth.AndTruth | src/scrs/execute.y:304-307 | AND likewise |
| WhereTruth.NotInTruth | src/scrs/execute.y:347-364 | NOT IN is the negation of IN |
| WhereTruth.CompareTruth | src/scrs/execute.y:314-322 | a comparison is between the values of its left and its right side, in this order |
| WhereTruth.ColumnIsRead | src/scrs/execute.y:448-474 | an identifier is the current row's value in that column; a name the row does not have stays a name |
| WhereTruth.NumberColumn | src/scrs/execute.y:448-474 | a column of numbers compared with a number is the order relation between the two |
| WhereTruth.TextColumn | src/scrs/execute.y:448-474 | a column of texts compared with a text is alphabetical order, or the pattern's match |
| WhereTruth.NumberColumnIn | src/scrs/execute.y:323-340 | a column of numbers in a list of numbers, negated or not |
| WhereTruth.UnknownName | src/scrs/execute.y:448-474 | a name that the row does not have is true as a condition unless empty, and a mismatch in a comparison |
| WhereMeaning.NumbersCompare | lib/core/src/type.c:187-196 | numbers are compared by value as long as their difference fits 64 bits, and for equality always |
| WhereMeaning.OrderIsRight | lib/core/src/type.c:187-196 | every order comparison is right if and only if the difference fits, and otherwise is that of the exchanged numbers; equality and inequality are always right |
| WhereMeaning.TextsCompare | lib/core/src/type.c:284-298 | texts are compared alphabetically without their padding |
| WhereMeaning.InIsMembership | src/scrs/execute.y:323-340 | IN is true exactly if some value is equal and none before it incomparable, false exactly if all are comparable and none equal |
| WhereMeaning.BetweenIsRange | src/scrs/execute.y:341-345 | BETWEEN is the range test if and only if no difference that decides it overflows, for bounds in either order |
| WhereMeaning.ArithmeticIsExact | lib/core/src/type.c:204-276 | sums, differences and products are exact while they fit; quotients round toward zero; division by zero is a fault |
| Bytecode.Bc.Put | src/scrs/bc.c:44-49 | appends one token |
| Bytecode.Bc.Clear | src/scrs/bc.c:31-36 | no tokens, position 0 |
| Bytecode.Bc.Prepare | src/scrs/bc.c:51-81 | links every matched pair of loop marks and changes nothing else; 1 exactly when a 65th loop opens, 2 exactly when a mark closes none, 0 exactly if neither happens |
| Bytecode.MatchUnique | src/scrs/bc.c:51-81 | a mark has at most one partner |
| Bytecode.OpenPop | src/scrs/bc.c:66-77 | the top of the index stack is the partner of the closing mark |
| Bytecode.Bc.Lex | src/scrs/bc.c:83-129 | delivers the next token of the replayed stream, or nothing exactly at its end |
| WhereExec.Flatten | src/scrs/hquery.y:270-339 | the first grammar's actions append exactly the condition's tokens |
| WhereExec.FlattenValue | src/scrs/hquery.y:341-393 | and a value's tokens |
| WhereExec.StatementLinked | src/scrs/hquery.y:257-268 | linking a statement's one loop succeeds and gives its two marks each other's positions |
| WhereExec.ReplayStream | src/scrs/bc.c:83-129 | the lexer delivers the head and then the body once per visible row without separators; with no row the body is left out |
| WhereExec.SameTreeEveryTime | src/scrs/bc.c:83-129 | the replayed stream reads as the same tree once per row, for one row or more |
| WhereExec.ReadLines | src/scrs/execute.y:269-293 | the loop over lines: each line for the current row, which it moves on, up to the first error |
| WhereExec.ConditionLines | src/scrs/execute.y:275-293 | the lines of a replayed condition choose the rows where its tree is true |
| WhereExec.WhereChoosesTrueRows | src/scrs/execute.y:250-293 | the whole way: a statement with a condition chooses exactly the visible rows where the tree is true, in order, up to the first error; with no visible row it is a syntax error |
| WhereExec.SelectedIsFilter | src/scrs/execute.y:275-293 | without errors the chosen rows are the filter of the visible rows |
| WhereExec.SelectedUntil | src/scrs/execute.y:275-293 | with an error the chosen rows are those before the first row with one where the condition is true |
| WhereExec.Execute | src/scrs/execute.y:250-293 | the same for the imperative pipeline of emission, linking, lexing and reading |
| WhereExec.ExecuteAll | src/scrs/execute.y:250-265 | without WHERE all visible rows are chosen, also if there is none |
| DeleteWhere.Table.Delete | src/scrs/execute.y:217-244 | DELETE in place, its lexer's iterator running ahead of its lines': marks exactly the visible rows where the condition is true, up to the first error, after which earlier marks stay; with no visible row it is a syntax error |
| DeleteWhere.ScannedAt | src/scrs/execute.y:227-244 | row by row: up to the first visible row with an error the marked rows are the visible ones where the condition is true, from there on none is |
| DeleteWhere.ScanIsSelect | src/scrs/execute.y:217-293 | the rows it marks are those that SELECT with the same condition sends, and it ends alike |
| DeleteWhere.SameFirst | src/scrs/execute.y:231-246 | a mark behind an iterator does not change which row it comes to next |
| Mvcc.StepKeepsInv | src/scrs/tcl.c:11-56 | every statement of every session keeps: ids are used once, an open transaction is autocommit exactly if flagged, an uncommitted inserter's row has no other deleter |
| Mvcc.RunKeepsInv | src/scrs/dml.c:301-349 | the same over all interleavings |
| Mvcc.OwnRowsUntouched | lib/core/src/tran.c:15-18 | in every reachable state the assertion in the visibility test holds for explicit transactions |
| Mvcc.AutocommitRowTouched | lib/core/src/tran.c:15-18 | a run after which it fails for an autocommit transaction whose id outlives its statement |
| Mvcc.AssertionBreaks | lib/core/src/tran.c:15-18 | a statement makes it fail for an open transaction if and only if it is another session's DELETE that picks a row this one inserted; the transaction is then an autocommit one |
| Mvcc.DeletionIsFinal | lib/core/src/tran.c:19-34 | once a row's deleter is committed, no transaction but the inserter ever sees the row again, whatever runs after |
| Mvcc.RunKeepsRow | src/scrs/dml.c:136-165 | rows keep place, inserter and contents; a committed deleter stays committed |
| Mvcc.InsertSeen | src/scrs/dml.c:30-95 | an inserted row is seen last, by its session at once, by others at once exactly in autocommit |
| Mvcc.DeleteSeen | src/scrs/dml.c:136-165 | a DELETE removes exactly the picked rows from its session's view and keeps the order of the others |
| Mvcc.MarkAt | src/scrs/dml.c:136-165 | a DELETE changes exactly the picked rows, and of those the deleter |
| Mvcc.MarkLater | src/scrs/dml.c:136-165 | a row's deleter changes only to a transaction that sees the row |
| Mvcc.OpenIsIsolated | lib/core/src/tran.c:8-36 | an open transaction's rows are hidden from all others; its DELETE changes what another sees of a row if and only if it overwrites that one's own mark |
| Mvcc.CommitPublishes | src/scrs/tcl.c:24-38 | COMMIT shows the transaction's undeleted rows to everyone, hides what it deleted from everyone but the inserters, and changes nothing else |
| Mvcc.RollbackHides | src/scrs/tcl.c:40-56 | ROLLBACK changes nothing anyone else sees |
| Endings.EndLeaves | src/scrs/tcl.c:24-56 | COMMIT and ROLLBACK leave the session without a transaction and the others with theirs; the rows stay, COMMIT flags the id and ROLLBACK leaves it unflagged |
| Endings.SeesAfterEnd | src/scrs/tcl.c:24-56 | after ROLLBACK the session's next SELECT shows what it would if the transaction had done nothing: no row it inserted, and the published rows it had deleted; after COMMIT what is published then |
| Endings.EndsOnce | src/scrs/tcl.c:24-56 | a second COMMIT or ROLLBACK replies that there is no transaction and changes nothing |
| Endings.RolledBackForGood | src/scrs/tcl.c:40-56 | through whatever any session does later, no open transaction sees a row that the rolled-back one inserted, or misses a published row for its mark |
| Endings.StartOpens | src/scrs/tcl.c:10-22 | START gives an explicit transaction with an id used nowhere; the other sessions keep theirs |
| Endings.Refused | src/scrs/tcl.c:10-56 | START within an explicit transaction, COMMIT and ROLLBACK without one change nothing and say why |
| Endings.NewcomerSees | src/scrs/execute.y:250-265 | a session without a transaction sees exactly the rows with a committed inserter and no committed deleter, whatever it did before |
| Endings.InsertPublishes | src/scrs/dml.c:29-95 | an INSERT outside a transaction is published at once, as the last row; within one it is not, and the session sees it |
| Endings.DeletePublishes | src/scrs/dml.c:136-165 | a DELETE outside a transaction takes exactly the picked rows out of what is published; within one it publishes nothing and takes them out of what the session sees |
| Endings.NoIdNoStatement | src/scrs/dml.c:300-349 | without an id to be had no statement changes a row, and the reply says which of the two reasons it was |
| Erasure.RollbackErased | src/scrs/tcl.c:40-56 | rollback erasure for any state and interleaving: if a started transaction never commits and never overwrites the mark of another open one, all other statements reply as if its START had been refused and its statements left out, and all other transactions end up seeing the same rows in the same order |
| Erasure.ErasedRun | src/scrs/tcl.c:11-56 | the same for any pair of related states |
| Erasure.OtherStep | lib/core/src/tran.c:9-35 | a statement outside the erased transaction replies the same in both runs |
| Erasure.VictimStep | src/scrs/dml.c:136-165 | a statement of the erased transaction changes nothing that matters |
| Erasure.ViewRel | lib/core/src/tran.c:9-35 | no other transaction can tell related tables apart |
| Erasure.ErasedExactly | src/scrs/tcl.c:40-56 | for a transaction that never commits: the other transactions' views agree after every statement if and only if it never overwrites the mark of another open one |
| Erasure.OverwritingShows | src/scrs/dml.c:151-151 | at the statement that overwrites a mark the robbed transaction's own view grows, so the views differ there |
| Erasure.OverwritingIsNotErased | src/scrs/dml.c:151-151 | a run in which a rolled-back transaction overwrote another's mark and the committed deletion is lost |
| Erasure.LostDelete | src/scrs/dml.c:151-151 | for every row and transactions: the overwritten deletion is undone for everyone but the overwriter |
| Removal.RollbackRemoved | src/scrs/tcl.c:10-56 | rollback erasure with the START itself taken out: all other statements reply the same, with ids renamed, if and only if none of them ran out of ids; and then the views are the same |
| Removal.RollbackLeavesNoTrace | src/scrs/tcl.c:10-56 | for a session that was in no transaction the run without it is the run from the same state |
| Removal.RemovedExactly | src/scrs/tcl.c:10-56 | there, too, the views agree after every statement if and only if no mark of another open transaction is overwritten |
| Removal.StepDown | src/scrs/dml.c:300-349 | a statement replies the same and keeps the renaming, whether or not an id was spent before it, if and only if it does not run out of ids |
| TranEngine.TranPage.FlagPut | lib/core/src/tran.c:51-71 | changes exactly one id's bit; the page's first bit is never set |
| TranEngine.PutFlag | lib/core/src/tran.c:38-71 | putting a bit leaves all other bits, in its byte and in the others |
| TranEngine.Engine.RowVisible | lib/core/src/tran.c:8-36 | the test on the bits is visibility over the set of flagged ids |
| TranEngine.Engine.Put | src/scrs/dml.c:300-349 | a new transaction: id spent even if the table is full, autocommit flagged at once |
| TranEngine.Engine.TclStart | src/scrs/tcl.c:10-22 | drops an autocommit transaction, refuses over an explicit one |
| TranEngine.Engine.TclCommit | src/scrs/tcl.c:24-38 | flags the id, or reports that there is no transaction |
| TranEngine.Engine.TclRollback | src/scrs/tcl.c:40-56 | clears the flag, or reports that there is no transaction |
| TranEngine.Engine.DmlInsert | src/scrs/dml.c:29-95 | appends a row with its inserter |
| TranEngine.Engine.DmlDelete | src/scrs/execute.y:201-216 | the scan marks each picked visible row in place |
| TranEngine.Engine.DmlSelect | src/scrs/execute.y:250-265 | the scan returns the session's view |
| IdSequence.FreshRun | lib/core/src/sequence.c:125-170 | a fresh non-cycling sequence hands out start, start + step and so on within its bounds, and then fails forever |
| IdSequence.FreshDistinct | lib/core/src/sequence.c:125-170 | no value twice |
| IdSequence.CallInBounds | lib/core/src/sequence.c:125-170 | every value of every run is within the bounds |
| IdSequence.CyclingNeverFails | lib/core/src/sequence.c:125-170 | a cycling sequence always has a value |
| IdSequence.AscendingCycle | lib/core/src/sequence.c:139-158 | a cycling sequence goes up from its start by its step, and past the upper bound begins at the lower bound again, for ever |
| IdSequence.DescendingCycle | lib/core/src/sequence.c:139-158 | a descending one down from its start, and again from the upper bound |
| IdSequence.CurrentIsLast | lib/core/src/sequence.c:106-170 | the current value is the last one handed out; a refusal changes nothing |
| IdSequence.Sequence.Init | lib/core/src/sequence.c:54-97 | refuses, changing nothing, exactly the unsound settings |
| IdSequence.Sequence.Currval | lib/core/src/sequence.c:106-117 | the last value, or an error before the first call |
| IdSequence.Sequence.Nextval | lib/core/src/sequence.c:125-170 | in place, the next state and answer of the pure sequence |
| IdSequence.Sequence.Setval | lib/core/src/sequence.c:181-199 | accepts exactly values within the bounds |
| IdSequence.Sequence.SetMinval | lib/core/src/sequence.c:209-227 | accepts exactly the bounds that keep min below max and the current value inside |
| IdSequence.Sequence.SetMaxval | lib/core/src/sequence.c:235-253 | likewise for the upper bound |
| IdSequence.Sequence.SetIncrement | lib/core/src/sequence.c:261-274 | refuses exactly zero |
| IdSequence.Sequence.SetCycle | lib/core/src/sequence.c:282-289 | sets the mode and nothing else |
| Mesh.ReachIsFlat | lib/core/src/mesh.c:59-71 | the iterator comes to all rows of the chain if and only if no row comes after an empty page; otherwise to a prefix |
| Mesh.Titor.MitorNext | lib/core/src/mesh.c:59-71 | one physical row on, across pages |
| Mesh.Titor.constructor | lib/core/src/table.c:12-42 | positions at the first visible row; needs a row in the first page of an MVCC table |
| Mesh.Titor.Next | lib/core/src/table.c:44-66 | on to the next visible row, skipping exactly the invisible ones; ends |
| Mesh.Titor.Collect | lib/core/src/table.c:12-66 | init and next visit exactly the visible rows, in physical order, each once |
| Mesh.MeshFile.NewGid | lib/core/src/mesh.c:24-38 | the next page of the file or the first of a new file: never a page in use |
| Mesh.MeshFile.AllocRow | lib/core/src/mesh.c:14-52 | given the true tail: exactly one row more at the end of the flattened chain, earlier rows and other pages kept, the chain still acyclic; no row exactly when the page is full and either no page can be added, file and sequence being exhausted, or the page added has no room |
| Mesh.MeshFile.AppendAll | lib/core/src/mesh.c:14-52 | rows allocated with the caller carrying the tail are all visited, in order, after the old ones |
| Mesh.RowInNewPage | lib/core/src/mesh.c:39-49 | linking a fresh page keeps the chain a chain |
| Mesh.PackedShowsAll | lib/core/src/mesh.c:59-71 | append-only chains have no hidden rows |
| TableScan.ReadTable | lib/core/src/table.c:12-66 | what a transaction reads from the pages is its view of their rows |
| TableScan.Choose | src/scrs/execute.y:250-293 | from the pages to the chosen rows: those the scan comes to, all if no page is empty before one with rows, that the transaction sees and for which the condition is true, in physical order, up to the first error; without errors index by index |
| TableScan.HitsInOrder | src/scrs/execute.y:275-293 | the chosen rows are, one for one and in order, the rows seen for which the condition is true |
| TableScan.AllocInPage | lib/core/src/grid.c:177-183 | allocating in the grid of page bytes is the step that allocation takes in the chain's tail page |
| TableScan.ViewIsFilter | lib/core/src/tran.c:8-36 | a view is the visible rows in physical order |
| Bump.Context.Alloc | lib/core/src/memory.c:240-266 | aligned, behind a header that gives its size, disjoint from all blocks in use, whose bytes stay; refused exactly if there is no room for the size as rounded or the size is 0; holds the size asked for if and only if rounding did not wrap |
| Bump.SmallContexts | lib/core/src/memory.c:131-158 | blocks granted in a new context stay within it if and only if the context is as large as its own record; below that the room wraps |
| Bump.AcceptedSizes | lib/core/src/memory.c:252-255 | the assertion stops exactly sixteen sizes, and lets through the fifteen above them, which rounding wraps to 0 |
| Bump.Context.WrappedAlloc | lib/core/src/memory.c:252-264 | with room for a header alone the largest size is granted, a block of no bytes |
| Bump.Context.Free | lib/core/src/memory.c:324-346 | the last block's memory is given back, any other block only goes out of use |
| Bump.Context.Realloc | lib/core/src/memory.c:277-315 | the new block begins with the old bytes and every other block keeps its bytes; growing the last block without room releases it, growing another one without room leaves it in use; a size that wraps returns the block as it is |
| Bump.Context.Reset | lib/core/src/memory.c:164-182 | everything given back, and each child handed to be dropped, once |
| Bump.Context.AddChild | lib/core/src/memory.c:219-232 | the child takes the first free slot; refused exactly if there is none |
| Bump.Context.EraseChild | lib/core/src/memory.c:354-366 | the child's first slot becomes free, or 1 exactly if it has none |
| Bump.Context.InAndOut | lib/core/src/memory.c:324-346 | frees in the opposite order of the allocations restore offset and blocks, for any number of them |
| Bump.Context.Write | lib/core/src/memory.c:240-266 | writing inside a block changes no other block and no header |
| Bump.LiveApart | lib/core/src/memory.c:240-346 | in every state blocks in use are aligned, within the context and disjoint, headers included |
| Bump.StackedApart | lib/core/src/memory.c:240-346 | all blocks, in use or not, are stacked without gaps |
| Align.AlignUpBounds | lib/core/src/align.c:21-24 | for every positive alignment, power of two or not: size <= result < size + alignment |
| Align.AlignUpMultiple | lib/core/src/align.c:21-24 | for a power of two it is the least multiple that is large enough |
| Align.AlignUpAligns | lib/core/src/align.c:21-24 | every size is rounded to a multiple if and only if the alignment is a power of two |
| Align.AlignMaxIsAlignUp | lib/core/src/align.c:31-34 | the allocator's rounding is this one, unless it wraps |
| Align.AlignToCases | lib/core/src/align.c:21-24 | for a width passed as an int: positive ones round up, 0 clears every bit |
| Grids.Header.AddColumn | lib/core/src/grid.c:198-241 | places a column as its width says, width 0 and the 16-bit size included; refused exactly if the header page is full; a sound layout stays sound if and only if the column takes room, and then it lies behind the others |
| Grids.LayoutExactly | lib/core/src/grid.c:198-241 | for any sequence of declarations: no two columns share a byte and all lie in the row if and only if each one, when it was added, had bytes (or came first) and ended within 16 bits |
| Grids.NextBehind | lib/core/src/grid.c:229-236 | behind a sound layout: every further column with bytes lies behind all earlier ones if and only if this one took room |
| Grids.AddedSound | lib/core/src/grid.c:229-236 | a sound layout stays sound if and only if the column takes room |
| Grids.StartsAgain | lib/core/src/grid.c:234-236 | after a column that brings the size to 0 the next one starts at the first byte of the row again |
| Grids.WidthsThatRestart | lib/core/src/grid.c:229-236 | widths 0 and 65536 do that behind any short row |
| Grids.InserterOverwritten | lib/core/src/grid.c:119-241 | a table whose last column but one has no bytes: a value put into the last column is read back as the row's inserter |
| Grids.Header.ColumnsFit | lib/core/src/grid.c:198-241 | any two columns of a sound layout are apart and all fit the row |
| Grids.Header.ColumnIdx | lib/core/src/grid.c:243-253 | the first column of that name, or the invalid index exactly if there is none |
| Grids.FoundUnderItsName | lib/core/src/grid.c:215-253 | a new column is found under its name if that has fewer than 16 characters and is new, otherwise under its first 15; all columns found before are still found |
| Grids.LongNameIsLost | lib/core/src/grid.c:215-253 | no column is ever found under a name of 16 characters or more |
| Grids.Grid.PutDatum | lib/core/src/grid.c:119-175 | a datum of another group is refused; otherwise get after put returns what was put if and only if the number arrives intact, and no other cell of any row changes |
| Grids.CellTrip | lib/core/src/grid.c:89-175 | reading a cell back gives the text cut and padded to the column, or the number if and only if it fits and the bytes of the union beyond its kind continue it |
| Grids.SameKindIntact | lib/core/src/grid.c:129-151 | those bytes do not matter for a bigint or a number of the column's kind |
| Grids.NumbersHeld | lib/core/src/grid.c:129-151 | the exact range of numbers that smallint, integer and bigint columns hold |
| Grids.PaddedIs | lib/core/src/grid.c:136-156 | a text is cut to the column's width or filled up with spaces |
| Grids.StrNIs | lib/core/src/grid.c:136-156 | what is stored of a text with a terminator |
| Grids.StoredTextEqual | lib/core/src/grid.c:119-175 | a text that fits compares equal to itself after it was stored |
| Grids.Grid.AllocRow | lib/core/src/grid.c:177-183 | one row more, its bytes left as they were; invalid exactly if the page is full; zero as long as no slot was given up with other bytes |
| Grids.Grid.DeleteRow | lib/core/src/grid.c:185-196 | removal of one element from the sequence of rows; rows to be allocated are zero afterwards if and only if they were and the last row was |
| Grids.StaleRow | lib/core/src/grid.c:177-196 | a row that is not zero when it is allocated |
| Wire.Sender.Send | src/scrs/session.c:124-168 | bytes on the wire and in the buffer together are the bytes written, if and only if the write is not one of a whole buffer or more into an empty buffer, which loses its last 4096 bytes |
| Wire.Sender.Flush | src/scrs/session.c:201-215 | everything written is on the wire |
| Wire.Sender.SendTable | src/scrs/execute.y:148-194 | the reply is the encoding of the shown columns and the rows |
| Wire.ShownJoins | src/scrs/execute.y:148-194 | shown are, in order, the columns whose name does not start with an asterisk |
| Wire.Receiver.Refill | lib/core/src/scrc.c:702-737 | whatever the chunk, no byte is lost or moved out of order, rpos <= rlen <= FULLSZ, and there is room for at least one byte |
| Wire.Receiver.RecvBlock | lib/core/src/scrc.c:666-686 | the next `size` bytes exactly; overflow and closed exactly as the pending bytes say |
| Wire.Receiver.RecvRow | lib/core/src/scrc.c:597-625 | one row as the bytes on their way hold it, independent of how they are split |
| Wire.Receiver.Query | lib/core/src/scrc.c:266-322 | the columns, each copied at the client's own record size, and the start of the rows; otherwise the status of what is wrong |
| Wire.CopiedExactly | lib/core/src/scrc.c:305-305 | the columns are those sent if and only if each was sent at that size |
| Wire.Receiver.RecvRows | lib/core/src/scrc.c:328-351 | rows up to the end mark |
| Wire.TableTrip | lib/core/src/scrc.c:266-351 | decoding an encoded table gives its columns and rows |
| Wire.FrameTrip | lib/core/src/scrc.c:597-625 | one row |
| Wire.WrongRow | lib/core/src/scrc.c:597-625 | another command in place of a row breaks the protocol if it has its place elsewhere, and is unknown otherwise |
| Wire.CutRow | lib/core/src/scrc.c:597-625 | a row cut short at any byte is a closed stream, except within its command |
| Wire.LongRow | lib/core/src/scrc.c:597-625 | a row longer than the buffer is an overflow |
| Wire.WrongHead | lib/core/src/scrc.c:266-322 | the same for what comes where the columns or the rows should begin |
| Wire.Exchange | src/scrs/session.c:124-215 | from one end to the other: the client gets exactly the shown columns and the rows sent, in order, however the stream is split |

## Left out

- Sockets, processes, shared memory, signals and server start-up.
- I/O errors and short reads: the disk is a total map of full pages, so a page never written reads as a blank page and
  not as the frame's old bytes.
- The flex lexer and the bison tables: the first grammar is its emission actions over trees, the second a
  recursive-descent reading.
- Cluster bootstrap, CREATE statements, relation lookup, the console client and table printing: straight-line calls into the core.
- Error replies and logging of failed statements, and the text header lines of the protocol.
- Truly parallel processes: each statement is one atomic step.
- The table of transactions: it is private to each process (src/scrs/server.c:295-298), and each session is a process of
  its own, so an entry never moves and there is always room; transactions are held by value, and room is an input.
- Several catalogs: their transaction sequences are separate while the flag page is one, so ids may coincide; one catalog
  is modelled.
- Parent pointers of memory contexts, the memory of a child that is dropped, and the linear context.
- INSERT across a page boundary: it does not store the moved tail back, so append is stated for a caller that carries the tail.
- Statements that fail on unknown relations, unknown columns or type mismatches: they may leave an autocommit
  transaction behind, as a SELECT does.
- Varchar cells, and printing of negative numbers: unfinished in the code.
- Recovery after a failed evaluation: a line with both an evaluation error and a later syntax error, which the first
  grammar cannot produce, is reported as a syntax error.
- DELETE from a table without transactions, which removes the row under the iterator.
- DeleteWhere.Table.Delete: the rows are a sequence, one table; its tokens come from the flattening and not through the
  bytecode object, as those of `WhereExec.Execute` do.
- PageCaching.PageCache.Touch: does not model the order of the write-back and the erase of the evicted entry within one
  touch, and stops instead of carrying on where the code asserts.
- IndexList.IList.PopBack: needs a list that is not empty, and so does PopFront; the code reads slot -1 otherwise.
- Mesh.Titor.Next: the pages are values; that the frames remembered for them are right is `Handles`.
- TranEngine.Engine.Put: needs a bit for the next id in the one flag page, which the code does not check.
- Mesh.MeshFile.AllocRow: needs file ids below 2 to the 40th, beyond which they do not fit a gid.
- Mesh.MeshFile.AppendAll: needs pages with room for a row, without which no row is ever stored.
- PageCaching.PageCache.WriteRemembered: promises nothing about the write if more than `chainsz` other pages come between.
- Removal.RemovedExactly: needs that no other statement runs out of ids, since the one given back would change its reply.
- Mesh.Titor.constructor: needs a row in the first page of an MVCC table, which the code reads before it checks.
- Grids.Header.AddColumn: an alignment of exactly -2 to the 31st, which is undefined in C, is computed without overflow.
- Grids.Header.RowSize: rows of more than 65532 bytes, whose rounded size no longer fits 16 bits.
- Grids.Grid.DeleteRow: needs a slot behind the row removed, which the code asserts.
- Wire.Receiver.CopyColumn: bytes past the end of the receive buffer, which the code would copy along, are arbitrary.
- Bump.Context.constructor: needs a context as large as its own record; `SmallContexts` says what happens below that.
- Bump.Context.Alloc: needs a size that the code's assertion lets through.
- Bump.Context.Realloc: needs such a size too; that free and realloc refuse blocks of no bytes by assertion is not modelled.
- IdSequence.Sequence.Nextval: excludes a step that overflows 64 bits, which is undefined in C.
