# Proofs about the vendored SQLite and repair kit code

The app ships three bodies of C code under `Example/Pods`: SQLite's core (in its SQLCipher build), the
parser generated for it, and WCDB's database repair kit.  This project models their most intricate
parts in Dafny and proves what they are for.  `dafny verify dfyconfig.toml` checks everything.

| files | what they model |
|---|---|
| `LinearProbing`, `Bitvecs`, `BitvecSelfTest` | the sparse bitmap of `bitvec.c`: flat bitmap, open-addressed hash and radix node, changed in place, as an implementation of a plain set; and the file's own self-test |
| `MutexProtocol`, `BtreeMutex` | the locking of shared B-trees in `btmutex.c`, once as a step system with any number of connections and once as methods on the handles of one connection |
| `LrTables`, `LrDriver`, `LrExample`, `SelectLink` | the Lemon parser driver of `parse.c`, for all tables that are right for a grammar, and a small grammar with tables that are; and the linking of compound selects |
| `Numbers`, `ValueList`, `Records`, `RecordForm`, `Payloads`, `Cells`, `Pages` | decoding in the repair kit: varints, integers, the growable list of values, records, overflow chains, cells, pages; each against the encoding of the SQLite "Database File Format" |
| `FileHeader`, `Walker`, `Extraction`, `Damage`, `Cancellation`, `Recovery`, `WholeRun`, `OnceEach` | opening a file, and the repair kit's walk over damaged and cyclic page graphs: termination, order, locality of damage, what a cancellation does, which leaf pages are lost, and how often each is reported |
| `Schema`, `RepairKit`, `Databases`, `LoopingFile` | the walk that follows the rows of sqlite_master into the tables they name, the methods that carry it out, what it gets out of a whole database, and a file on which it does not end |
| `RenameEdit` | the in-place editing of SQL text by ALTER TABLE RENAME in `alter.c` |
| `ParseTrees`, `TreeParts`, `FixWalker` | the `sqlite3Fix` family of `attach.c`, which binds the references of views and triggers to one database |

Code that changes state is a class or a method with loops, proved against a specification function;
what the code is for is then proved about that function.  Pages, payloads and statements are
sequences of bytes or characters; C's integer widths are written out where they matter.

## What the proofs found

The code is modelled as it is.  Where it departs from what it should do, a lemma shows the departure
and the condition under which all is well.

* `bitvec.c:219`: the sum in the divisor wraps, and the divisor is 0, for sizes above 2^32 - 62
  (`Bitvecs.DivisorWraps`).
* `sqliterk_util.c:118-128`: a nine-byte varint is read with a shift of seven for the ninth byte, or
  refused, so numbers from 2^56 on are not read back (`Numbers.VarintRoundTrip` has the exact bound).
* `sqliterk_btree.c:226`: the right-most child is read at offset 8 of the page, also on page 1, where
  the B-tree header starts at 100 (`Pages.InteriorPageRead`, `Pages.PageOneLosesItsRightMostChild`).
* `alter.c:1037-1060`: a quoted name is put in without looking at what follows it.  Before a double quote
  it does not end where it should (`RenameEdit.QuoteRoundTrip` has the exact condition): in `SELECT a"x"`,
  where the column a has the alias x, renaming a leaves one name instead of two
  (`RenameEdit.MergesWithTheNext`).
* `sqliterk_btree.c:191-195`: a page without cells is refused as damaged, the root page of an empty table
  included (`Pages.EmptyPageIsRefused`; `Pages.RefusedIff` says exactly which are refused); no row goes with it.
* `sqliterk_btree.c:389-402`: an overflow chain that runs into an interior page being checked takes its
  mark away, and the recursion may not end; `LoopingFile.WalkDoesNotEnd` is such a file, byte by byte.
  `Walker.DescendHalts` shows that this takes a circle of pages among themselves into all of which chains
  run; what becomes of such circles is the only case left open.
* `sqliterk_btree.c:232-237`: a cancellation ends the loop over one page's children only; rows further
  right are still reported (`Cancellation.CancelIsIgnored`, and `Cancellation.CancelIsFinal` for exactly
  when none are).
* `sqliterk.c:103-138`: pages are walked in the order of their numbers, unless an earlier walk has dealt
  with them, so a page may be walked on its own first and again below a parent with a larger number.
  Where no page leads back to itself, every page has one parent at most, and overflow chains keep clear of
  B-tree pages, the rows of a leaf page are reported exactly once if and only if, of the pages that lead
  to it, the one without a parent has the smallest number (`OnceEach.OnceIff`).  Leaf page 1 below page 2
  is reported twice (`WholeRun.HandedOverTwice`); leaf page 2 below page 3 below page 1 is reported once,
  although its parent has a larger number (`WholeRun.HandedOverOnce`).
* `sqliterk.c:122-125`: a leaf page into which an earlier walk followed an overflow chain counts as
  checked, and its rows are lost unless a walk from another page leads to it (`WholeRun.LostIff` says
  exactly which are, `WholeRun.LostToAChain` shows one).

The last two are about the loop of `sqliterkParse` with `sqliterk_set_recursive` off, and about what lies
outside of the B-trees that sqlite_master leads to when it is on.  With it on, a database that is in order
is reported completely, every row once, and each table right after its row in sqlite_master
(`Databases.DatabaseExtracted`).

## Tables and knowledge

`LrTables.Right` asks, for every state code of the parser, which symbols and states can lie beneath it
and how many reductions can follow.  `knowledge.py path/to/parse.c` computes these from the tables and
rules in a generated parser, and lists every condition of `LrTables.Shaped` and `LrTables.Right` that
they do not meet.

## Model

| member | source | states |
|---|---|---|
| LinearProbing.ProbeMiss | Example/Pods/WCDBOptimizedSQLCipher/src/bitvec.c:145-151 | a probe that meets a free slot without meeting the value proves that the value is nowhere in the table |
| LinearProbing.FreeSlot | Example/Pods/WCDBOptimizedSQLCipher/src/bitvec.c:46-67 | a table that counts fewer than 124 values has a free slot, so every probe loop ends |
| LinearProbing.StoreKeepsProbed | Example/Pods/WCDBOptimizedSQLCipher/src/bitvec.c:229-231 | storing a new value in the slot its probing ends at keeps: values distinct, count right, no gap between a value's home slot and its place |
| Bitvecs.DivisorBounds | Example/Pods/WCDBOptimizedSQLCipher/src/bitvec.c:219-219 | below 2^32 - 61 the divisor of a node larger than a flat bitmap is positive and smaller than the node, and 62 sub-bitmaps of that size cover it |
| Bitvecs.DivisorWraps | Example/Pods/WCDBOptimizedSQLCipher/src/bitvec.c:219-219 | in 32-bit arithmetic the divisor of such a node is 0 exactly when its size is above 2^32 - 62: the limit the other results assume is the exact one |
| Bitvecs.DescendBounds | Example/Pods/WCDBOptimizedSQLCipher/src/bitvec.c:175-183 | the bin of every local index is below NPTR and its rest is inside the sub-bitmap |
| Bitvecs.SetFlat | Example/Pods/WCDBOptimizedSQLCipher/src/bitvec.c:184-187 | or-ing one mask into the bitmap adds exactly one member to the represented set and keeps the whole-tree invariant |
| Bitvecs.ClearFlat | Example/Pods/WCDBOptimizedSQLCipher/src/bitvec.c:252-253 | and-ing the negated mask removes exactly that member and keeps the whole-tree invariant |
| Bitvecs.InsertValue | Example/Pods/WCDBOptimizedSQLCipher/src/bitvec.c:228-231 | a hash node's new value is exactly one new member of the whole bitmap |
| Bitvecs.RemoveValue | Example/Pods/WCDBOptimizedSQLCipher/src/bitvec.c:255-270 | a table rebuilt without one value removes exactly that member of the whole bitmap |
| Bitvecs.Subdivided | Example/Pods/WCDBOptimizedSQLCipher/src/bitvec.c:217-219 | turning a hash node into an inner node takes exactly the members of its own range out of the represented set |
| Bitvecs.SubAdded | Example/Pods/WCDBOptimizedSQLCipher/src/bitvec.c:178-181 | hanging an empty sub-bitmap into a null slot changes no membership and keeps the invariant |
| Bitvecs.Bitvec.constructor | Example/Pods/WCDBOptimizedSQLCipher/src/bitvec.c:115-123 | a new bitmap is well formed and empty |
| Bitvecs.Bitvec.FindLeaf | Example/Pods/WCDBOptimizedSQLCipher/src/bitvec.c:133-141 | the descent ends at the leaf that answers for the index, or proves that it is not a member |
| Bitvecs.Bitvec.Probe | Example/Pods/WCDBOptimizedSQLCipher/src/bitvec.c:145-150 | the probe loop answers membership in the table |
| Bitvecs.Bitvec.TestNotNull | Example/Pods/WCDBOptimizedSQLCipher/src/bitvec.c:130-152 | Test(i) is true exactly when i is a member, for every 32-bit i, 0 and out-of-range ones included |
| Bitvecs.Bitvec.Test | Example/Pods/WCDBOptimizedSQLCipher/src/bitvec.c:153-155 | the same with no bitmap at all, which has no members |
| Bitvecs.Bitvec.Descend | Example/Pods/WCDBOptimizedSQLCipher/src/bitvec.c:175-183 | the descent of Set creates missing sub-bitmaps, changes no membership, and ends at the leaf for the index |
| Bitvecs.Bitvec.Set | Example/Pods/WCDBOptimizedSQLCipher/src/bitvec.c:174-233 | Set(i) makes the represented set S + {i} in any representation, through collisions, re-hashing and re-hashing of sub-bitmaps; it halts and returns SQLITE_OK |
| Bitvecs.Bitvec.Rehash | Example/Pods/WCDBOptimizedSQLCipher/src/bitvec.c:209-227 | moving a full hash into sub-bitmaps keeps exactly the old members and the new one, even when sub-bitmaps re-hash in turn; termination by (size, still a hash) |
| Bitvecs.Bitvec.BitvecSet | Example/Pods/WCDBOptimizedSQLCipher/src/bitvec.c:169-233 | the entry point: nothing happens without a bitmap, otherwise S + {i} |
| Bitvecs.Bitvec.Clear | Example/Pods/WCDBOptimizedSQLCipher/src/bitvec.c:243-272 | Clear(i) makes the represented set S - {i} and allocates nothing |
| Bitvecs.Bitvec.BitvecClear | Example/Pods/WCDBOptimizedSQLCipher/src/bitvec.c:240-272 | the entry point: nothing happens without a bitmap, otherwise S - {i} |
| Bitvecs.Bitvec.RebuildHash | Example/Pods/WCDBOptimizedSQLCipher/src/bitvec.c:258-270 | the rebuilt table holds the old values but one, has the right count, and has no gaps |
| BitvecSelfTest.MirrorSet | Example/Pods/WCDBOptimizedSQLCipher/src/bitvec.c:303-304 | SETBIT on the linear array adds exactly one index to the set it stands for |
| BitvecSelfTest.Compare | Example/Pods/WCDBOptimizedSQLCipher/src/bitvec.c:389-402 | the final comparison gives 0 exactly when bitmap and linear array agree on all of 1..sz, otherwise an index on which they differ |
| BitvecSelfTest.Run | Example/Pods/WCDBOptimizedSQLCipher/src/bitvec.c:355-387 | the interpreter halts on every whole, halt-terminated program, after rounds the program can go through, with the linear array and the bitmap as these rounds leave them |
| BitvecSelfTest.BuiltinTest | Example/Pods/WCDBOptimizedSQLCipher/src/bitvec.c:337-410 | self-test theorem: for every such program, any random numbers and any sz > 0 it ends after rounds the program can go through, with 0 exactly if these leave both sides alike, and with 0 if opcode 5 does not occur |
| BitvecSelfTest.InstructionIs | Example/Pods/WCDBOptimizedSQLCipher/src/bitvec.c:312-376 | what an instruction with the operands N, S and X does, as the comment above the code promises it: it is applied to N members, beginning with S and going up by X, while these are in range (once, if N is not positive), and then the program goes on behind it |
| BitvecSelfTest.OpcodesAre | Example/Pods/WCDBOptimizedSQLCipher/src/bitvec.c:378-386 | opcodes 1 and 3 set a member on both sides, 2 and 4 clear it, 5 sets it in the linear array only |
| BitvecSelfTest.FaultShows | Example/Pods/WCDBOptimizedSQLCipher/src/bitvec.c:312-336 | the two sides differ on a member exactly when opcode 5 has set it in the array, the bitmap did not have it, and no later round touched it: such a fault is detected |
| BitvecSelfTest.NoFaultInTrace | Example/Pods/WCDBOptimizedSQLCipher/src/bitvec.c:357-383 | a program without opcode 5 goes through no round with opcode 5 |
| MutexProtocol.StepKeepsInv | Example/Pods/WCDBOptimizedSQLCipher/src/btmutex.c:71-152 | every step of every connection (call, try-lock, failed try, release, blocking lock, re-lock, leave) keeps the protocol invariant |
| MutexProtocol.LocalKeepsPhase | Example/Pods/WCDBOptimizedSQLCipher/src/btmutex.c:105-137 | each step leaves the connection in a well-formed phase of the routine and changes at most one lock, one that was not held when taken and held when dropped |
| MutexProtocol.AssertionsNeverFail | Example/Pods/WCDBOptimizedSQLCipher/src/btmutex.c:27-60 | no assertion of the lock routines can fail in a state with the invariant |
| MutexProtocol.HeldAreSmaller | Example/Pods/WCDBOptimizedSQLCipher/src/btmutex.c:114-136 | a connection that blocks on a mutex holds only mutexes with smaller addresses |
| MutexProtocol.ChainAscends | Example/Pods/WCDBOptimizedSQLCipher/src/btmutex.c:105-137 | along a chain of connections, each waiting for what the next one holds, the awaited addresses ascend |
| MutexProtocol.NoCyclicWait | Example/Pods/WCDBOptimizedSQLCipher/src/btmutex.c:71-137 | no connections wait for one another in a circle |
| MutexProtocol.SomeHolderRuns | Example/Pods/WCDBOptimizedSQLCipher/src/btmutex.c:105-137 | whoever waits, some holder of an awaited mutex does not wait itself |
| MutexProtocol.NeverStuck | Example/Pods/WCDBOptimizedSQLCipher/src/btmutex.c:71-152 | when a connection waits, a holder of an awaited mutex can take a step of the routine or is free to leave |
| MutexProtocol.EveryStepCounts | Example/Pods/WCDBOptimizedSQLCipher/src/btmutex.c:105-137 | the back-off cannot repeat: every step inside the routine lowers a rank |
| MutexProtocol.OnlyCallsCount | Example/Pods/WCDBOptimizedSQLCipher/src/btmutex.c:71-152 | only calls of Enter and Leave change a nesting count, by one; outside the routine a handle is locked exactly when its count is positive |
| MutexProtocol.RunKeepsInv | Example/Pods/WCDBOptimizedSQLCipher/src/btmutex.c:71-152 | the invariant holds at the end of every run of any number of connections |
| MutexProtocol.Safety | Example/Pods/WCDBOptimizedSQLCipher/src/btmutex.c:71-152 | in every reachable state no cycle of waiting connections exists and the assertions about every possible next step hold |
| BtreeMutex.Btree.Lock | Example/Pods/WCDBOptimizedSQLCipher/src/btmutex.c:27-35 | the mutex is taken, the shared part belongs to the connection, and the flag says so |
| BtreeMutex.Btree.Unlock | Example/Pods/WCDBOptimizedSQLCipher/src/btmutex.c:41-50 | the mutex is given back and the flag says so |
| BtreeMutex.Btree.Enter | Example/Pods/WCDBOptimizedSQLCipher/src/btmutex.c:71-97 | Enter ends with the old set of locks and this one, whatever it released on the way, and one more on this handle's count; handles that are not shared do nothing |
| BtreeMutex.Btree.LockCarefully | Example/Pods/WCDBOptimizedSQLCipher/src/btmutex.c:105-137 | after try-lock, back-off and ascending re-lock every handle is locked exactly when it is wanted |
| BtreeMutex.Btree.UnlockLater | Example/Pods/WCDBOptimizedSQLCipher/src/btmutex.c:123-131 | the first loop releases every later lock and no other |
| BtreeMutex.Btree.RelockLater | Example/Pods/WCDBOptimizedSQLCipher/src/btmutex.c:132-136 | the second loop takes back exactly the wanted later locks |
| BtreeMutex.Btree.Leave | Example/Pods/WCDBOptimizedSQLCipher/src/btmutex.c:143-152 | Leave lowers the count and gives the lock up exactly when the count reaches 0 |
| BtreeMutex.Connection.EnterAll | Example/Pods/WCDBOptimizedSQLCipher/src/btmutex.c:186-202 | afterwards all mutexes are held, also when the flag noSharedCache lets the work be skipped; each handle's count has grown by its number of uses |
| BtreeMutex.Connection.LeaveAll | Example/Pods/WCDBOptimizedSQLCipher/src/btmutex.c:203-214 | each handle's count drops by its number of uses, and locks follow the counts |
| BtreeMutex.Connection.Nested | Example/Pods/WCDBOptimizedSQLCipher/src/btmutex.c:186-214 | EnterAll and LeaveAll nested to any depth bring every count and every lock back |
| BtreeMutex.Connection.WantedIsHeld | Example/Pods/WCDBOptimizedSQLCipher/src/btmutex.c:223-241 | with the counts at least as EnterAll makes them, the condition of HoldsAllMutexes is true |
| BtreeMutex.Connection.Attach | Example/Pods/WCDBOptimizedSQLCipher/src/attach.c:157-161 | attaching a handle resets the flag, so that it never claims wrongly that nothing is sharable |
| LrTables.ShiftedStands | Example/Pods/WCDBOptimizedSQLCipher/parse.c:2127-2190 | the token a shift action was looked up for is a token: the input token, its fallback, or the wildcard |
| LrTables.FindShiftIs | Example/Pods/WCDBOptimizedSQLCipher/parse.c:2127-2190 | which action is found, exactly: the one listed for the token; failing that, for its fallback; failing that, for the wildcard, which does not stand for the end of the input; failing that, the default |
| LrTables.PushOk | Example/Pods/WCDBOptimizedSQLCipher/parse.c:2270-2307 | pushing a state that claims nothing new about the entries beneath keeps every claim on the stack true |
| LrTables.ReduceOk | Example/Pods/WCDBOptimizedSQLCipher/parse.c:3075-3128 | a rule the tables allow finds its right-hand side on the stack, up to unit rules whose reduction was left out and with any of the symbols a place allows; a goto exists and the new stack is right again |
| LrTables.LiftTree | Example/Pods/WCDBOptimizedSQLCipher/parse.c:4962-4998 | where the generator left out reductions by unit rules, they can be put back: a tree for the symbol on the stack becomes one for the symbol meant, over the same tokens |
| LrTables.LiftTrees | Example/Pods/WCDBOptimizedSQLCipher/parse.c:4962-4998 | the same for a whole right-hand side, place by place |
| LrTables.ReduceCounts | Example/Pods/WCDBOptimizedSQLCipher/parse.c:5021-5039 | every reduction lowers the sum of stack height and rank, so a token is shifted, accepted or refused after finitely many; the accept code is exposed on token 0 only |
| LrTables.AcceptOk | Example/Pods/WCDBOptimizedSQLCipher/parse.c:5094-5114 | with the accept code on top the stack holds exactly the start symbol |
| LrTables.FusedShift | Example/Pods/WCDBOptimizedSQLCipher/parse.c:2299-2301 | a fused SHIFTREDUCE leaves the stack that a plain shift followed by a reduce would leave |
| LrTables.EndsOnce | Example/Pods/WCDBOptimizedSQLCipher/parse.c:5171-5200 | what becomes of a token is decided by the tables: the chain of reductions from the states on the stack has one outcome only (shifted, accepted, refused, or too high for the stack) |
| LrExample.SampleIsRight | Example/Pods/WCDBOptimizedSQLCipher/parse.c:2127-2220 | the conditions on tables can be met: tables of a list grammar with a fallback, fused shifts and a pending reduction are right for it |
| LrExample.SampleAccepts | Example/Pods/WCDBOptimizedSQLCipher/parse.c:5135-5303 | with these tables a list of two tokens, one of them by its fallback, is accepted on a stack of three entries |
| LrExample.SampleRefuses | Example/Pods/WCDBOptimizedSQLCipher/parse.c:5135-5303 | and the empty input is refused |
| LrDriver.Parser.Shift | Example/Pods/WCDBOptimizedSQLCipher/parse.c:2270-2307 | a shift pushes one entry, or empties the stack and reports an overflow when it is full |
| LrDriver.Parser.Reduce | Example/Pods/WCDBOptimizedSQLCipher/parse.c:5021-5039 | a reduce pops the right-hand side and pushes the goto entry, or reports an overflow; the trees on the stack stay parse trees over the tokens shifted |
| LrDriver.Parser.FindReduceAction | Example/Pods/WCDBOptimizedSQLCipher/parse.c:2196-2220 | the goto lookup stays inside its table and its assertions hold |
| LrDriver.Parser.FindShiftAction | Example/Pods/WCDBOptimizedSQLCipher/parse.c:2127-2190 | the loop over fallbacks and the wildcard computes the specified action and the token it is for |
| LrDriver.Parser.StackOverflow | Example/Pods/WCDBOptimizedSQLCipher/parse.c:2225-2244 | the stack is emptied and one error counted |
| LrDriver.Parser.Accept | Example/Pods/WCDBOptimizedSQLCipher/parse.c:5094-5114 | one tree is left: a parse tree for the start symbol whose leaves are the tokens shifted |
| LrDriver.Parser.Parse | Example/Pods/WCDBOptimizedSQLCipher/parse.c:5135-5303 | one token, exactly: the method does what the chain of reductions that the tables give leads to.  It shifts, and then the states are those of the chain with the code of the shift on top; or it accepts, on token 0 only, with a parse tree of the start symbol over everything shifted; or it counts one error, which happens if and only if the chain ends at the error action or a push finds the stack full |
| LrDriver.ParseAll | Example/Pods/WCDBOptimizedSQLCipher/parse.c:5135-5303 | a whole stream is accepted if and only if the tables accept it on a stack of the given depth; and then the whole of it, each token as itself, its fallback or the wildcard, derives from the start symbol |
| SelectLink.DoubleLinkSelect | Example/Pods/WCDBOptimizedSQLCipher/parse.c:97-112 | the terms of a compound become a doubly linked list and are marked; too many is reported exactly when the limit is exceeded and the select is not a VALUES list |
| Numbers.ParseVarint64 | Example/Pods/SQLiteRepairKit/repair/sqliterk_util.c:109-132 | the loop computes the specified value, length and refusal |
| Numbers.VarintIs | Example/Pods/SQLiteRepairKit/repair/sqliterk_util.c:109-132 | what is read as which number, for all bytes: up to nine of them, all but the last with high bits, as seven-bit digits with the most significant first; and what is refused: nine bytes with high bits |
| Numbers.VarintRoundTrip | Example/Pods/SQLiteRepairKit/repair/sqliterk_util.c:109-132 | reading the file format's encoding of any 64-bit number, anywhere in a buffer, gives number and length exactly when it is below 2^56 |
| Numbers.IntRoundTrip | Example/Pods/SQLiteRepairKit/repair/sqliterk_util.c:44-88 | reading a big-endian two's complement integer of 1, 2, 3, 4, 6 or 8 bytes inverts its encoding, over the full range of the width |
| ValueList.Values.constructor | Example/Pods/SQLiteRepairKit/repair/sqliterk_values.c:62-84 | a new list is empty and has room for four |
| ValueList.Values.AutoGrow | Example/Pods/SQLiteRepairKit/repair/sqliterk_values.c:122-152 | afterwards there is room for one more and the contents are the same |
| ValueList.Values.Add | Example/Pods/SQLiteRepairKit/repair/sqliterk_values.c:270-375 | one value is appended and the others stay |
| ValueList.Values.Clear | Example/Pods/SQLiteRepairKit/repair/sqliterk_values.c:107-120 | the list is empty and keeps its room |
| ValueList.Values.GetInteger64 | Example/Pods/SQLiteRepairKit/repair/sqliterk_values.c:170-190 | integers as they are, floating-point numbers and texts as the C library converts them, 0 for null and blobs and past the end |
| ValueList.Values.GetText | Example/Pods/SQLiteRepairKit/repair/sqliterk_values.c:219-233 | the text at an index, nothing for any other value |
| ValueList.Values.GetBinary | Example/Pods/SQLiteRepairKit/repair/sqliterk_values.c:235-268 | the blob at an index, nothing for any other value; and the length of a blob or text |
| Records.ParseColumn | Example/Pods/SQLiteRepairKit/repair/sqliterk_btree.c:441-479 | one round of the record loop decodes the next serial type and appends its value |
| Records.ParseColumns | Example/Pods/SQLiteRepairKit/repair/sqliterk_btree.c:438-483 | the record loop appends exactly the decoded columns, or reports damage |
| Records.ParseRecord | Example/Pods/SQLiteRepairKit/repair/sqliterk_btree.c:423-483 | header size and columns of a payload are decoded into the list |
| Records.RecordRoundTrip | Example/Pods/SQLiteRepairKit/repair/sqliterk_btree.c:423-483 | decoding the section 2.1 encoding of any list of columns gives their values, whatever integer widths were chosen, with header and body used up exactly |
| RecordForm.RowIff | Example/Pods/SQLiteRepairKit/repair/sqliterk_btree.c:423-483 | the decoder gives a row for exactly the well-formed records, and that row: a header size, serial types that fill the header exactly, none of them reserved, and bodies that fill the rest exactly |
| Payloads.LocalSizeIs | Example/Pods/SQLiteRepairKit/repair/sqliterk_btree.c:355-370 | the size of the local part is the one that section 1.6 of the file format gives and no other: P if P <= U - 35; otherwise the least k from M to U - 35, M being (U - 12) * 32 / 255 - 23, for which P - k is a multiple of U - 4; or M, if there is none |
| Payloads.SurplusLeavesWholePages | Example/Pods/SQLiteRepairKit/repair/sqliterk_btree.c:364-367 | when the payload overflows and the surplus fits on the page, exactly the surplus is there and the rest fills whole overflow pages |
| Payloads.ReadLink | Example/Pods/SQLiteRepairKit/repair/sqliterk_btree.c:387-420 | one round of the overflow loop takes from its page what the specified chain starts with |
| Payloads.CopyChain | Example/Pods/SQLiteRepairKit/repair/sqliterk_btree.c:382-421 | the overflow loop fills the buffer from the given position with the bytes of the chain and asks for exactly its pages; it ends on every file, cyclic chains included |
| Payloads.ChainIsShort | Example/Pods/SQLiteRepairKit/repair/sqliterk_btree.c:387-420 | even on a chain that goes in circles, at most one page more is acquired than the bytes fill |
| Payloads.PagesForBounds | Example/Pods/SQLiteRepairKit/repair/sqliterk_btree.c:408-413 | the number of overflow pages is the quotient rounded up |
| Payloads.ParsePayload | Example/Pods/SQLiteRepairKit/repair/sqliterk_btree.c:338-421 | the whole payload buffer: local part, chain, and zeros where the chain was too short; refusals as specified |
| Payloads.ChainRoundTrip | Example/Pods/SQLiteRepairKit/repair/sqliterk_btree.c:382-421 | reading a well-formed overflow chain gives back its bytes and asks for exactly its pages |
| Payloads.PayloadRoundTrip | Example/Pods/SQLiteRepairKit/repair/sqliterk_btree.c:338-421 | a payload of which the part that section 1.6 prescribes lies in the cell, and the rest in an overflow chain, is read back byte for byte |
| Payloads.BrokenOff | Example/Pods/SQLiteRepairKit/repair/sqliterk_btree.c:372-421 | of a payload whose chain leads to no page of the file before its end, what is there is read byte for byte, and zeros stand for what is missing |
| Cells.ParseCell | Example/Pods/SQLiteRepairKit/repair/sqliterk_btree.c:289-319 | one cell: payload size, rowid and payload give a row, a refusal or a damaged cell, and the list of values holds exactly the row's values |
| Cells.CellRoundTrip | Example/Pods/SQLiteRepairKit/repair/sqliterk_btree.c:275-333 | a row stored as sections 1.6, 1.7 and 2.1 describe is reported with its rowid and its values |
| Cells.SizeIsRefused | Example/Pods/SQLiteRepairKit/repair/sqliterk_btree.c:301-319 | cells with more than 64 MB of payload are refused, and those with none are damaged |
| Pages.ParseHead | Example/Pods/SQLiteRepairKit/repair/sqliterk_btree.c:166-204 | type, number of cells and cell pointers are read, or the page refused |
| Pages.RefusedIff | Example/Pods/SQLiteRepairKit/repair/sqliterk_btree.c:158-196 | which pages are refused, exactly: those that cannot be read, whose type is none of the four, or whose number of cells is not positive or too large for a page |
| Pages.EmptyPageIsRefused | Example/Pods/SQLiteRepairKit/repair/sqliterk_btree.c:191-195 | the only page of a table without rows is taken for a damaged one; no row is lost with it (`Databases.TableExtracted` covers such tables) |
| Pages.ParseKids | Example/Pods/SQLiteRepairKit/repair/sqliterk_btree.c:213-227 | the page numbers of the children: one per cell, then the right-most |
| Pages.InteriorPageRead | Example/Pods/SQLiteRepairKit/repair/sqliterk_btree.c:206-227 | the children of an interior page are found in order; the right-most one exactly if the page is not page 1 or bytes 8 to 11 happen to be right |
| Pages.PageOneLosesItsRightMostChild | Example/Pods/SQLiteRepairKit/repair/sqliterk_btree.c:225-227 | when page 1 is an interior page its right-most subtree is never visited (the offset of the file header is not added) |
| Pages.LeafPageRead | Example/Pods/SQLiteRepairKit/repair/sqliterk_btree.c:182-204 | the rows stored on a leaf page are found in order |
| Pages.OverflowPageIsUntyped | Example/Pods/SQLiteRepairKit/repair/sqliterk_pager.c:420-436 | an overflow page is not taken for a B-tree page unless the page number it starts with is 2^24 or more |
| Walker.CellsKept | Example/Pods/SQLiteRepairKit/repair/sqliterk_btree.c:285-325 | reporting the rows of a leaf page keeps every mark "checking" and never loses a reported row |
| Walker.DescendHalts | Example/Pods/SQLiteRepairKit/repair/sqliterk_btree.c:146-271 | the walk ends on every page graph, from a B-tree of any kind, rows of sqlite_master followed or not, when the pages that overflow chains run into form no circle among themselves (they can be ranked); its depth is at most the number of unmarked pages no chain runs into, times the bound of the ranks, plus the rank of the first page and two; pages no chain runs into keep their mark, however often the client cancels, and without a cancellation no page is newly marked |
| Walker.VisitHalts | Example/Pods/SQLiteRepairKit/repair/sqliterk_btree.c:146-271 | the same for the walk that follows no rows |
| Walker.FuelIsLeft | Example/Pods/SQLiteRepairKit/repair/sqliterk_btree.c:156-161 | marking a page leaves depth enough for everything below it: either one unmarked page less is left, or the rank falls |
| Walker.KidsHalt | Example/Pods/SQLiteRepairKit/repair/sqliterk_btree.c:232-237 | the loop over the children ends under the same condition and keeps the same |
| Walker.CellsHalt | Example/Pods/SQLiteRepairKit/repair/sqliterk_btree.c:291-324 | so does the loop over the cells of a page of sqlite_master, with the walks its rows lead to |
| Walker.SafeIsRanked | Example/Pods/SQLiteRepairKit/repair/sqliterk_btree.c:389-402 | when overflow chains keep clear of interior pages there is nothing to rank, so the walk ends |
| Walker.CleanIsRanked | Example/Pods/SQLiteRepairKit/repair/sqliterk_btree.c:389-402 | nor is there, with rows of sqlite_master followed, when they keep clear of all B-tree pages |
| Walker.DescendIsVisit | Example/Pods/SQLiteRepairKit/repair/sqliterk.c:229-230 | in a table, or in sqlite_master when no row leads anywhere, the walk is the one that follows no rows |
| Walker.RunIsParse | Example/Pods/SQLiteRepairKit/repair/sqliterk.c:98-115 | the same for a whole run |
| Walker.OverflowMayUndoTheMark | Example/Pods/SQLiteRepairKit/repair/sqliterk_btree.c:389-402 | when a chain runs into an interior page being checked, its mark is lost and the walk need not end: two pages as the walker sees them, for which no depth suffices |
| FileHeader.PageCount | Example/Pods/SQLiteRepairKit/repair/sqliterk_pager.c:256-257 | the number of pages is the size of the file divided by the page size, rounded up |
| FileHeader.PageHolds | Example/Pods/SQLiteRepairKit/repair/sqliterk_pager.c:406-411 | each page is the bytes of the file at its place, and can be read exactly if the file has all of them |
| FileHeader.OpensAs | Example/Pods/SQLiteRepairKit/repair/sqliterk_pager.c:137-283 | a plain-text file is refused exactly if it has no whole header; otherwise its pages are as many as the page size demands, and each that can be read is the bytes at its place |
| FileHeader.HeaderSays | Example/Pods/SQLiteRepairKit/repair/sqliterk_pager.c:185-245 | the page size is the number in bytes 16 and 17 if the magic is there and it is a power of two from 512 to 16384, and otherwise 4096; the reserved bytes are byte 20 if the magic is there and it is below 128, and otherwise none |
| LoopingFile.WalkDoesNotEnd | Example/Pods/SQLiteRepairKit/repair/sqliterk_btree.c:389-402 | a file of two pages of 512 bytes with a header in order: an index page with the children 2 and 1, and a leaf page whose blob overflows into page 1; it opens as these pages, and the run ends at no depth, whether or not rows of sqlite_master are followed |
| Extraction.CellsInOrder | Example/Pods/SQLiteRepairKit/repair/sqliterk_btree.c:285-325 | a leaf page reports its rows in order, up to the first bad cell |
| Extraction.InOrder | Example/Pods/SQLiteRepairKit/repair/sqliterk_btree.c:146-271 | where the pages form a tree, the rows of all leaf pages are reported from left to right, whatever is damaged and wherever overflow chains lead |
| Extraction.DamageIsLocal | Example/Pods/SQLiteRepairKit/repair/sqliterk_btree.c:146-271 | damaging a page takes away the rows at and below it and no others |
| Damage.ViewAlike | Example/Pods/SQLiteRepairKit/repair/sqliterk_btree.c:146-271 | changing the bytes of a page changes what is found on another one only if an overflow chain leads from there to it |
| Damage.FileDamageIsLocal | Example/Pods/SQLiteRepairKit/repair/sqliterk_btree.c:146-333 | from bytes to rows: when a page no overflow chain leads to becomes unusable, exactly the rows at and below it are lost |
| Extraction.Extracted | Example/Pods/SQLiteRepairKit/repair/sqliterk_btree.c:146-271 | on a tree with ordered keys every row is reported exactly once in ascending order of rowids |
| Recovery.CancelStopsOneLevel | Example/Pods/SQLiteRepairKit/repair/sqliterk_btree.c:232-237 | only a leaf page ever ends as cancelled, and only because the client cancelled at the last row it got |
| Cancellation.TreeHanded | Example/Pods/SQLiteRepairKit/repair/sqliterk_btree.c:146-271 | on a tree of distinct pages, however often the client cancels, the rows it gets are exactly these: each leaf page up to the first row cancelled at, and after such a page none of the remaining children of its parent |
| Cancellation.VisitAlike | Example/Pods/SQLiteRepairKit/repair/sqliterk_btree.c:146-271 | where the client does not cancel, the walk is the one in which it never does |
| Cancellation.TreeCancelled | Example/Pods/SQLiteRepairKit/repair/sqliterk_btree.c:232-237 | on a tree of distinct pages, cancelling at row i gives exactly the rows up to i and then those further right, but for the remaining children of the same parent |
| Cancellation.CancelIsFinal | Example/Pods/SQLiteRepairKit/repair/sqliterk_btree.c:232-237 | no row follows the cancelled one exactly when no row lies further right outside the parent of its leaf page |
| Cancellation.CancelIsIgnored | Example/Pods/SQLiteRepairKit/repair/sqliterk_btree.c:232-237 | four pages on which the client cancels at the first row and still gets the second |
| Recovery.DescendCovers | Example/Pods/SQLiteRepairKit/repair/sqliterk_btree.c:146-271 | whatever the graph, of every page that has been dealt with the status says what is on it, and its rows, if it is a leaf page, are in what was reported, unless a chain runs into the page or it belongs to a system table |
| Recovery.NothingIsLost | Example/Pods/SQLiteRepairKit/repair/sqliterk.c:103-138 | a run over the file, rows of sqlite_master followed, whatever its pages point to as long as they can be ranked: no page is still marked, every page that can be opened was dealt with; and unless a chain runs into the page or it belongs to a system table, its status says whether it is damaged, and its rows, if it is a leaf page, were reported |
| Recovery.NothingIsLostFlat | Example/Pods/SQLiteRepairKit/repair/sqliterk.c:103-138 | the same where no rows are followed: there the rows of every leaf page into which no chain runs were reported one after the other, and the status of every page into which no chain runs says what is on it |
| WholeRun.WholeLog | Example/Pods/SQLiteRepairKit/repair/sqliterk.c:103-138 | where no page leads back to itself, a run that follows no rows reports exactly the rows of the trees of those pages that no earlier walk has dealt with, in the order of page numbers, wherever overflow chains lead |
| WholeRun.AcyclicIsRanked | Example/Pods/SQLiteRepairKit/repair/sqliterk_btree.c:146-271 | where no page leads back to itself, the depths of the trees are ranks: the walk ends wherever overflow chains lead |
| WholeRun.LostIff | Example/Pods/SQLiteRepairKit/repair/sqliterk.c:117-138 | which leaf pages such a run loses, exactly: those below no page that is walked, and the reason is a chain that an earlier walk followed into the page |
| WholeRun.LostToAChain | Example/Pods/SQLiteRepairKit/repair/sqliterk.c:122-125 | two leaf pages, of which the second is lost because a row of the first overflows into it |
| WholeRun.HandedOverTwice | Example/Pods/SQLiteRepairKit/repair/sqliterk.c:103-138 | leaf page 1, whose rows do not overflow into page 2, below page 2: its rows are reported twice |
| WholeRun.HandedOverOnce | Example/Pods/SQLiteRepairKit/repair/sqliterk.c:103-138 | leaf page 2 below page 3 below page 1: its rows are reported once |
| OnceEach.HowOften | Example/Pods/SQLiteRepairKit/repair/sqliterk.c:103-138 | where no page leads back to itself and chains keep clear of B-tree pages: the rows of a page are reported as often as it is listed in the trees of the pages to which no page with a smaller number leads |
| OnceEach.OnceIff | Example/Pods/SQLiteRepairKit/repair/sqliterk.c:103-138 | where besides every page has at most one parent: every leaf page is reported, and exactly once if and only if, of the pages that lead to it, the one without a parent has the smallest number |
| OnceEach.EachOnce | Example/Pods/SQLiteRepairKit/repair/sqliterk.c:103-138 | in particular exactly once where parents have smaller numbers than their children |
| Schema.DescendInOrder | Example/Pods/SQLiteRepairKit/repair/sqliterk_btree.c:146-271 | where the pages form a tree with the B-trees that rows of sqlite_master lead to, the walk reports from left to right exactly: all rows of tables, each row of sqlite_master and right after it those of its B-tree, none of system tables; whatever is damaged and wherever overflow chains lead |
| Schema.TargetIs | Example/Pods/SQLiteRepairKit/repair/sqliterk.c:229-251 | where a row of sqlite_master with a type and a name leads: to the page whose number is in its fourth column, if that opens; as a system table exactly if the name starts with one of the three names of such, as sqlite_master if it starts so or the page is page 1, and as a table otherwise |
| Schema.NamelessLeadsNowhere | Example/Pods/SQLiteRepairKit/repair/sqliterk.c:237-237 | a row without a type or a name leads nowhere |
| Schema.TableUnfoldsAs | Example/Pods/SQLiteRepairKit/repair/sqliterk_btree.c:146-271 | for a table this is the order from left to right of `Extraction.InOrder` |
| Schema.DescendBegins | Example/Pods/SQLiteRepairKit/repair/sqliterk_btree.c:156-161 | afterwards every page of that tree has been dealt with, so that no later walk starts from it |
| Schema.WholeDatabase | Example/Pods/SQLiteRepairKit/repair/sqliterk.c:103-138 | when every page that can be opened belongs to the tree of sqlite_master, a whole run reports exactly the rows of that tree |
| RepairKit.Kit.constructor | Example/Pods/SQLiteRepairKit/repair/sqliterk_pager.c:41-135 | a pager just opened has every page unchecked |
| RepairKit.Kit.SetStatus | Example/Pods/SQLiteRepairKit/repair/sqliterk_pager.c:554-566 | sets the status of a page number in range, and nothing for others; the integrity flag is raised exactly by a page in range becoming "checked" |
| RepairKit.Kit.GetStatus | Example/Pods/SQLiteRepairKit/repair/sqliterk_pager.c:568-575 | the status, "invalid" out of range |
| RepairKit.Kit.OnBeginParsePage | Example/Pods/SQLiteRepairKit/repair/sqliterk.c:272-281 | a page being checked is refused, any other marked |
| RepairKit.Kit.OnEndParsePage | Example/Pods/SQLiteRepairKit/repair/sqliterk.c:283-312 | the mark is replaced by the outcome, except after a cancellation |
| RepairKit.Kit.ParseOverflowPages | Example/Pods/SQLiteRepairKit/repair/sqliterk_btree.c:389-402 | the callbacks for the overflow pages of a cell, in order |
| RepairKit.Kit.SetMeta | Example/Pods/SQLiteRepairKit/repair/sqliterk_btree.c:516-552 | the kind of a B-tree once its name is known: system tables and sqlite_master are told by the start of the name |
| RepairKit.Kit.FollowRow | Example/Pods/SQLiteRepairKit/repair/sqliterk.c:229-267 | what the walk of the B-tree does to which `Schema.TargetIs` says that the row leads, if it leads to one |
| RepairKit.Kit.OnParseColumn | Example/Pods/SQLiteRepairKit/repair/sqliterk.c:197-270 | a row is handed to the client; if it does not cancel, a row of sqlite_master is followed, and what comes of that is ignored |
| RepairKit.Kit.ParseCells | Example/Pods/SQLiteRepairKit/repair/sqliterk_btree.c:275-333 | the loop over the cells refines the specified walk over the cells of the page, in a table or in sqlite_master |
| RepairKit.Kit.ParseLeaf | Example/Pods/SQLiteRepairKit/repair/sqliterk_btree.c:241-249 | leaf pages of system tables are skipped |
| RepairKit.Kit.ParseChildren | Example/Pods/SQLiteRepairKit/repair/sqliterk_btree.c:232-237 | the loop over the children refines the specified one |
| RepairKit.Kit.BtreeParsePage | Example/Pods/SQLiteRepairKit/repair/sqliterk_btree.c:146-271 | the recursive walk on the bytes of the file refines the specified walk on what is on the pages |
| RepairKit.Kit.BtreeOpen | Example/Pods/SQLiteRepairKit/repair/sqliterk_btree.c:60-101 | a page opens if it can be read and is page 1 or has one of the four types |
| RepairKit.OpensIff | Example/Pods/SQLiteRepairKit/repair/sqliterk_btree.c:60-101 | from which pages a walk can start: those that can be read and are page 1 or start with 2, 5, 10 or 13 |
| RepairKit.Kit.ParsePage | Example/Pods/SQLiteRepairKit/repair/sqliterk.c:117-138 | only unchecked pages that open are walked |
| RepairKit.Kit.Parse | Example/Pods/SQLiteRepairKit/repair/sqliterk.c:103-115 | the run over all pages refines the specified one, with or without following rows of sqlite_master; without cancellation no page is still marked, every page that can be opened was dealt with; and unless a chain runs into the page or it belongs to a system table, its status says whether it is damaged, and its rows, if it is a leaf page, were handed over |
| Databases.TableUnfolds | Example/Pods/SQLiteRepairKit/repair/sqliterk_btree.c:146-271 | the pages of a table B-tree laid out as the file format describes form the tree the walk follows |
| Databases.TableExtracted | Example/Pods/SQLiteRepairKit/repair/sqliterk_btree.c:146-333 | from bytes to rows: walking a stored table hands over all its rows, with rowids and values, in their order |
| Databases.EntryLeads | Example/Pods/SQLiteRepairKit/repair/sqliterk.c:229-267 | a stored entry of sqlite_master, of a table, an index, a system table, a view or a trigger, leads to the B-tree whose page number it holds, or nowhere, and what is found there are the rows of the table |
| Databases.DatabaseExtracted | Example/Pods/SQLiteRepairKit/repair/sqliterk.c:103-138 | from bytes to a database: with sqlite_master on page 1, and the B-trees of its entries stored on the pages whose numbers it holds, the run reports each row of sqlite_master, behind that of a table all rows of the table, and nothing else if no other page of the file looks like one of a B-tree; indexes, system tables, views and triggers included |
| RenameEdit.QuoteRoundTrip | Example/Pods/WCDBOptimizedSQLCipher/src/util.c:245-266 | a quoted name starts with a double quote and is read back as the name, with what follows it left over, exactly if what follows is no double quote |
| RenameEdit.FindUndoesMap | Example/Pods/WCDBOptimizedSQLCipher/src/alter.c:688-788 | a token just mapped is the one found for its element, and finding it leaves the list as it was before |
| RenameEdit.Parse.RenameTokenRemap | Example/Pods/WCDBOptimizedSQLCipher/src/alter.c:708-717 | the first token of the old element becomes one of the new element; nothing else changes |
| RenameEdit.Parse.RenameTokenFind | Example/Pods/WCDBOptimizedSQLCipher/src/alter.c:775-788 | the first token of the element moves to the other list; no token is lost or doubled, and the count keeps step |
| RenameEdit.RenameCtx.RenameColumnTokenNext | Example/Pods/WCDBOptimizedSQLCipher/src/alter.c:852-864 | the token furthest to the right is taken out of the list, and only that one |
| RenameEdit.Splice | Example/Pods/WCDBOptimizedSQLCipher/src/alter.c:1050-1059 | moving the rest of the text and copying the name replaces exactly the token, and a NUL still ends the text |
| RenameEdit.EditStep | Example/Pods/WCDBOptimizedSQLCipher/src/alter.c:1037-1060 | replacing the right-most token left extends the simultaneously substituted part of the text to that token |
| RenameEdit.RenameEditSql | Example/Pods/WCDBOptimizedSQLCipher/src/alter.c:997-1071 | for every order of a list of disjoint tokens the result is the statement with all tokens replaced at once, and the buffer computed up front is never left; at the place of each token stands a text in double quotes that reads back as the new name, where names are to be quoted or the token is, or the new name itself for a token that starts with a letter |
| RenameEdit.RenamedToItself | Example/Pods/WCDBOptimizedSQLCipher/src/alter.c:997-1071 | replacing every token by its own text gives the statement back |
| RenameEdit.MergesWithTheNext | Example/Pods/WCDBOptimizedSQLCipher/src/alter.c:1037-1060 | a column before an alias in double quotes: quoted, its new name and the alias become one name |
| RenameEdit.NoNul | Example/Pods/WCDBOptimizedSQLCipher/src/alter.c:1063-1063 | the edited text has no NUL inside, so its length is what the buffer says |
| ParseTrees.SucceedsIff | Example/Pods/WCDBOptimizedSQLCipher/src/attach.c:485-628 | the walk returns 0 exactly if no reachable item names another database (unless only variables matter) and no reachable expression is a variable (unless the schema is being read), nodes shared or not |
| ParseTrees.AllSettled | Example/Pods/WCDBOptimizedSQLCipher/src/attach.c:485-628 | after success every reachable item is bound to the schema and no reachable expression is a variable |
| ParseTrees.SecondRun | Example/Pods/WCDBOptimizedSQLCipher/src/attach.c:485-628 | a second run after a successful one changes nothing |
| ParseTrees.OthersStay | Example/Pods/WCDBOptimizedSQLCipher/src/attach.c:485-628 | what is not reachable stays; with bVarOnly no item changes, and outside schema reading no expression does |
| ParseTrees.FailsAtTheFirst | Example/Pods/WCDBOptimizedSQLCipher/src/attach.c:485-628 | a run that fails has written exactly what precedes the first offence in the order of the walk |
| ParseTrees.AfterSuccess | Example/Pods/WCDBOptimizedSQLCipher/src/attach.c:485-628 | what a successful walk has written, node by node: every item reached is bound to the schema and has no database name, unless only variables matter; every variable reached has become NULL; nothing else has changed |
| ParseTrees.SameNameIs | Example/Pods/WCDBOptimizedSQLCipher/src/util.c:302-314 | names of databases are the same if they differ in nothing but the case of ASCII letters |
| TreeParts.WalkedIsUnder | Example/Pods/WCDBOptimizedSQLCipher/src/attach.c:485-628 | the walk from a statement, item, expression, upsert or trigger step comes to exactly the items and expressions that lie under it, by the fields that the walkers follow, at any depth |
| TreeParts.InFieldOrder | Example/Pods/WCDBOptimizedSQLCipher/src/attach.c:485-628 | and in the order of these fields |
| TreeParts.WalkBinds | Example/Pods/WCDBOptimizedSQLCipher/src/attach.c:485-628 | so the walk succeeds exactly if nothing that lies under it is forbidden, and then everything under it is bound |
| FixWalker.DbFixer.FixSrcList | Example/Pods/WCDBOptimizedSQLCipher/src/attach.c:485-516 | the loop over FROM items refines the walk over what they reach |
| FixWalker.DbFixer.FixSelect | Example/Pods/WCDBOptimizedSQLCipher/src/attach.c:518-555 | a SELECT and those before it in the compound, with their WITH clauses |
| FixWalker.DbFixer.FixExpr | Example/Pods/WCDBOptimizedSQLCipher/src/attach.c:556-581 | recursion to the right, a loop to the left, ending early at token-only nodes |
| FixWalker.DbFixer.FixExprList | Example/Pods/WCDBOptimizedSQLCipher/src/attach.c:582-596 | all expressions of a list, in order |
| FixWalker.DbFixer.FixTriggerStep | Example/Pods/WCDBOptimizedSQLCipher/src/attach.c:599-628 | all steps of a trigger with their upsert parts |
| FixWalker.DbFixer.FixView | Example/Pods/WCDBOptimizedSQLCipher/src/build.c:2229-2230 | CREATE VIEW is refused exactly if something that lies under its SELECT is forbidden; otherwise everything under it is bound, and nothing else changes |
| FixWalker.DbFixer.FixTrigger | Example/Pods/WCDBOptimizedSQLCipher/src/trigger.c:301-305 | the same for what lies under the steps and the WHEN clause of CREATE TRIGGER |

## Left out

- Bitvecs.Bitvec.Set: sizes above 2^32 - 62 are excluded (`Bitvecs.DivisorWraps` shows why), and memory is always available; the three buffers of a node's union are values of the node, of which one is live, so that they overlap in memory is not captured.
- sqlite3BitvecDestroy and sqlite3BitvecSize: freeing memory and reading a constant field.
- BitvecSelfTest.BuiltinTest: the random numbers are arbitrary; the allocation failure exits (result -1) are not modelled, and neither is overflow of the program's operands in C.
- BtreeMutex.Btree.Enter: what other connections do to mutexes this connection does not hold is not interleaved here; `MutexProtocol` has all interleavings.
- BtreeMutex.Connection.Attach: linking the new handle into the sorted list is done in `btree.c` and is required, not proved.
- MutexProtocol.Safety: each connection's list of handles is fixed during a run; fairness of the mutexes is not modelled.
- LrDriver.Parser.Parse: the semantic actions of the rules and the destructors of stack entries do nothing here; the tables are a parameter, required to be right for the grammar (`Right`), and the generated constants themselves are not part of this model.  What is accepted is exactly what the tables accept; that this is every derivable input is not shown: SQL's grammar is ambiguous, and the precedences that resolve it are in the tables only.
- SelectLink.DoubleLinkSelect: the error message is a boolean result.
- Numbers.VarintRoundTrip: numbers from 2^56 on are shown not to be read back; negative rowids are among them.
- ValueList.Values.GetInteger64: what the C library makes of floating-point numbers and of texts is a parameter; sqliterkValuesGetNumber is not modelled.
- Records.RecordRoundTrip: floating-point values are their eight bytes, not interpreted; records that make the code read past its buffer, or hand over a value it never set, come out as `Undefined`, and nothing more is said of them.
- Payloads.ParsePayload: pages whose overflow page number would be read past the end of the page come out as `Beyond`; failing allocations are not modelled; the payload buffer is zeroed, as `sqliterkOSMalloc` does.
- Pages.ParseHead: page sizes of 32768 and more, where two-byte fields are read as negative, come out as the code has them (`Miscounted`); reads outside a page come out as `OverrunPage`.
- Pages.LeafPageRead: the content of index pages is not modelled; the walk only follows their pointers as the code reads them.
- Walker.DescendHalts: circles of pages among themselves into all of which overflow chains run; there the walk may end or not, depending on the order in which it meets them.
- RepairKit.Kit.Parse: files on which the code reads outside a buffer are excluded (`Sound`), as are circles of pages that overflow chains run into (`Ranked`); decryption has happened before.  `FileHeader` has the opening of plain-text files.
- Cancellation.TreeHanded: the walk follows no rows of sqlite_master, and the pages form a tree without repetition; elsewhere a cancelled leaf page stays marked and is refused when it is met again.
- WholeRun.WholeLog: pages that lead back to themselves are not covered, and no rows are followed; `Recovery.NothingIsLost` covers both.
- OnceEach.OnceIff: pages with several parents; `OnceEach.HowOften` covers them.
- RepairKit.Kit.OnParseColumn: the client answers either "go on" or "cancelled"; other answers, which set the status "discarded", are not modelled.
- RepairKit.Kit.FollowRow: the names given to tables reach the client through notifications that are not modelled; neither is that the type of a row is compared beyond the end of a text shorter than five bytes.
- Databases.DatabaseExtracted: sqlite_master fits on page 1; `Schema.WholeDatabase` has larger ones, on what is found on the pages.
- FileHeader.OpensAs: no page size is forced and there is no key; sizes and offsets stay below 2^31.
- sqliterkPagerGetParsedPageCount, the integrity flags of header and key, the notifications about begun and ended trees, logging.
- RenameEdit.RenameEditSql: which tokens get into the list (schema lookup, name resolution) is not modelled; the tokens are required to be non-empty, disjoint and inside the statement, as the parser makes them.  The linked lists are sequences.
- FixWalker.DbFixer.FixSelect: the fields that are overwritten are kept in two arrays indexed by node, in place of fields of the nodes; error messages are the result 1.  Window definitions are not visited, as in the code.
- Opening B-trees, code generation, the app's Swift code, file and cipher calls, and the SQL output of the repair kit: calls into the system and user interface.
