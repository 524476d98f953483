# Verified model of the Lua 5.1.5 core

This project models the parts of the Lua 5.1.5 core in `lua-5.1.5/src`, and of its C# bridge, whose correctness
depends on invariants that no single function shows, and proves what they are for. `dafny verify dfyconfig.toml`
checks all of it. Every file is a module; a class with methods and loops stands wherever the source changes things
in place, proved against functions and predicates on values, and the theorems are lemmas about those.

| component | files | main result |
|---|---|---|
| garbage collector | GcHeap, Collector, GcMarks | no interleaving of collector and program frees a reachable object or one that a live field refers to; a full collection leaves exactly the reachable objects |
| tables | TableValues, TableNodes, TableSizes, TableTraversal, Tables | array part and chained hash part refine a finite map; rehash makes room; a traversal stops and is exact; length |
| code generator | BoolCode, BoolLaws, BoolMeaning, BoolTests, CodeGen, Returns | code for short-circuit and comparison expressions computes the value of the expression, from the tokens on |
| expression parser | Syntax, Precedence, Subexprs | operator precedence parsing reads exactly the trees that respect the order of the manual |
| bytecode checker | Checker, Operands | checked code never leaves its instructions, and uses only registers, constants and upvalues that are there, with the exact conditions for LOADBOOL and TFORLOOP |
| pattern matcher | Patterns, PatternLaws, Matcher, Searching | backtracking finds the promised match, or there is none; when a plain search may stand for it |
| %q and the lexer | Quoting, QuotingLaws | a quoted string reads back as itself |
| sort | Sorting | quicksort sorts, permutes, and nests logarithmically |
| dump and undump | Chunks, ChunkLaws, Dumping | round trip of prototype trees, through any pieces |
| upvalues | Upvalues | open list, ring, closing and stack relocation show lexical scoping |
| references | References | the free list of luaL_ref over whole runs |
| bridge | ObjectIds | object ids and back map over late finalizers |

How a main result reads. The collector has the heap as a graph of objects with colours; reachability is a ghost
definition by paths, and `Collector.GlobalState.Run` takes any sequence of events. Tables are compared with a map
given by looking at every slot. The compiled code runs on a model of the virtual machine; jumps that are still on
patch lists are exits of a run, and an expression descriptor means an expression if every run of the code so far ends
with its value, at its end or at such an exit. Upvalues are compared with cells of lexical scopes. The matcher is compared
with a relation that says which ways of matching exist and which of them the manual promises. Definitions that the
code and its specification share are pinned down by laws of their own, in terms of characters, bytes, tokens or fields.

Results that differ from a first reading of the source:

- The comment at the top of `ltable.c` says that at least half of the array slots are in use. The code asks for strictly
  more than half (`ltable.c:198`), and `TableSizes.ComputeSizes` states what the code does.
- The checker accepts `LOADBOOL` with any operand C but guards only C equal to 1, while the machine skips for every C
  that is not 0. `Checker.UncheckedExample` is an accepted prototype that runs past its end; `Checker.RunsExact` says
  exactly when a checked prototype is safe, and `Checker.RunSafe` covers everything the code generator emits.
- The checker asks a generic `for` for the registers of its results only, while the machine also writes two arguments
  behind its function. `Operands.FrameExample` is an accepted prototype whose TFORLOOP uses a register behind its frame;
  `Operands.FrameExact` says exactly when all registers are inside, and `Operands.RegistersSafe` that two is the most.
- The tracing of `symbexec` does not see every register that an instruction writes; `Operands.ChangesExact` says which.
- A round trip through dump and undump gives a function without a source that of its enclosing function, or "=?";
  `Chunks.RoundTripExact` says exactly when a tree comes back unchanged.
- `string.find` makes a plain search when it sees no special character, but neither `)` nor a zero byte counts as one,
  and a zero hides the characters behind it. `Searching.PlainExact` says that the plain search stands for the search
  with the pattern exactly if the pattern has neither.
- `rehash` counts the array part only up to MAXASIZE slots; `Tables.RehashPlan` says that it asks for enough nodes
  exactly if no slot beyond is in use.
- `luaL_unref` does not look at its argument. `References.RefTable.Unref` says for which ones the free list survives.
- Reading back what %q wrote fails only by the limit on line numbers; `Quoting.QuotedReads` states that limit.

## Model

| member | source | states |
|---|---|---|
| Collector.GlobalState.Run | lua-5.1.5/src/lgc.c:556-682 | for every interleaving of collector steps, full collections, allocations, barriered stores, stack operations, captures and closings: the invariant holds afterwards, everything reachable from the main thread, the running thread, the registry and the basic metatables is in the heap and does not carry the dead white, and so is every object that a field of a live object refers to: a value of a userdata, function, table or prototype, the globals and the stack of a thread, the value of an upvalue, open or closed |
| Collector.GlobalState.FullGC | lua-5.1.5/src/lgc.c:635-658 | started in any collector state it ends in the pause state with a heap that is exactly the objects reachable before plus the fixed ones, all in the current white, the reachable ones with the same fields; a field refers to whatever is left, but for the roots and the fixed objects |
| Collector.GlobalState.Do | lua-5.1.5/src/lgc.h:80-98 | one event of a run keeps the invariant, has its effect on the heap, the roots and the fixed objects and no other, and leaves in the heap whatever was reachable; steps, full collections and closings keep the fields of what is reachable, and a full collection leaves no more than that and the fixed objects |
| Collector.GlobalState.Load | lua-5.1.5/src/lvm.c:427-444 | reading a field, the globals, the registry or a basic metatable and pushing it on a stack: that the value may be used is no condition but follows from the invariant |
| Collector.GlobalState.AllUsable | lua-5.1.5/src/lgc.c:277-332 | in every state that satisfies the invariant the roots may be used, and every value in a field of an object that may be used |
| GcHeap.ChildIs | lua-5.1.5/src/lgc.c:69-320 | the collector follows exactly the references in the fields of an object, kind by kind |
| GcHeap.FieldUsable | lua-5.1.5/src/lgc.c:69-320 | a value in a field of a live object is in the heap and not dead |
| GcHeap.HeldByField | lua-5.1.5/src/lgc.c:277-332 | what is reachable is a root, or a field of something reachable refers to it |
| GcHeap.KeptFields | lua-5.1.5/src/lgc.c:407-428 | what a collection keeps has the same fields, and an upvalue that was closed meanwhile has the value of its slot |
| Collector.GlobalState.StoreAllowed | lua-5.1.5/src/lgc.h:80-98 | a run may store whatever is reachable in any reachable object |
| Collector.GlobalState.LoadAllowed | lua-5.1.5/src/lvm.c:427-444 | a run may read any field of what is reachable |
| Collector.GlobalState.NewAllowed | lua-5.1.5/src/lgc.h:80-98 | a run may make objects of what is reachable |
| Collector.GlobalState.AllReachable | lua-5.1.5/src/lgc.h:69-70 | the invariant alone implies that no reachable object is missing or dead |
| GcHeap.ReachableLive | lua-5.1.5/src/lgc.c:407-428 | if live objects refer only to live objects and the roots are live, whatever is reachable is in the heap and not dead, so a sweep cannot free it |
| GcHeap.Flipped | lua-5.1.5/src/lgc.c:525-553 | when marking is complete, exchanging the whites makes exactly the unmarked objects dead, and live objects then refer only to live ones |
| GcHeap.ClosedHoldsReachable | lua-5.1.5/src/lgc.c:277-332 | a set that contains the roots and the children of its members contains everything reachable |
| GcHeap.KeptReach | lua-5.1.5/src/lgc.c:407-428 | a sweep that keeps the reachable objects and their values changes neither what is reachable nor the set of it |
| GcHeap.SweptKept | lua-5.1.5/src/lgc.c:407-428 | freeing dead objects and whitening live ones keeps everything reachable from live roots |
| GcHeap.FreedDead | lua-5.1.5/src/lgc.c:378-400 | removing a dead object leaves live objects referring to live objects |
| GcHeap.OpenFreed | lua-5.1.5/src/lfunc.c:89-93 | an open upvalue that leaves the list of its thread and the ring leaves all lists consistent |
| GcHeap.ClosingViews | lua-5.1.5/src/lfunc.c:96-112 | closing an upvalue changes no value that any object reads |
| GcHeap.ClosingPropagate | lua-5.1.5/src/lgc.c:694-711 | closing during propagation breaks the marking invariant at most at the upvalue itself |
| GcHeap.ClosingSweep | lua-5.1.5/src/lgc.c:694-711 | closing during a sweep leaves at most the colour of the upvalue to be set |
| GcHeap.StoredMarking | lua-5.1.5/src/lgc.c:661-671 | a store breaks the marking invariant at most at a black object that is stored into |
| GcHeap.GrayAgain | lua-5.1.5/src/lgc.c:674-682 | turning a black table gray and chaining it on the second list restores the marking invariant whatever was stored in it |
| GcHeap.Queued | lua-5.1.5/src/lgc.c:69-112 | a white object that becomes gray on the gray list keeps the marking invariant |
| GcHeap.Blackened | lua-5.1.5/src/lgc.c:277-320 | taking the first gray object off and making it black keeps the marking invariant but for that object |
| GcHeap.NewMarking | lua-5.1.5/src/lgc.c:685-691 | a new object in the current white keeps the marking invariant |
| GcHeap.NewSweep | lua-5.1.5/src/lgc.c:685-691 | a new object in the current white keeps what the sweep has established, at the head of the list or behind the main thread |
| GcHeap.SweepDone | lua-5.1.5/src/lgc.c:581-591 | when both sweeps have come to their ends every object is in the current white |
| GcHeap.Regrayed | lua-5.1.5/src/lgc.c:539-542 | making the second list the gray list keeps the marking invariant |
| Collector.GlobalState.ReallyMark | lua-5.1.5/src/lgc.c:69-112 | from any marking state a white object and the chain it marks leave the white set, the marking invariant holds, and no mark is taken back |
| Collector.GlobalState.PropagateMark | lua-5.1.5/src/lgc.c:277-320 | no field of the first gray object refers to a white object afterwards, no mark is taken back, and either fewer objects are white or the gray list is shorter |
| Collector.GlobalState.PropagateAll | lua-5.1.5/src/lgc.c:323-327 | terminates with an empty gray list and the marking invariant |
| Collector.GlobalState.RemarkUpvals | lua-5.1.5/src/lgc.c:515-522 | the values of gray open upvalues are marked, without losing the strict invariant of the last phase |
| Collector.GlobalState.MarkRoot | lua-5.1.5/src/lgc.c:501-512 | starts a collection: the roots are marked and the propagation invariant holds |
| Collector.GlobalState.FinishMarking | lua-5.1.5/src/lgc.c:529-545 | marking ends with no gray object but threads, whose children are marked, and with all roots marked |
| Collector.GlobalState.Atomic | lua-5.1.5/src/lgc.c:525-553 | ends the marking and flips the white so that every reachable object is alive and everything left in the old white is dead |
| Collector.GlobalState.SweepStrings | lua-5.1.5/src/lgc.c:407-428 | one bucket: exactly the dead unfixed strings leave it and the heap, the others become white, and no other bucket changes |
| Collector.GlobalState.SweepRoot | lua-5.1.5/src/lgc.c:407-428 | one object of the list is kept white or freed, with the open upvalues of a thread, and the work that is left decreases |
| Collector.GlobalState.SweepOpen | lua-5.1.5/src/lgc.c:407-428 | the open upvalues of a thread: dead ones leave its list, the ring and the heap, the others are white, and no other object changes |
| Collector.GlobalState.FreeThread | lua-5.1.5/src/lstate.c:134-140 | during the sweep a dead thread is freed after its open upvalues are closed, with the invariant of the sweep kept and no reachable object lost |
| Collector.GlobalState.LinkUpval | lua-5.1.5/src/lgc.c:694-709 | a closed upvalue gets the colour its phase asks for, and the invariant of the phase is complete again |
| Collector.GlobalState.CloseTop | lua-5.1.5/src/lfunc.c:96-112 | one turn: the first open upvalue is freed if dead or else keeps its value, in every phase of the collector |
| Collector.GlobalState.CloseUpvals | lua-5.1.5/src/lfunc.c:96-112 | no open upvalue at or above the level is left on the list of the running thread, and everything reachable keeps its fields |
| Collector.GlobalState.FindUpval | lua-5.1.5/src/lfunc.c:53-79 | returns the only open upvalue of that slot: an existing one, revived if it was dead, or a new one in the current white; all other objects keep their fields, and no other colour changes |
| Collector.GlobalState.Search | lua-5.1.5/src/lfunc.c:53-79 | the walk along the descending list finds the upvalue of the slot, or the place where a new one belongs |
| GcHeap.OpenedLists | lua-5.1.5/src/lfunc.c:66-79 | a new open upvalue at its place keeps all lists, and the list of its thread strictly descending |
| GcHeap.TopmostFirst | lua-5.1.5/src/lfunc.c:97-112 | if the first open upvalue is below a level, all of the list are |
| GcHeap.OneOpen | lua-5.1.5/src/lfunc.c:57-65 | a slot has one open upvalue at most |
| Collector.GlobalState.SingleStep | lua-5.1.5/src/lgc.c:556-607 | one step in any state keeps the invariant and every reachable object with its values; it starts a collection or brings one nearer to its end, and a step that ends one leaves only enclosed and fixed objects |
| Collector.GlobalState.Step | lua-5.1.5/src/lgc.c:610-632 | any number of steps keeps the invariant and every reachable object with its fields; a collection that was going on has ended or is nearer to its end, and otherwise one has begun |
| Collector.GlobalState.FinishPending | lua-5.1.5/src/lgc.c:635-658 | from any state the pending sweep is finished and nothing reachable is lost |
| Collector.GlobalState.FinishCycle | lua-5.1.5/src/lgc.c:635-658 | a whole collection leaves nothing but what was enclosed by the roots and the fixed objects |
| Collector.GlobalState.BarrierF | lua-5.1.5/src/lgc.c:661-671 | in the propagation phase the white value is marked, otherwise the black object becomes white |
| Collector.GlobalState.BarrierBack | lua-5.1.5/src/lgc.c:674-682 | after a store in a black table the invariant holds again |
| Collector.GlobalState.BarrierForward | lua-5.1.5/src/lgc.c:661-671 | after a store in a black object whose other children are marked the invariant holds again |
| Collector.GlobalState.StoreField | lua-5.1.5/src/lgc.h:86-98 | a store with the barrier of its kind keeps the invariant and changes that field only |
| Collector.GlobalState.StoreClosed | lua-5.1.5/src/lvm.c:451-456 | a store through a closed upvalue keeps the invariant and changes its value only |
| Collector.GlobalState.WriteThread | lua-5.1.5/src/lgc.c:297-303 | stores in a stack need no barrier: they keep the invariant in every phase |
| Collector.GlobalState.SetBasicMetatable | lua-5.1.5/src/lgc.c:537-537 | replacing a basic metatable needs no barrier, because the atomic phase marks these tables again |
| Collector.GlobalState.NewObject | lua-5.1.5/src/lgc.c:685-691 | a new object keeps the invariant in every phase and may be used |
| Collector.GlobalState.NewUserdata | lua-5.1.5/src/lstring.c:96-110 | a userdata linked behind the main thread keeps the invariant, also while the sweep is between the two |
| Collector.GlobalState.NewString | lua-5.1.5/src/lstring.c:50-72 | a new string at the head of its bucket keeps the invariant, also while the buckets are being swept |
| Collector.GlobalState.ReuseString | lua-5.1.5/src/lstring.c:75-93 | an existing string may be used afterwards, being revived if it was dead |
| Collector.GlobalState.ResizeStrings | lua-5.1.5/src/lstring.c:22-47 | rearranging the buckets keeps the invariant; nothing is done while they are swept |
| Collector.GlobalState.constructor | lua-5.1.5/src/lstate.c:143-190 | a new state has the main thread and the registry and satisfies the invariant |
| GcMarks.MarkMacros | lua-5.1.5/src/lgc.h:27-77 | the mark-bit macros move between the colours of the collector and keep all other bits |
| GcMarks.DeadMarks | lua-5.1.5/src/lgc.h:69-72 | isdead is exactly the white that is not current, and changewhite makes a dead object current |
| GcMarks.SweepTest | lua-5.1.5/src/lgc.c:407-428 | the test of sweeplist on the byte spares exactly the objects that are not dead and the fixed ones |
| GcMarks.FlipMarks | lua-5.1.5/src/lgc.c:547-548 | the flip exchanges the two whites |
| GcMarks.FreeAllTest | lua-5.1.5/src/lgc.c:483-490 | with both whites and SFIXEDBIT current exactly the objects with SFIXEDBIT survive, which only the main thread has |
| GcMarks.MacrosCommute | lua-5.1.5/src/lgc.h:27-77 | for a heap of mark bytes: each macro, applied to one byte, changes the colours as the collector model does and neither the fixed objects nor any other byte |
| GcMarks.TestsCommute | lua-5.1.5/src/lgc.h:44-77 | the tests on mark bytes decide white, gray, black, dead and spared by the sweep of the colours in the collector model |
| Tables.Table.Run | lua-5.1.5/src/ltable.c:382-505 | from any table, after any run of assignments and of dead keys marked by the collector in between, every key has the last value stored for it; the run stops early only for a nil key, a NaN key or an overflow, and then such a key or overflow exists |
| Tables.Table.Traverse | lua-5.1.5/src/ltable.c:162-179 | a real traversal: each answer of next is fed back to it, while fields that exist are assigned or cleared and dead keys marked before every call. It never fails, stops after at most one call for each slot and one more, answers no key twice, only keys with a value, each with the value that it has then, and every key that keeps a value |
| Tables.Table.TouchFields | lua-5.1.5/src/ltable.c:470-505 | assigning to fields that exist and marking dead keys moves no key and keeps the order of traversal |
| Tables.Table.Set | lua-5.1.5/src/ltable.c:494-505 | the key gets the value and no other key changes; nil and NaN are refused and nothing else is; if the key is present no key moves |
| Tables.Table.Get | lua-5.1.5/src/ltable.c:469-491 | the value of the finite map for every key, NaN and dead keys included |
| Tables.Table.FindSlot | lua-5.1.5/src/ltable.c:435-491 | the three searches find the slot that holds the key, or none exactly if the map has no value there |
| Tables.Table.NewKey | lua-5.1.5/src/ltable.c:399-429 | the new key gets a slot without a value and every other key keeps its value; if a node is free no rehash happens, and otherwise the second attempt succeeds |
| Tables.Table.GrowAndSet | lua-5.1.5/src/ltable.c:405-406 | after a rehash the retry finds room, so newkey nests at most once |
| Tables.Table.GetFreePos | lua-5.1.5/src/ltable.c:382-388 | returns a free node with all nodes above it in use, or none and then no node is free |
| Tables.Table.MoveColliding | lua-5.1.5/src/ltable.c:408-417 | moving the colliding node keeps the value of every key and all chains |
| Tables.Table.ChainFree | lua-5.1.5/src/ltable.c:418-424 | chaining the new key behind the colliding node keeps the value of every key and all chains |
| Tables.Table.Rehash | lua-5.1.5/src/ltable.c:333-349 | keeps the whole map, makes the array part the largest power of two with more than half of its slots in use by the integers that have a value and the extra key, and leaves room for the extra key in the array or in a free node; it fails only when the table is too large |
| Tables.Table.Resize | lua-5.1.5/src/ltable.c:297-324 | keeps the whole map in the new sizes; no reinsertion asks for more nodes than were made, so none calls rehash |
| Tables.Table.ReinsertSlice | lua-5.1.5/src/ltable.c:306-312 | the entries of the vanishing part of the array are found again under their keys |
| Tables.Table.ReinsertNodes | lua-5.1.5/src/ltable.c:316-321 | the entries of the old node vector are found again, using at most as many nodes as there were live entries |
| Tables.Table.SetNodeVector | lua-5.1.5/src/ltable.c:272-294 | a power of two of free nodes with room for the size, and an error exactly above the maximum |
| Tables.Table.New | lua-5.1.5/src/ltable.c:358-371 | an empty map with the array size asked for, and an error exactly if the hash size is above the maximum |
| Tables.Table.ResizeArray | lua-5.1.5/src/ltable.c:327-330 | a larger array part, or a smaller one whose entries find room in the nodes, never overflows and keeps the whole map |
| Tables.Table.RemoveEntry | lua-5.1.5/src/lgc.c:62-66 | marking the key of an empty entry dead changes no value and moves no key, and the same key may be stored again later |
| Tables.Table.FindIndex | lua-5.1.5/src/ltable.c:137-159 | the position of the key, dead keys included, and an error exactly if it has none |
| Tables.Table.FindNode | lua-5.1.5/src/ltable.c:144-156 | the node of a key that its chain comes to first, live or dead |
| Tables.Table.Next | lua-5.1.5/src/ltable.c:162-179 | the first entry with a value after the position of the key: a key with the value that it has in the table, or nil and nil at the end; an error exactly if the key has no position |
| TableTraversal.AnsweredMore | lua-5.1.5/src/ltable.c:162-179 | a traversal whose answers came with their values still does with one answer more |
| Tables.CountedInUse | lua-5.1.5/src/ltable.c:206-261 | what rehash counts in the array part and in the nodes is the positive integers that have a value |
| Tables.Table.GetN | lua-5.1.5/src/ltable.c:560-576 | n with a value at n, or n = 0, and none at n + 1, for every table, without overflow of the 32-bit arithmetic |
| Tables.Table.UnboundSearch | lua-5.1.5/src/ltable.c:532-553 | a border, through the doubling, the bisection or the linear search |
| TableTraversal.TraversalExact | lua-5.1.5/src/ltable.c:137-179 | a traversal with next, during which fields are assigned or cleared and dead keys marked, answers keys that have a value, none of them twice, and every key that keeps its value |
| TableTraversal.TraversalEnds | lua-5.1.5/src/ltable.c:162-179 | it answers nil after at most one call for each slot of the table and one more |
| TableTraversal.KeyPosition | lua-5.1.5/src/ltable.c:137-159 | a key that keeps a value keeps its position |
| TableTraversal.TraversalAscends | lua-5.1.5/src/ltable.c:162-179 | the positions visited strictly increase |
| TableTraversal.TraversalCovers | lua-5.1.5/src/ltable.c:162-179 | a position with a value throughout is not passed over |
| TableTraversal.TraversalKeysFound | lua-5.1.5/src/ltable.c:137-159 | next is never given a key it cannot find |
| TableTraversal.KeyFindsPosition | lua-5.1.5/src/ltable.c:137-159 | the key of an answer has exactly the position of its entry, also after the entry was cleared |
| Tables.RehashPlan | lua-5.1.5/src/ltable.c:333-349 | the sizes that rehash asks for are legal, and they leave a node for every hashed key exactly if no slot of the array part beyond the largest array size is in use |
| Tables.NeedCount | lua-5.1.5/src/ltable.c:341-348 | what rehash asks for is exactly the number of keys that do not go to the array part |
| Tables.CandidatesDisjoint | lua-5.1.5/src/ltable.c:338-344 | array part, hash part and the extra key are counted without overlap |
| Tables.NotOnChain | lua-5.1.5/src/ltable.c:435-491 | a key that its own chain does not hold is held by no node |
| TableNodes.PlaceHome | lua-5.1.5/src/ltable.c:399-404 | taking over a main position without a value keeps the invariant of the node vector and all values |
| TableNodes.AttachAfter | lua-5.1.5/src/ltable.c:418-423 | the invariant of the node vector survives chaining into a free node |
| TableNodes.AttachLiveFirst | lua-5.1.5/src/ltable.c:418-423 | the new node of a key comes before the dead nodes of the same key on its chain |
| TableNodes.MoveLiveFirst | lua-5.1.5/src/ltable.c:409-417 | so it stays when a node is moved |
| TableNodes.MoveAway | lua-5.1.5/src/ltable.c:409-417 | the invariant survives moving a node that is not at home: each key is reachable from its main position, and a node at a main position in use is at home |
| TableNodes.OnePredecessor | lua-5.1.5/src/ltable.c:15-18 | no node has two predecessors |
| TableNodes.ValuesKept | lua-5.1.5/src/ltable.c:412-416 | exchanging the places of two nodes keeps the value of every key |
| TableSizes.ComputeSizes | lua-5.1.5/src/ltable.c:189-208 | from the slice counts: the largest power of two with strictly more than half of its indices in use, and the exact number of keys up to it, with the index in range |
| TableSizes.OptimalMeans | lua-5.1.5/src/ltable.c:189-208 | that size in numbers: more than half of 1..n are in use, and of no larger power of two |
| TableSizes.OptimalSizeUnique | lua-5.1.5/src/ltable.c:189-208 | there is only one such size |
| TableSizes.AllCounted | lua-5.1.5/src/ltable.c:189-208 | breaking off when all keys are counted loses no larger size |
| TableSizes.NumUseArray | lua-5.1.5/src/ltable.c:222-244 | for every array part: the counts of each slice and the number of indices in use up to the largest array size, and nothing of what is beyond |
| TableSizes.NumUseHash | lua-5.1.5/src/ltable.c:247-260 | the counts after the integer keys of the hash part, and the number of live entries |
| TableSizes.CountInt | lua-5.1.5/src/ltable.c:211-219 | the counts after one key, unchanged if it is no candidate for the array part |
| TableSizes.Log2 | lua-5.1.5/src/lobject.c:54-69 | the floor of the binary logarithm, -1 for 0 |
| TableSizes.CeilLog2 | lua-5.1.5/src/lobject.h:367-367 | the smallest power of two not below a number |
| CodeGen.FuncState.ReturnStat | lua-5.1.5/src/lparser.c:1238-1268 | for every expression of constants, locals, not, and, or, comparisons and parentheses: the one code that is emitted returns, in every world and from all registers, the value of the expression there, and faults exactly if it has no value; compilation gives up only at a limit of the code generator |
| Returns.CompileReturn | lua-5.1.5/src/lparser.c:828-852 | from tokens to results: an error exactly if the tokens begin with no expression that respects the precedence of operators as the manual lists it; otherwise that expression is the only one, and unless the code, the constants or the registers reach their limits, running its code returns in every world the value that the manual gives it |
| Returns.SenseValue | lua-5.1.5/src/lparser.c:828-852 | the expression that is compiled has the value that the manual gives the tree |
| BoolLaws.NotValue | lua-5.1.5/src/lvm.c:509-513 | not is true exactly of nil and false |
| BoolLaws.AndOrValue | lua-5.1.5/src/lcode.c:737-752 | and and or answer one of their operands, the second one only if nil or false, or anything else, as the first does not decide |
| BoolLaws.Exchanged | lua-5.1.5/src/lcode.c:673-686 | a > b is b < a, a >= b is b <= a, and a ~= b is not (a == b) |
| BoolLaws.OrAndCode | lua-5.1.5/src/lvm.c:406-585 | the machine on the code of a or b and c, with TESTSET, JMP, MOVE and RETURN |
| BoolLaws.LessCode | lua-5.1.5/src/lvm.c:406-585 | the machine on the code of a < b, with LT and the two LOADBOOL |
| BoolLaws.UnlessEqualCode | lua-5.1.5/src/lvm.c:406-585 | the machine on a comparison with a constant followed by a test |
| BoolLaws.LoadsCode | lua-5.1.5/src/lvm.c:406-585 | the machine on LOADNIL, LOADK, TEST and NOT |
| CodeGen.FuncState.Expr | lua-5.1.5/src/lparser.c:828-852 | the code emitted for an expression means that expression, its pending jumps are new and on its lists, and the code before it keeps its meaning |
| CodeGen.RegisterHolds | lua-5.1.5/src/lcode.c:390-411 | code with this meaning falls through with the value in its register and every register below unchanged, or faults exactly if there is no value |
| BoolCode.PatchRun | lua-5.1.5/src/lcode.c:150-175 | patching a set of pending jumps moves every run on from where it stopped at one of them and changes no other run |
| BoolMeaning.ExecuteIsRun | lua-5.1.5/src/lvm.c:406-585 | with no jump pending the machine on instructions and the machine on the code read as actions agree |
| BoolMeaning.ListConcat | lua-5.1.5/src/lcode.c:185-196 | linking the end of one patch list to the head of another makes the list of the members of both |
| BoolMeaning.PatchActs | lua-5.1.5/src/lcode.c:150-160 | patchlistaux retargets exactly the members of its list |
| BoolMeaning.DischargeActs | lua-5.1.5/src/lcode.c:163-166 | discharging the jumps that wait for the current position changes no action |
| BoolMeaning.NilMerge | lua-5.1.5/src/lcode.c:35-56 | widening a LOADNIL that no jump skips stores the same nil |
| BoolMeaning.StuckAlone | lua-5.1.5/src/lcode.c:35-56 | code whose jumps stay inside gets stuck with more code only if it does on its own |
| BoolMeaning.StoresMeans | lua-5.1.5/src/lcode.c:343-379 | code that stores the delivered value in a register means the same expression in that register |
| BoolMeaning.FinalMeans | lua-5.1.5/src/lcode.c:390-411 | after the two loads of booleans and the patches the code means the same expression in the register, on every way to the end |
| BoolMeaning.FinalKeeps | lua-5.1.5/src/lcode.c:390-411 | the jumps and tests of everything else are kept |
| BoolMeaning.FinalOrder | lua-5.1.5/src/lcode.c:390-411 | no jump leads past the end |
| BoolMeaning.FinalExit | lua-5.1.5/src/lcode.c:398-407 | a patched jump arrives at the end with the value it carries, or with the boolean of its list |
| BoolTests.AndMeans | lua-5.1.5/src/lcode.c:737-745 | joining the false exits of a to those of b means a and b |
| BoolTests.OrMeans | lua-5.1.5/src/lcode.c:746-752 | joining the true exits of a to those of b means a or b |
| BoolTests.NotMeans | lua-5.1.5/src/lcode.c:586-618 | negating the value and exchanging the lists means not e |
| BoolTests.NotPending | lua-5.1.5/src/lcode.c:597-600 | inverting a pending comparison means not e |
| BoolTests.ParenMeans | lua-5.1.5/src/lparser.c:670-677 | code that means e means the expression in parentheses |
| BoolTests.CompareMeans | lua-5.1.5/src/lcode.c:673-686 | the test of the two operands means the comparison, with > and >= exchanged |
| BoolTests.JumpForks | lua-5.1.5/src/lcode.c:524-536 | the new jump leaves exactly when the truth of the value is as asked, carrying the value |
| BoolTests.NotForks | lua-5.1.5/src/lcode.c:525-531 | the same when a NOT was dropped and its operand is tested |
| BoolTests.FlippedForks | lua-5.1.5/src/lcode.c:516-521 | an inverted comparison jumps exactly when it is false |
| BoolTests.ForksPatched | lua-5.1.5/src/lcode.c:179-182 | patching one list to here lets the values of its truth fall through as well |
| BoolTests.ExitInRange | lua-5.1.5/src/lcode.c:100-106 | a run leaves only at a jump that is pending |
| CodeGen.FuncState.Concat | lua-5.1.5/src/lcode.c:185-196 | the first list becomes the list of the members of both, in order, and no other instruction changes |
| CodeGen.FuncState.NeedValue | lua-5.1.5/src/lcode.c:122-128 | whether some jump of the list does not carry its value |
| CodeGen.FuncState.PatchTestReg | lua-5.1.5/src/lcode.c:131-141 | a TESTSET gets its register or becomes a TEST, and nothing else changes |
| CodeGen.FuncState.PatchListAux | lua-5.1.5/src/lcode.c:150-160 | exactly the members of the list are retargeted, those that carry a value to one place and the others to the other |
| CodeGen.FuncState.Append | lua-5.1.5/src/lcode.c:789-801 | the jumps that wait for this position are written down before the instruction |
| CodeGen.FuncState.Jump | lua-5.1.5/src/lcode.c:59-66 | the new jump heads a list that has taken over the jumps waiting for its position |
| CodeGen.FuncState.CondJump | lua-5.1.5/src/lcode.c:74-77 | a test and a jump that is a list of its own |
| CodeGen.FuncState.PatchToHere | lua-5.1.5/src/lcode.c:179-182 | the jumps of the list wait for the current position, and no other jump changes |
| CodeGen.FuncState.CodeNil | lua-5.1.5/src/lcode.c:35-56 | the n registers are nil afterwards, whether an instruction was added, merged or left out at the start of the function |
| CodeGen.FuncState.AddK | lua-5.1.5/src/lcode.c:229-247 | an index under which the constant is found; no constant is lost |
| CodeGen.FuncState.Discharge2Reg | lua-5.1.5/src/lcode.c:343-379 | the value, but not that of pending jumps, is in the register |
| CodeGen.FuncState.PatchExp | lua-5.1.5/src/lcode.c:390-411 | the lists are patched so that the value is in the register on every way, and the lists are empty |
| CodeGen.FuncState.Exp2Reg | lua-5.1.5/src/lcode.c:390-411 | the code means the same expression in register reg, with no jump pending for it |
| CodeGen.FuncState.Exp2NextReg | lua-5.1.5/src/lcode.c:414-419 | the same in the next free register |
| CodeGen.FuncState.Exp2AnyReg | lua-5.1.5/src/lcode.c:422-433 | the same in some register |
| CodeGen.FuncState.Exp2Val | lua-5.1.5/src/lcode.c:436-441 | no jump is left pending |
| CodeGen.FuncState.Exp2RK | lua-5.1.5/src/lcode.c:444-469 | an operand that denotes the value, a register or a constant in range |
| CodeGen.FuncState.InvertJump | lua-5.1.5/src/lcode.c:516-521 | the comparison before the jump is negated and nothing else changes |
| CodeGen.FuncState.JumpOnCond | lua-5.1.5/src/lcode.c:524-536 | the code forks on the truth of the expression, the new jump being a list of its own |
| CodeGen.FuncState.GoIfTrue | lua-5.1.5/src/lcode.c:539-560 | the code goes on when the expression is true and leaves by its false list otherwise |
| CodeGen.FuncState.GoIfFalse | lua-5.1.5/src/lcode.c:563-583 | the code goes on when the expression is false and leaves by its true list otherwise |
| CodeGen.FuncState.CodeNot | lua-5.1.5/src/lcode.c:586-618 | the code means the negation, without a jump that carries a value |
| CodeGen.FuncState.ParenExpr | lua-5.1.5/src/lparser.c:670-677 | an expression in parentheses has its value and no pending jumps |
| CodeGen.FuncState.CodeComp | lua-5.1.5/src/lcode.c:673-686 | the code means the comparison, as a pending jump |
| CodeGen.FuncState.PosfixAnd | lua-5.1.5/src/lcode.c:737-745 | the code means a and b, the pending jumps being those of both |
| CodeGen.FuncState.PosfixOr | lua-5.1.5/src/lcode.c:746-752 | the code means a or b, the pending jumps being those of both |
| CodeGen.FuncState.FirstOperand | lua-5.1.5/src/lcode.c:710-734 | the first operand is ready as a register or constant before the second is compiled |
| Syntax.SubExact | lua-5.1.5/src/lparser.c:809-852 | subexpr reads a tree from tokens if and only if the tokens begin with the tree written flat, the tree respects the left and right priorities above the limit, its nesting fits, and what follows belongs to no operand at its right end |
| Syntax.Unambiguous | lua-5.1.5/src/lparser.c:809-822 | no sequence of tokens has two trees that respect the priorities |
| Syntax.Groups | lua-5.1.5/src/lparser.c:809-820 | for any two binary operators in a row: the second takes the middle operand exactly if its left priority is above the right priority of the first |
| Syntax.SubSound | lua-5.1.5/src/lparser.c:828-853 | every tree that is read respects the priorities and stops where it must |
| Syntax.SubComplete | lua-5.1.5/src/lparser.c:828-853 | every tree that respects the priorities is read, whatever follows that stops it |
| Subexprs.LexState.Subexpr | lua-5.1.5/src/lparser.c:828-853 | the loop and its nested calls read what the grammar function says, and the nesting count is restored |
| Subexprs.LexState.Expr | lua-5.1.5/src/lparser.c:856-858 | an expression is read exactly if the tokens begin with a tree that respects the precedence of operators, and then that tree, up to the token behind it |
| Precedence.ReadExact | lua-5.1.5/src/lparser.c:809-852 | with limit 0 a tree is read if and only if the tokens begin with it, wherever two operators compete for an operand it goes to the one that the manual lists as higher, or to the right one for .. and ^, and nothing behind the tree could belong to it |
| Precedence.OneTree | lua-5.1.5/src/lparser.c:809-852 | no tokens have two trees that respect that order |
| Precedence.TwoBinary | lua-5.1.5/src/lparser.c:809-820 | x p y q z for any two binary operators: or, then and, the comparisons, .., + and -, *, / and %, ^; equal ones group to the left but .. and ^ |
| Precedence.UnaryFirst | lua-5.1.5/src/lparser.c:822-852 | a unary operator before x q y: only ^ takes x from it |
| Precedence.UnarySecond | lua-5.1.5/src/lparser.c:822-852 | a unary operator behind a binary one takes its operand |
| Precedence.TableIs | lua-5.1.5/src/lparser.c:809-822 | the numbers of the priority table say what the manual lists |
| Precedence.GroupedIs | lua-5.1.5/src/lparser.c:809-852 | the trees that respect the priorities above a limit are those that respect the order and have only operators above the limit on their left edge |
| Subexprs.LexState.Head | lua-5.1.5/src/lparser.c:727-775 | a unary operator with its operand, a literal, or a primary expression with its suffixes |
| Checker.RunSafe | lua-5.1.5/src/ldebug.c:317-475 | in code that passes the check and whose LOADBOOL has operands 0 and 1 only, every position a run from 0 fetches is in the code and starts an instruction |
| Checker.RunsExact | lua-5.1.5/src/lvm.c:415-419 | for every checked prototype: runs stay on instructions if and only if each LOADBOOL with an operand above 1 that a run comes to skips a whole instruction |
| Checker.StepsExact | lua-5.1.5/src/ldebug.c:374-381 | the same for single steps, as a condition on the code alone |
| Checker.SkipExact | lua-5.1.5/src/ldebug.c:374-381 | without the guard the fetch after such a LOADBOOL is past the code or on an operand |
| Checker.UncheckedExample | lua-5.1.5/src/ldebug.c:374-381 | LOADBOOL 0 0 2 before a RETURN passes the check and skips past the end |
| Checker.StepSafe | lua-5.1.5/src/lvm.c:377-765 | one step from an instruction of checked code leads to an instruction of it |
| Checker.ParityTest | lua-5.1.5/src/ldebug.c:348-360 | the backward scan decides exactly whether a jump target starts an instruction |
| Checker.CheckCode | lua-5.1.5/src/ldebug.c:484-486 | accepts exactly the prototypes that satisfy the preliminary checks and all checks of each of their instructions |
| Checker.Symbexec | lua-5.1.5/src/ldebug.c:317-475 | a full check accepts exactly the prototypes that are in order, and then does not return 0; asked for a register, the instruction returned is the last one on the path of the walk that changes it, or the final one if none does |
| Checker.CheckSwitch | lua-5.1.5/src/ldebug.c:373-472 | the main switch, case by case, decides the declarative condition |
| Checker.CheckOpenOp | lua-5.1.5/src/ldebug.c:290-301 | whether the instruction after an open call is one that takes open results |
| Checker.CheckInstr | lua-5.1.5/src/ldebug.c:317-472 | all checks of one instruction together decide the declarative condition |
| Checker.CheckOperands | lua-5.1.5/src/ldebug.c:330-365 | the checks of the operands decide the declarative condition |
| Checker.CheckCaptures | lua-5.1.5/src/ldebug.c:450-462 | the pseudo-instructions after a CLOSURE |
| Checker.CountSetlists | lua-5.1.5/src/ldebug.c:354-357 | the length of the run of words that look like long SETLISTs |
| Operands.RegistersSafe | lua-5.1.5/src/lvm.c:406-765 | in checked code every register that an instruction reads or writes is in the frame, but for the call slots of a generic for, two at most of which are right behind it |
| Operands.ConstantsSafe | lua-5.1.5/src/lvm.c:406-765 | every constant of an instruction of checked code exists, and the name of a global is a string |
| Operands.UpvaluesSafe | lua-5.1.5/src/lvm.c:406-765 | so do the upvalues, of captures too, and the nested prototype |
| Operands.WordsSafe | lua-5.1.5/src/lvm.c:406-765 | so do the words that an instruction reads behind it: the jump of a test, the count of a SETLIST, the captures of a CLOSURE, each of its kind |
| Operands.FrameExact | lua-5.1.5/src/lvm.c:681-696 | all registers are in the frame if and only if every TFORLOOP has room for its three call slots |
| Operands.FrameExample | lua-5.1.5/src/lvm.c:681-696 | TFORLOOP 0 1 in a prototype with four registers passes the check and uses register 5 |
| Operands.RunOperands | lua-5.1.5/src/lvm.c:377-765 | the same along every run of checked code, as far as RunSafe goes |
| Operands.InstrExact | lua-5.1.5/src/ldebug.c:317-472 | the checks of an instruction hold exactly if its unused operands are 0, what the machine uses is there, and what comes before and after it is as the machine needs it |
| Operands.CodeExact | lua-5.1.5/src/ldebug.c:277-475 | a prototype passes the check exactly if its sizes are in order and every instruction is so |
| Operands.ChangesExact | lua-5.1.5/src/lopcodes.c:61-102 | what the tracing takes for a change is what the machine may write, with the exceptions of LOADNIL, CONCAT, FORLOOP, FORPREP, VARARG and TEST |
| Operands.FieldsOf | lua-5.1.5/src/lopcodes.h:34-111 | the fields of an instruction word are read from their bits |
| Matcher.MatchState.Match | lua-5.1.5/src/lstrlib.c:365-440 | a match is the promised way, the first in the order of repetitions among all ways; NULL is returned only if there is no way, with all captures as before; an error only for a malformed pattern |
| Matcher.MatchState.Find | lua-5.1.5/src/lstrlib.c:516-535 | the leftmost place from init on where the pattern matches, with its promised way, or none at all |
| Searching.StrFindAux | lua-5.1.5/src/lstrlib.c:495-535 | a search without plain gives the leftmost promised match also where the plain search is made instead, unless the pattern has a ) or a zero, and makes it exactly if each of the nine special characters has a zero before it; a plain search gives the first place where the text stands |
| Searching.SpecialsAre | lua-5.1.5/src/lstrlib.c:495-535 | the test for special characters looks for each of the nine, up to the first zero |
| Searching.PlainExact | lua-5.1.5/src/lstrlib.c:495-535 | the plain search stands for the search with the pattern, for every text, exactly if the pattern without special characters has neither a ) nor a zero |
| Searching.LiteralOnly | lua-5.1.5/src/lstrlib.c:495-535 | for every other such pattern, a text on which the two answers differ |
| Searching.MemFind | lua-5.1.5/src/lstrlib.c:444-463 | the first place where the text stands, or none |
| Searching.PlainPrefix | lua-5.1.5/src/lstrlib.c:365-440 | characters that are plain match themselves |
| Matcher.MatchState.MaxExpand | lua-5.1.5/src/lstrlib.c:301-313 | the largest number of repetitions that lets the rest match, or no number does |
| Matcher.MatchState.MinExpand | lua-5.1.5/src/lstrlib.c:316-326 | the smallest number of repetitions that lets the rest match, or no number does |
| Matcher.MatchState.StartCapture | lua-5.1.5/src/lstrlib.c:329-340 | the rest is matched with the capture open, and on failure the level is as before |
| Matcher.MatchState.EndCapture | lua-5.1.5/src/lstrlib.c:343-351 | the rest is matched with the last open capture closed, and on failure it is open again |
| Matcher.MatchState.MatchBracket | lua-5.1.5/src/lstrlib.c:245-265 | membership in the set as its items define it |
| Matcher.MatchState.SingleMatch | lua-5.1.5/src/lstrlib.c:268-275 | whether the class at p takes the character |
| Matcher.MatchState.MatchBalance | lua-5.1.5/src/lstrlib.c:281-298 | the end of the balanced text |
| Matcher.MatchState.ClassEndAt | lua-5.1.5/src/lstrlib.c:202-223 | the end of the class, or an error for a malformed one |
| Matcher.MatchState.CaptureToClose | lua-5.1.5/src/lstrlib.c:194-199 | the last open capture, or none if all are closed |
| Patterns.BestMatches | lua-5.1.5/src/lstrlib.c:301-351 | the promised way is a way of matching |
| Patterns.BestUnique | lua-5.1.5/src/lstrlib.c:301-351 | there is only one promised way |
| Patterns.RepeatsUsed | lua-5.1.5/src/lstrlib.c:301-335 | the promised way gives its first item one character, or the largest, or the smallest number that lets the rest match |
| Patterns.NoRepeats | lua-5.1.5/src/lstrlib.c:301-335 | if no number of repetitions lets the rest match there is no way |
| Patterns.FixedStep | lua-5.1.5/src/lstrlib.c:338-363 | for captures, balances, frontiers and back references there is a way exactly if there is one behind the item |
| PatternLaws.LetterClass | lua-5.1.5/src/lstrlib.c:226-242 | for each of the letters a, c, d, l, p, s, u, w and x: % with the letter takes exactly the characters of its class, and with the upper-case letter exactly the others |
| PatternLaws.ZeroClass | lua-5.1.5/src/lstrlib.c:238-241 | %z takes the zero character only, and %Z any other |
| PatternLaws.EscapedCharacter | lua-5.1.5/src/lstrlib.c:239-271 | % before any other character takes that character only, and . takes all |
| PatternLaws.Sets | lua-5.1.5/src/lstrlib.c:245-265 | [set] takes exactly the characters listed, and [^set] the others |
| PatternLaws.Range | lua-5.1.5/src/lstrlib.c:257-261 | [a-b] takes exactly the characters from a to b |
| PatternLaws.ClassInSet | lua-5.1.5/src/lstrlib.c:252-256 | a class in a set takes its characters |
| PatternLaws.Repetitions | lua-5.1.5/src/lstrlib.c:414-440 | a character with * takes all its repetitions, with + all and at least one, with - as few as possible, with ? one if there is one |
| PatternLaws.EndAnchored | lua-5.1.5/src/lstrlib.c:409-413 | $ at the end of a pattern asks for the end of the text |
| PatternLaws.StartAnchored | lua-5.1.5/src/lstrlib.c:516-535 | ^ at the start of a pattern asks for a match at init |
| PatternLaws.Captures | lua-5.1.5/src/lstrlib.c:329-376 | captures are numbered by their left parentheses and hold what they enclose, () the position |
| PatternLaws.BackReferences | lua-5.1.5/src/lstrlib.c:354-362 | (.)%1 matches a character that is repeated |
| PatternLaws.Balances | lua-5.1.5/src/lstrlib.c:281-298 | %bxy ends at the first place where as many y as x have been read |
| PatternLaws.Frontiers | lua-5.1.5/src/lstrlib.c:384-395 | %f[set] asks for a place where a character outside the set is followed by one of it |
| PatternLaws.BadPatterns | lua-5.1.5/src/lstrlib.c:186-223 | the patterns that are errors: % at the end, brackets that do not end, a ) or a reference without a closed capture, %b and %f without what they need |
| PatternLaws.CaptureLimit | lua-5.1.5/src/lstrlib.c:329-340 | a pattern may have 32 captures and no more |
| Quoting.QuotedReads | lua-5.1.5/src/lstrlib.c:696-723 | reading what %q wrote gives back any string of bytes and stops right behind it, unless it holds more line breaks than a chunk may have lines |
| Quoting.AddQuoted | lua-5.1.5/src/lstrlib.c:696-723 | the quoted form for every string of bytes |
| Quoting.LexState.ReadString | lua-5.1.5/src/llex.c:292-345 | for every input the literal, the rest of the input and the line number, or the error, that the grammar of literals gives |
| Quoting.LexState.ReadEscaped | lua-5.1.5/src/llex.c:301-337 | the same for one escape sequence |
| Quoting.LexState.ReadDecimal | lua-5.1.5/src/llex.c:318-330 | at most three digits and their value |
| Quoting.LexState.IncLineNumber | lua-5.1.5/src/llex.c:129-137 | two different line-break characters are one break |
| Quoting.EscapedReads | lua-5.1.5/src/lstrlib.c:696-723 | each character as quoted reads back as itself |
| QuotingLaws.QuotedOne | lua-5.1.5/src/lstrlib.c:696-723 | the bytes written for each character |
| QuotingLaws.QuotedJoin | lua-5.1.5/src/lstrlib.c:696-723 | what is written for a character does not depend on the others |
| QuotingLaws.ReadOne | lua-5.1.5/src/llex.c:292-341 | the end of a literal, a line break in it, and any other byte |
| QuotingLaws.ReadEscapedOne | lua-5.1.5/src/llex.c:303-319 | the values of the escape sequences a, b, f, n, r, t and v, of a line break, and of any other character |
| QuotingLaws.ReadBreak | lua-5.1.5/src/llex.c:314-315 | the two characters of one line break |
| QuotingLaws.ReadDigits | lua-5.1.5/src/llex.c:317-333 | one to three digits are the byte of that number, and an error above 255 |
| Sorting.AuxSort | lua-5.1.5/src/ltablib.c:193-254 | for every strict weak order: sorted, a permutation of the same elements, nothing outside the range touched, and nested calls at most the binary logarithm of the length deep |
| Sorting.Divide | lua-5.1.5/src/ltablib.c:219-237 | the pivot ends between elements not above and not below it, and neither scan can leave the range, so no error is raised |
| Sorting.SortThree | lua-5.1.5/src/ltablib.c:196-214 | the three elements are in order and the rest is only rearranged |
| Sorting.Exchange | lua-5.1.5/src/ltablib.c:173-176 | two elements exchange their places |
| Sorting.PartSorted | lua-5.1.5/src/ltablib.c:238-249 | sorting the smaller part leaves the larger one as the only part out of order |
| Sorting.WindowRearranged | lua-5.1.5/src/ltablib.c:238-249 | rearranging the part that is left keeps the order around it |
| Sorting.DepthStep | lua-5.1.5/src/ltablib.c:240-248 | the part of a nested call has at most half of the elements |
| References.RefTable.Run | lua-5.1.5/src/lauxlib.c:481-501 | over any run of ref and unref: live references are distinct and each stands for the value it was made for |
| References.RefTable.Ref | lua-5.1.5/src/lauxlib.c:481-501 | a reference that was not live, from the free list or behind the last slot, now stands for the value; nil has its own |
| References.RefTable.Unref | lua-5.1.5/src/lauxlib.c:504-512 | negative references do nothing; otherwise the slot heads the free list and the references in use keep their values, for every argument but two kinds: after 0 or a slot that is free already no list of slots is threaded through the table any more |
| References.ChainCircle | lua-5.1.5/src/lauxlib.c:504-512 | giving back a slot that is free, or 0, makes the chain of free slots run in a circle |
| References.ChainPopped | lua-5.1.5/src/lauxlib.c:490-496 | taking the first free slot leaves the list of the others |
| References.ChainPushed | lua-5.1.5/src/lauxlib.c:504-512 | putting a slot in front extends the list by it |
| References.RefTable.Get | lua-5.1.5/src/lauxlib.c:481-501 | a live reference reads its value |
| ObjectIds.Translator.Run | example/Assets/unitylua/ObjectTranslator.cs:530-569 | over any interleaving of pushes, cleared weak entries and late finalizers the two maps are inverse, and every userdata that is left resolves to the object it was pushed for |
| ObjectIds.Translator.PushObject | example/Assets/unitylua/ObjectTranslator.cs:530-569 | the id left on the stack resolves to the object; an id whose weak entry was cleared is replaced by a new one |
| ObjectIds.Translator.Finalize | example/Assets/unitylua/ObjectTranslator.cs:640-653 | a late finalizer removes at most the entry of its own id, never the newer one of the same object |
| ObjectIds.Translator.Clear | example/Assets/unitylua/ObjectTranslator.cs:547-552 | clearing a weak entry keeps the maps inverse while its finalizer is pending |
| ObjectIds.Translator.CollectId | example/Assets/unitylua/ObjectTranslator.cs:640-653 | a missing id is ignored, a present one leaves both maps |
| ObjectIds.Translator.AddObject | example/Assets/unitylua/ObjectTranslator.cs:674-685 | a new id maps to the object and back |
| Upvalues.LuaState.Run | lua-5.1.5/src/lfunc.c:53-112 | over any run of captures, closings, writes and relocations of the stack: the open list strictly descends with one upvalue for a slot at most, the ring holds exactly the open upvalues, and the pointers always show the scopes that lexical scoping prescribes |
| Upvalues.RunReads | lua-5.1.5/src/lvm.c:427-456 | in every run an upvalue reads the last value written to its variable, while in scope, after moving and after closing |
| Upvalues.NextReads | lua-5.1.5/src/lfunc.c:96-112 | no operation but a write to its own variable changes what an upvalue reads; none stays open at or above a closed level |
| Upvalues.LuaState.FindUpval | lua-5.1.5/src/lfunc.c:53-79 | the one upvalue of the slot: an existing one without any change, or else a new one at its place in the list and at the head of the ring |
| Upvalues.LuaState.Close | lua-5.1.5/src/lfunc.c:96-112 | exactly the open upvalues at or above the level leave list and ring with the values of their slots |
| Upvalues.LuaState.UnlinkUpval | lua-5.1.5/src/lfunc.c:82-86 | the ring without that one upvalue |
| Upvalues.LuaState.InsertRing | lua-5.1.5/src/lfunc.c:70-74 | the ring with the new upvalue at its head |
| Upvalues.LuaState.InsertOpen | lua-5.1.5/src/lfunc.c:58-69 | the list stays strictly descending with the new upvalue |
| Upvalues.LuaState.ReallocStack | lua-5.1.5/src/ldo.c:141-149 | the values move to the new stack and every upvalue, frame pointer, top and base keeps its offset |
| Upvalues.LuaState.MoveOpen | lua-5.1.5/src/ldo.c:129-130 | every open upvalue is relocated once |
| Upvalues.LuaState.MoveCalls | lua-5.1.5/src/ldo.c:131-135 | every frame is relocated once |
| Upvalues.LuaState.Capture | lua-5.1.5/src/lvm.c:729-738 | a closure captures the variable of the scope |
| Upvalues.LuaState.CloseScope | lua-5.1.5/src/lvm.c:719-722 | closing a level sets exactly the variables from it on apart |
| Upvalues.LuaState.Relocate | lua-5.1.5/src/ldo.c:126-138 | relocation changes nothing that the program can see |
| Upvalues.LuaState.GetUpval | lua-5.1.5/src/lvm.c:427-431 | reads the variable |
| Upvalues.LuaState.SetUpval | lua-5.1.5/src/lvm.c:451-456 | writes the variable, and no other |
| Upvalues.LuaState.SharedAt | lua-5.1.5/src/lfunc.c:57-65 | a variable has an upvalue exactly if its address is on the open list |
| Chunks.RoundTrip | lua-5.1.5/src/lundump.c:195-209 | for every prototype tree, both values of strip and anything behind it: what was dumped loads as the tree with inherited sources, or without debug data, if and only if its lines are not negative, its code passes the checker and its depth fits |
| Chunks.RoundTripExact | lua-5.1.5/src/lundump.c:161-181 | a tree in order comes back as itself if and only if every function in it has a source and its depth fits |
| Chunks.ReloadedExact | lua-5.1.5/src/ldump.c:129-131 | the tree that comes back is the same exactly if no source is missing |
| Chunks.ReloadedTwice | lua-5.1.5/src/ldump.c:129-141 | a second round trip changes nothing more |
| Chunks.LoadableDepth | lua-5.1.5/src/lundump.c:161-164 | a tree whose lines and code are in order loads exactly up to the limit of nested calls, stripped or not |
| Chunks.KeptChecks | lua-5.1.5/src/ldump.c:111-127 | code that passes the checker passes it without its debug information |
| Chunks.RoundFunction | lua-5.1.5/src/lundump.c:161-181 | the same equivalence for a nested function, given the source of the enclosing one |
| Chunks.RoundString | lua-5.1.5/src/lundump.c:76-88 | every string reads back, and NULL is told from the empty string |
| Chunks.RoundConstants | lua-5.1.5/src/lundump.c:100-135 | every list of constants reads back |
| Chunks.RoundDebug | lua-5.1.5/src/lundump.c:137-159 | debug information reads back exactly if no position is negative |
| Chunks.OtherMachine | lua-5.1.5/src/lundump.c:183-190 | a chunk dumped on a machine with another byte order or size_t is refused |
| Chunks.Truncated | lua-5.1.5/src/lundump.c:48-52 | no proper beginning of a dumped chunk is accepted |
| Chunks.MoreFunction | lua-5.1.5/src/lundump.c:161-181 | input behind a function does not change how it is read |
| ChunkLaws.FourBytes | lua-5.1.5/src/ldump.c:44-52 | the bytes of a number in either order |
| ChunkLaws.VarargBits | lua-5.1.5/src/lobject.h:257-259 | which bit of is_vararg is HASARG, ISVARARG and NEEDSARG |
| ChunkLaws.StripsBare | lua-5.1.5/src/ldump.c:111-134 | to strip is to dump the tree without sources, line numbers and the names of variables, at every level |
| ChunkLaws.ExampleBytes | lua-5.1.5/src/ldump.c:129-164 | the bytes of a whole chunk, from the signature on |
| ChunkLaws.NestedBytes | lua-5.1.5/src/ldump.c:129-142 | the bytes of a nested function, whose source is left out |
| ChunkLaws.ConstantBytes | lua-5.1.5/src/ldump.c:79-105 | the bytes of a constant of each type |
| ChunkLaws.DebugBytes | lua-5.1.5/src/ldump.c:111-127 | the bytes of line numbers, local variables and names of upvalues |
| Dumping.DumpUndump | lua-5.1.5/src/ldump.c:153-164 | with any writer and any split of the output into pieces: the tree that loads is the one that was dumped or none, and it loads whenever the writer did not fail and the tree is loadable |
| Dumping.DumpState.Dump | lua-5.1.5/src/ldump.c:153-164 | a writer that never fails gets the whole chunk, and any other a beginning of it |
| Dumping.DumpState.DumpBlock | lua-5.1.5/src/ldump.c:29-37 | the writer is not called again once it has failed |
| Dumping.DumpState.DumpConstants | lua-5.1.5/src/ldump.c:80-109 | the constants and then the nested functions are written in order |
| Dumping.DumpState.DumpDebug | lua-5.1.5/src/ldump.c:111-127 | the debug data, or empty lists if stripped |
| Dumping.DumpState.DumpFunction | lua-5.1.5/src/ldump.c:129-141 | the source only if it differs from that of the enclosing function |
| Dumping.Zio.Read | lua-5.1.5/src/lzio.c:58-71 | the next bytes of the stream however the reader splits it, and the number of missing ones |
| Dumping.Zio.Lookahead | lua-5.1.5/src/lzio.c:35-45 | the next byte, which stays in the stream |
| Dumping.Zio.Fill | lua-5.1.5/src/lzio.c:21-32 | the first byte of the next piece, or the end |
| Dumping.LoadState.LoadFunction | lua-5.1.5/src/lundump.c:161-181 | agrees with the format for every input, errors included, and restores the nesting count |
| Dumping.LoadState.Undump | lua-5.1.5/src/lundump.c:195-209 | agrees with the format for every input: the result depends on the bytes only |
| Dumping.LoadState.LoadString | lua-5.1.5/src/lundump.c:76-88 | agrees with the format for every input |
| Dumping.LoadState.LoadConstants | lua-5.1.5/src/lundump.c:100-135 | agrees with the format for every input |
| Dumping.LoadState.LoadDebug | lua-5.1.5/src/lundump.c:137-159 | agrees with the format for every input |

## Left out

- Weak tables, finalizers and the step size of the collector: they run user code or only tune. The clearing of stack slots above the top, the shrinking of stacks and of the buffer, and the dead keys of empty table entries are not part of the collector model; dead keys are part of the table model.
- The registry slot is not reassigned in a run of the collector, as the program cannot do so.
- Collector.GlobalState.PropagateMark: an object is traversed as a whole, so the order of marks within one object is not modelled.
- Collector.GlobalState.SweepStep: checkSizes is not part of the step; resizing the string table is an event of its own.
- Tables.Table.Set: nothing is said about the table after the error "table overflow", because the array part has grown by then.
- Tables.Table.New: array parts of at most MAXASIZE slots; on longer ones numusearray misses slots, and a table would have to be followed through a rehash within resize. Tables.RehashPlan says what goes wrong.
- Tables.Table.ResizeArray: the same limit; and a smaller array part is only given to it when its entries find room in the nodes, as its only caller, OP_SETLIST, makes the array part larger.
- Tables.Table.GetN: array parts are at most MAXASIZE long, as rehash makes them.
- Values of numbers, hashes and the order of node addresses: a hash is an arbitrary function of the value, and a number is a whole number, NaN, or another one.
- CodeGen.FuncState.Expr: takes the tree of an expression and does what subexpr does for it; Subexprs reads such trees from tokens, and Returns.CompileReturn puts the two together, first the tree and then its code, where the source does both at once. Arithmetic, concatenation, indexing, calls, upvalues, globals, constant folding and line information are not compiled.
- CodeGen.FuncState.CodeComp: takes the first operand as luaK_infix, which is always called before, left it; the second call of luaK_exp2RK on it, which returns at once, is not repeated.
- The virtual machine compares with two arbitrary relations that may fail; metamethods, hooks and coroutines are not part of this model. Registers are a map from numbers to values.
- Subexprs.LexState.Head: literals and suffixes are single tokens; tables, functions, calls and fields inside them are not parsed, and the error messages are not modelled.
- Checker.StepSafe: the machine is reduced to which position it fetches next, and Operands to what it uses there; the values are not modelled, nor what an instruction with operand B = 0 uses up to the top of the stack.
- Matcher.MatchState.Match: jumps to init are calls, so the depth of the C stack is not modelled. Character classes of the locale are a parameter. gmatch, gsub and the pushing of captures are left out.
- Sorting.AuxSort: sorts an array instead of the slots 1 to n of a table, with a comparison that is a strict weak order and does not fail.
- Quoting.LexState.ReadString: the buffer grows without limit; numerals, long strings and the rest of the lexer are left out.
- Chunks.RoundTrip: prototypes are values rather than objects filled in place; running out of memory for a large count is not modelled. Integers have 4 bytes, numbers 8, and size_t 4 or 8, in either byte order.
- Upvalues.LuaState.Run: every upvalue is alive; what luaF_findupval and luaF_close do with dead ones is in Collector. The open upvalues of other threads are kept in the ring but their stacks are not modelled.
- References.RefTable.Run: in a run, unref is given live or negative references only.
- ObjectIds.Translator.Run: registerTable gives an object a second id and is left out; equality of objects is stable.
- C# reflection, method wrappers, the Unity samples, the input, operating system and mathematical libraries, luac and the interpreter front end: wrappers around code that cannot be seen here.
- The packing of instruction words by the macros of lopcodes.h: the code generator works on decoded instructions and the checker on words read by division, whose fields Operands.FieldsOf gives.
