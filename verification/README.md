# Lua 5.3.0 core and uWebSockets frame parser: models and proofs

A Dafny model of the parts of the repository that are hard to get right, each
with the property it exists for. `dafny verify dfyconfig.toml` checks all of it.

Most cores come in two layers. A specification layer of functions and predicates
says what an operation does and carries the lemmas. An imperative layer, a class
with the fields the C code updates, carries one method for each C function, with
its loops, and is proved equal to the specification or directly against the
property.

- **Collector** (`Gc*.dfy`, `Ephemeron.dfy`): the incremental tri-colour
  collector of `lgc.c`, as a heap graph, colours and gray lists, and program steps
  with their barriers interleaved with `singlestep`. `GcModel` to `GcMutator` lead
  to safety over all runs (`GcSafety`) and exactness of a full collection
  (`GcFull`); `GcEffects` says what each program step does to the graph; `GcHeap` is
  the collector in place. `Ephemeron` is the part of the atomic phase that deals with
  weak tables.
- **Code generator** (`Expr*.dfy`, `LuaVm.dfy`, `CodeGen*.dfy`): `subexpr`, which is
  proved to read the grammar of the manual level by level, and the functions of
  `lcode.c` it drives, for expressions of locals, constants, `not`, `and`, `or` and
  comparisons. The specification keeps jump lists as sets;
  `CodeGenHeap` threads them through the jump offsets of the code, as the original
  does. `LuaVm` is the interpreter of the emitted instructions.
- **WebSocket frames** (`Ws*.dfy`): a one-pass decoder by RFC 6455 sections 5.2 and
  5.3, the resumable in-place parser, the sender, and what arrives of whole and of
  fragmented messages (`WsStream`).
- **Table** (`Table*.dfy`): the array part and the coalesced hash with relative
  `next` offsets and falling `lastfree`, from insertion to `rehash`, traversal and
  the length operator.
- **Patterns and packing** (`Match*.dfy`, `Pack*.dfy`): the backtracking matcher
  against a declarative meaning and order of preference, and `string.pack` against
  `string.unpack` and against the text of the format.
- **Supporting algorithms**: upvalues (`Upvalues.dfy`), precompiled chunks
  (`Dump*.dfy`, `UndumpHeap.dfy`), quicksort (`Sort.dfy`), the string table
  (`StringTable.dfy`) and UTF-8 (`Utf8.dfy`). `Powers.dfy` has the arithmetic.

## Model

| member | source | states |
|---|---|---|
| `GcSafety.RunSafe` | opt/lua/lgc.c:1027-1080 | in every state that any interleaving of program steps and collector steps can reach from a new state, each object reachable from the main thread, the registry or the basic metatables is allocated and not dead, and so is the closure cached in a reachable prototype |
| `GcSafety.StepKeeps` | opt/lua/lgc.c:145-206 | each single step, be it an allocation, a store with the barrier that store uses, a change of a stack slot without one, an assignment to an upvalue, an interning hit, a cached closure, a change of a root or a `singlestep`, keeps the invariant (tri-colour marking while `keepinvariant`, every gray object on a gray list, threads never black, only other-white objects dead), and does what it is for: the slot, cell, stack or root it names gets the value, a new object is there as given and on the stack of its thread, and every other slot, cell, root and object is as it was; a `singlestep` only drops objects |
| `GcEffects.OpEffect` | opt/lua/lvm.c:206-215 | what each step of the program does to the graph, slot by slot, and to the rest of the state: nothing but what its operation says |
| `GcSafety.StoredStays` | opt/lua/lgc.c:1027-1080 | over whole runs, however the collector interleaves: what was stored in a slot is there as long as the program stores nothing else in it and the object is there, and a freed object never comes back under its identity |
| `GcSafety.CellStays` | opt/lua/lgc.c:1027-1080 | over whole runs an upvalue keeps its value until it is assigned |
| `GcModel.SuccIs` | opt/lua/lgc.c:482-509 | an object refers to exactly what is in its slots and in the upvalues it holds |
| `GcSafety.RunKeeps` | opt/lua/lgc.c:1027-1080 | the invariant holds after every run of such steps, by induction on the run |
| `GcSafety.FreedWasUnreachable` | opt/lua/lgc.c:713-730 | an object that a collector step passes to `freeobj` was not reachable before the step, and by `DroppedSameReach` is not afterwards |
| `GcSafety.DroppedSameReach` | opt/lua/lgc.c:676-699 | freeing objects and leaving a graph without dangling references changes the reachability of no object, in either direction |
| `GcSafety.BarrierAssertions` | opt/lua/lgc.c:145-181 | the assertions of the barriers hold: neither object of a black-to-white store is dead, the store happens while the invariant is kept or in a sweep phase, and the black object is no thread |
| `GcSafety.InitialInv` | opt/lua/lgc.c:323-330 | the state of a new Lua state, one thread and no object in `allgc`, satisfies the invariant |
| `GcFull.FullGcExact` | opt/lua/lgc.c:1139-1155 | `luaC_fullgc` from any phase ends in the pause with exactly the reachable objects allocated, exactly those but the main thread in `allgc`, unchanged contents and all of them white |
| `GcFull.StepProgress` | opt/lua/lgc.c:1027-1080 | each `singlestep` enters a phase nearer to any wanted one, or leaves fewer white objects, or fewer list elements: the measure by which every loop over `singlestep` ends |
| `GcFull.CycleStep` | opt/lua/lgc.c:1027-1080 | within one cycle without program steps each step keeps the marks precise until the atomic phase, and after it the live objects are exactly those reachable at the start of the cycle |
| `GcCycle.SingleStepKeeps` | opt/lua/lgc.c:1027-1080 | `singlestep` keeps the invariant in each of the eight phases |
| `GcCycle.AtomicComplete` | opt/lua/lgc.c:965-1008 | after the marking of the atomic phase no gray object is left except threads on `grayagain`, every root is marked and every reference of a marked object is to a marked object |
| `GcCycle.FlipKeeps` | opt/lua/lgc.c:1005-1008 | after the flip of the current white exactly the unmarked objects are dead and no live object refers to a dead one |
| `GcCycle.SweepStepKeeps` | opt/lua/lgc.c:1011-1024 | a sweep step keeps the invariant and every live object, and moves on to the next list at the end of one |
| `GcPhase.ReachableIsLive` | opt/lua/lgc.h:87-119 | if no live object refers to a dead one and the roots are live, which the invariant includes, then no reachable object has the colour of the dead: `isdeadm` is false of it |
| `GcPhase.SweepListKeeps` | opt/lua/lgc.c:713-730 | sweeping any number of elements keeps the sweep invariant and every live object, and leaves the swept part of the list current-white |
| `GcPhase.SweepToLiveKeeps` | opt/lua/lgc.c:736-745 | the same for sweeping until an object survives |
| `GcPhase.EnterSweepKeeps` | opt/lua/lgc.c:940-947 | entering the sweep keeps the invariant, also when a marking in progress is abandoned |
| `GcMark.MarkAllGrown` | opt/lua/lgc.c:225-269 | marking a list of values keeps all old marks, puts each object it turns gray on the gray list once, and leaves none of the values white |
| `GcMark.MarkAllPrecise` | opt/lua/lgc.c:225-269 | marking reachable values marks reachable objects only |
| `GcInvariant.TriPropagateMark` | opt/lua/lgc.c:539-580 | visiting the first gray object keeps the tri-colour invariant: afterwards it is black with no white successor, or a thread that stays gray on top of `grayagain`; no mark is taken back |
| `GcInvariant.TriPropagateAll` | opt/lua/lgc.c:583-585 | in heaps without weak tables, visiting gray objects until none is left keeps the invariant, adds exactly the visited threads to `grayagain` and takes no mark back |
| `GcMutator.StoreForwardKeeps` | opt/lua/lgc.c:145-154 | a store (`GcEffects.SlotIs`) followed by the forward barrier keeps the invariant: the stored object is marked, or in a sweep phase the storing one is whitened |
| `GcMutator.StoreBackKeeps` | opt/lua/lgc.c:161-166 | a store to a table (`GcEffects.SlotIs`) followed by the backward barrier keeps the invariant: the table is gray again on `grayagain` |
| `GcMutator.SetUpvalKeeps` | opt/lua/lgc.c:175-181 | an assignment to an upvalue (`GcEffects.CellIs`) with its barrier keeps the invariant although many closures may hold the upvalue |
| `GcMutator.SetStackKeeps` | opt/lua/lgc.c:511-532 | any change of a thread's stack to live values keeps the invariant without a barrier |
| `GcMutator.NewObjKeeps` | opt/lua/lgc.c:198-206 | a new object with live contents keeps the invariant, is live, and no live object dies |
| `GcMutator.ResurrectKeeps` | opt/lua/lstring.c:128-135 | bringing a dead string back to life when it is interned again keeps the invariant and kills nothing |
| `GcMutator.CacheKeeps` | opt/lua/lvm.c:515-533 | remembering a new closure in its prototype, which happens only if the prototype is not black, keeps the invariant without a barrier |
| `GcHeap.GlobalState.ReallyMarkObject` | opt/lua/lgc.c:225-269 | the colours and the gray list after the loop over userdata chains are those of the marking function |
| `GcHeap.GlobalState.PropagateAllGray` | opt/lua/lgc.c:583-585 | the loop leaves the colours and lists of the recursive propagation |
| `GcHeap.GlobalState.Sweep` | opt/lua/lgc.c:713-730 | the loop that unlinks and frees dead elements and whitens the others leaves the state, and returns the position, of the sweep function |
| `GcHeap.GlobalState.SweepUntilLive` | opt/lua/lgc.c:736-745 | the same for sweeping until an object survives |
| `GcHeap.GlobalState.AtomicPhase` | opt/lua/lgc.c:1044-1052 | propagation, the atomic phase and the entry into the sweep, in place, are the composition of their specifications |
| `GcHeap.GlobalState.Step` | opt/lua/lgc.c:1027-1080 | one in-place `singlestep` changes the whole state as the step function does and keeps the invariant |
| `GcHeap.GlobalState.CollectAll` | opt/lua/lgc.c:1139-1155 | the in-place full collection leaves exactly the reachable objects, unchanged and white |
| `GcHeap.GlobalState.ForwardBarrier` | opt/lua/lgc.c:145-154 | in place, the forward barrier changes the whole state as the barrier of `GcMutator.StoreForwardKeeps` does |
| `GcHeap.GlobalState.BackwardBarrier` | opt/lua/lgc.c:161-166 | the same for the backward barrier of `GcMutator.StoreBackKeeps` |
| `GcHeap.GlobalState.StoreTable` | opt/lua/lvm.c:206-215 | slot `i` of the table is the value, appended if it is new, no other slot of any object changes, and the table is gray again if it was black and the value white |
| `GcHeap.GlobalState.StoreField` | opt/lua/lapi.c:828-842 | the same for a store with the forward barrier |
| `GcHeap.GlobalState.WriteUpvalue` | opt/lua/lvm.c:720-725 | the upvalue has the new value, no other one changes, and colours change as by the barrier of `GcMutator.SetUpvalKeeps` |
| `GcHeap.GlobalState.Link` | opt/lua/lgc.c:198-206 | the object is there as given under a fresh identity, current-white and first in `allgc`, and no other object changes: the allocation of `GcMutator.NewObjKeeps` |
| `GcHeap.GlobalState.InternHit` | opt/lua/lstring.c:128-135 | the same for the interned string of `GcMutator.ResurrectKeeps` |
| `GcHeap.GlobalState.RememberClosure` | opt/lua/lvm.c:515-533 | the same for the cached closure of `GcMutator.CacheKeeps` |
| `Ephemeron.Collector.TraverseEphemeron` | opt/lua/lgc.c:380-416 | a visit marks array slots, string keys and the values of marked keys, links the table where it belongs, marks nothing that some closed set is without (but strings that are weak values), and if it marked no object leaves the table satisfied |
| `Ephemeron.Collector.TraverseWeakValue` | opt/lua/lgc.c:347-368 | a visit marks all keys and links the table for clearing unless it has no array part and no value that may have to go; nothing else is marked but strings |
| `Ephemeron.Collector.TraverseWeak` | opt/lua/lgc.c:437-454 | any weak table has its metatable marked, and then is visited by its kind |
| `Ephemeron.Collector.PropagateAll` | opt/lua/lgc.c:583-585 | the gray list is emptied and every marked object is satisfied for good or waits on a list |
| `Ephemeron.Collector.ConvergeEphemerons` | opt/lua/lgc.c:588-603 | the do-while loop ends, and then the marked objects are closed under strong references and under "marked key implies marked value", and but for strings that are weak values nothing is marked that some closed set is without |
| `Ephemeron.Collector.ClearTables` | opt/lua/lgc.c:619-654 | each listed table loses exactly the entries whose key, or whose value, is an unmarked object other than a string |
| `Ephemeron.Collector.AtomicWeak` | opt/lua/lgc.c:983-1004 | from any state of the mark phase the live set is the least closed set with the roots, every weak table of it, of the three kinds, is swept whether listed or not, and nothing else changes; beyond the live set only strings are marked |
| `Ephemeron.Survivors` | opt/lua/lgc.c:619-654 | after the sweep a table of the closed set has exactly its entries with a key that is marked or never cleared, if keys are weak, and such a value, if values are; no surviving entry of a table with weak keys or values only has an unmarked key or value |
| `Ephemeron.LeastIsOne` | opt/lua/lgc.c:588-603 | the least closed set is unique, so the order in which tables are visited does not matter |
| `Ephemeron.FixpointIs` | opt/lua/lgc.c:347-454 | a set is closed exactly when it has whatever its objects keep alive: fields, metatables, strong keys and array parts, string keys, and the values whose key is alive or never cleared in tables with weak keys |
| `Ephemeron.SweptArrays` | opt/lua/lgc.c:619-654 | besides the entries of `Survivors` the sweep changes dead values in array parts of tables with weak values only; metatables and kinds stay, and so do all other objects |
| `CodeGenHeap.FuncState.CompileExpression` | opt/lua/lparser.c:1042-1074 | for the tokens of an expression of locals, constants, `not`, `and`, `or`, comparisons and parentheses, whatever follows them, the emitted code, run by the interpreter, gets from its entry to the instruction after it with the value that section 3.4 of the manual gives the tree which the grammar of section 3.4.8 derives from them (`ExprGrammar.Expression`, `CodeGenSyntax.Meaning`) in the first free register and every lower register unchanged; a syntax error is reported exactly when the grammar derives nothing, and no other error while the code is shorter than MAXARG_sBx, registers stay below 250 and constants within MAXARG_Ax; instructions, constants and registers used are bounded by the expression |
| `CodeGenHeap.FuncState.CompileAssignment` | opt/lua/lcode.c:591-615 | the same with the value in the register of a local variable, which alone changes |
| `CodeGenRoom.ExpressionBounded` | opt/lua/lcode.c:278-291 | an expression adds at most its cost in instructions (12 for a comparison, 4 for `and` and `or`, 3 for `not`, 5 at the end) and constants, occupies at most the registers it needs, and no error is raised unless a limit is exceeded |
| `CodeGenRoom.GenHolds` | opt/lua/lcode.c:287-306 | registers are a stack: an expression keeps at most the first free one, the first operand of a comparison keeps one while the second is compiled, and the highest used is bounded by the depth of comparisons |
| `CodeGenRoom.GenAdds` | opt/lua/lcode.c:97-104 | `fixjump` raises no error while the code is shorter than MAXARG_sBx: every jump on a list and every destination is in the code |
| `CodeGenSyntax.TokensBound` | opt/lua/lparser.c:1042-1069 | cost and registers are bounded by the number of tokens: 12 instructions, 2 constants and 1 register for each |
| `CodeGenHeap.FuncState.SubExpr` | opt/lua/lparser.c:1042-1069 | the loop that reads operators of higher priority, calling prefix, infix and posfix between recursive calls, emits the code of the tree that was read, with limit 0 that of the grammar (`ExprGrammar.ExpressionIs`), and leaves the rest of the tokens; it succeeds exactly if the tokens begin with an expression without other operators |
| `CodeGenExpr.GenOk` | opt/lua/lcode.c:840-932 | by induction on the expression: every run that arrives before the code leaves by the true list with a true value, by the false list with a false one, or arrives with the value where the descriptor says, with all registers of the surroundings unchanged |
| `CodeGenExpr.ExpressionRuns` | opt/lua/lcode.c:519-524 | after any earlier code, the interpreter itself reaches the instruction after the expression with its value in the next register and lower registers as they were; the run may begin at a LOADNIL that the expression extends |
| `CodeGenExpr.AssignmentRuns` | opt/lua/lcode.c:591-615 | the same for an assignment to a local variable |
| `CodeGenExpr.ConditionCompiles` | opt/lua/lcode.c:654-698 | code for a condition goes on exactly if the value has the wanted truth and otherwise leaves by the one remaining list, registers unchanged |
| `CodeGenClose.Exp2RegOk` | opt/lua/lcode.c:495-516 | `exp2reg` brings the value into the register on every path, whichever exits carry values and whichever need the LOADBOOL pair |
| `CodeGenValue.Discharge2RegOk` | opt/lua/lcode.c:444-484 | loading one descriptor emits code that puts its value into the register and changes no other |
| `CodeGenNil.CodeNilSem` | opt/lua/lcode.c:54-73 | a LOADNIL, merged into the previous one or not, sets exactly the wanted registers on every run that reaches the end |
| `CodeGenNot.CodeNotOk` | opt/lua/lcode.c:701-733 | after `codenot` the descriptor denotes the negated value, with exits exchanged and their values removed |
| `CodeGenCond.JumpOnCondOk` | opt/lua/lcode.c:639-651 | the emitted test jumps exactly if the value has the tested truth, also when a NOT just emitted is taken back |
| `CodeGenCond.GoIfOk` | opt/lua/lcode.c:654-698 | after `luaK_goiftrue` or `luaK_goiffalse` runs with that truth go on and all others have left by the remaining list |
| `CodeGenOperand.Exp2RKOk` | opt/lua/lcode.c:555-588 | an operand becomes a register or a constant index that denotes its value |
| `LuaVm.RunIsExec` | opt/lua/lvm.c:627-1000 | execution as the proofs follow it, with no pending jumps, is a finite run of the plain interpreter |
| `LuaVm.RunPatched` | opt/lua/lcode.c:167-177 | patching pending jumps changes a run only where it stopped at one of them: it goes on from the destination |
| `CodeGenLists.ChainUnique` | opt/lua/lcode.c:117-123 | following the links from a head gives one sequence only: a jump list is finite and never comes back to a jump |
| `CodeGenLists.ChainAppend` | opt/lua/lcode.c:215-226 | linking the last jump of one list to the head of another gives the concatenation of the two |
| `CodeGenLists.PatchImplements` | opt/lua/lcode.c:167-177 | code with links in its open jumps, patched along a list, is the link-free code patched at the members of the list |
| `CodeGenHeap.FuncState.Concat` | opt/lua/lcode.c:215-226 | the head and the links afterwards thread the jumps of the first list followed by those of the second; only one link changes |
| `CodeGenHeap.FuncState.PatchTestReg` | opt/lua/lcode.c:148-158 | a TESTSET gets its register, or becomes a TEST if none is wanted; anything else is refused unchanged |
| `CodeGenHeap.FuncState.PatchListAux` | opt/lua/lcode.c:167-177 | every jump of the list gets its destination, the value target behind a TESTSET and the default otherwise, and no other instruction changes |
| `CodeGenHeap.FuncState.DischargeJpc` | opt/lua/lcode.c:180-183 | all waiting jumps lead to the next instruction, none waits any more, nothing else changes |
| `CodeGenHeap.FuncState.Emit` | opt/lua/lcode.c:229-241 | one instruction is appended, and the jumps that waited land on it |
| `CodeGenHeap.FuncState.EmitNil` | opt/lua/lcode.c:54-73 | emits or merges as the specification does, using `lasttarget` |
| `CodeGenHeap.FuncState.AddConstant` | opt/lua/lcode.c:312-336 | an index at which the constant is stored is returned, reused if known; the table of constants only grows |
| `CodeGenHeap.FuncState.ToReg` | opt/lua/lcode.c:495-516 | code, lists and descriptor in memory, links included, follow the specification of `exp2reg` |
| `CodeGenHeap.FuncState.ToRK` | opt/lua/lcode.c:555-588 | the same for `luaK_exp2RK` |
| `CodeGenHeap.FuncState.JumpOn` | opt/lua/lcode.c:639-651 | the same for `jumponcond` |
| `CodeGenHeap.FuncState.TurnTrue` | opt/lua/lcode.c:654-675 | the same for `luaK_goiftrue` |
| `CodeGenHeap.FuncState.TurnFalse` | opt/lua/lcode.c:678-698 | the same for `luaK_goiffalse` |
| `CodeGenHeap.FuncState.Negate` | opt/lua/lcode.c:701-733 | the same for `codenot` |
| `CodeGenHeap.FuncState.EmitComparison` | opt/lua/lcode.c:824-837 | the same for `codecomp`, operands exchanged for `>` and `>=` |
| `ExprSyntax.SubExprIs` | opt/lua/lparser.c:1019-1069 | for all 21 binary and 4 unary operators: `subexpr` with a limit reads a tree exactly when its tokens come first, each operator has the operands that the priority table and associativity give it, all open operators bind tighter than the limit, and the next token does not go on with it |
| `ExprGrammar.ExpressionIs` | opt/lua/lparser.c:1019-1074 | `subexpr` with limit 0 reads a tree exactly when the grammar of the language derives it from the tokens read and no operator goes on: one level for `or`, `and`, comparisons, bitwise or, exclusive or and and, shifts, `..` (to the right), sums, products, unary operators and `^` (to the right, with a unary exponent), without any priority numbers |
| `CodeGenSyntax.LowerMeans` | opt/lua/lcode.c:840-932 | the expression the generator is proved for has the value that the manual gives the tree: `and` and `or` return one of their operands, `nil` and `false` are false, comparisons take their operands in order |
| `CodeGenSyntax.PlainRead` | opt/lua/lparser.c:1042-1069 | if the tokens of the expression that the grammar derives have no other operators and name active locals, then so does the tree; the tokens after them do not matter |
| `WsParser.WebSocketProtocol.Consume` | opt/uwebsocket/uWebSockets-0.14.8/src/WebSocketProtocol.h:329-369 | after each call, however the stream was cut, state, fragments handed over and the decision to close are those of one pass over all bytes received |
| `WsParser.WebSocketProtocol.ConsumeMessage` | opt/uwebsocket/uWebSockets-0.14.8/src/WebSocketProtocol.h:109-163 | one frame with a complete header is taken, refused or begun as the one-pass decoder does, unmasked over its own header |
| `WsParser.WebSocketProtocol.ConsumeContinuation` | opt/uwebsocket/uWebSockets-0.14.8/src/WebSocketProtocol.h:165-202 | the rest of a payload is unmasked in place by groups of four, the mask turned for the next bytes, and the frame ended when it is complete |
| `WsParser.WebSocketProtocol.ParseNext` | opt/uwebsocket/uWebSockets-0.14.8/src/WebSocketProtocol.h:336-365 | frames are taken until a header or a payload is incomplete or the connection is closed |
| `WsParser.WebSocketProtocol.EnterMessage` | opt/uwebsocket/uWebSockets-0.14.8/src/WebSocketProtocol.h:111-120 | a frame is entered or refused by its opcode as the specification says, with `opStack` between -1 and 1; for which frames that is so is `WsStream.LawfulFrame` and `WsStream.UnlawfulFrame` |
| `WsParser.WebSocketProtocol.SaveSpill` | opt/uwebsocket/uWebSockets-0.14.8/src/WebSocketProtocol.h:362-365 | the bytes of an incomplete header are kept for the next call |
| `WsParser.UnmaskImprecise` | opt/uwebsocket/uWebSockets-0.14.8/src/WebSocketProtocol.h:72-79 | whole groups of four are unmasked from an overlapping higher address; beyond the written groups the buffer is unchanged |
| `WsParser.UnmaskInplace` | opt/uwebsocket/uWebSockets-0.14.8/src/WebSocketProtocol.h:94-101 | the bytes up to the end of the last group are unmasked in place |
| `WsParser.RotateMask` | opt/uwebsocket/uWebSockets-0.14.8/src/WebSocketProtocol.h:86-92 | the mask is turned so that the next byte gets its key |
| `WsParser.SameBytesSameState` | opt/uwebsocket/uWebSockets-0.14.8/src/WebSocketProtocol.h:329-369 | two parsers with the same configuration that have received the same bytes, in whatever pieces, are in the same state and have handed over the same frames |
| `WsFrames.DecodeAppend` | opt/uwebsocket/uWebSockets-0.14.8/src/WebSocketProtocol.h:329-369 | what the first bytes led to, continued with the rest, is what one pass over all of them gives |
| `WsFrames.CutsDoNotMatter` | opt/uwebsocket/uWebSockets-0.14.8/src/WebSocketProtocol.h:329-369 | two ways of cutting the same bytes lead to the same frames and the same state |
| `WsFrames.MaskedTwice` | opt/uwebsocket/uWebSockets-0.14.8/src/WebSocketProtocol.h:72-79 | masking is its own inverse (RFC 6455 section 5.3) |
| `WsFormat.FormatMessage` | opt/uwebsocket/uWebSockets-0.14.8/src/WebSocketProtocol.h:279-327 | the buffer holds header, extended length, mask and masked payload of the message, laid out byte by byte as section 5.2 of RFC 6455 draws it, and its old contents behind |
| `WsFormat.MessageLaidOut` | opt/uwebsocket/uWebSockets-0.14.8/src/WebSocketProtocol.h:279-327 | fin bit and opcode, mask bit and seven bits of length, two or eight more bytes of it in network order, the key, and payload byte `i` combined with key byte `i % 4` |
| `WsStream.ReadMessage` | opt/uwebsocket/uWebSockets-0.14.8/src/WebSocketProtocol.h:279-327 | the receiver of a formatted message, for all three length encodings and both directions, gets its opcode and payload with fin set and goes on with whatever follows |
| `WsStream.ReadStream` | opt/uwebsocket/uWebSockets-0.14.8/src/WebSocketProtocol.h:279-327 | any messages sent one after the other arrive as they are |
| `WsStream.Delivered` | opt/uwebsocket/uWebSockets-0.14.8/src/WebSocketProtocol.h:329-369 | the parser that has received a stream of formatted messages in any pieces has handed over exactly those messages and waits for the next header |
| `WsStream.LawfulFrame` | opt/uwebsocket/uWebSockets-0.14.8/src/WebSocketProtocol.h:109-163 | a frame with no reserved bit, a known opcode and an acceptable length that is a continuation of a message under way, a message there is room for, or a whole short control message, is handed over with the opcode of its message and its fin bit; a final one ends its message |
| `WsStream.UnlawfulFrame` | opt/uwebsocket/uWebSockets-0.14.8/src/WebSocketProtocol.h:109-125 | every other frame closes the connection, and nothing of it is handed over |
| `WsStream.StrayContinuation` | opt/uwebsocket/uWebSockets-0.14.8/src/WebSocketProtocol.h:117-121 | so does a continuation with no message under way |
| `WsStream.ReadFragments` | opt/uwebsocket/uWebSockets-0.14.8/src/WebSocketProtocol.h:109-163 | messages cut into any fragments (opcode on the first, 0 on the others, fin on the last), with control messages before, between and after these, arrive as fragments with the opcode of their message and fin on the last only, the control messages where they were sent, and the connection is as before |
| `WsStream.DeliveredFragments` | opt/uwebsocket/uWebSockets-0.14.8/src/WebSocketProtocol.h:329-369 | the parser that has received such messages in any pieces has handed over exactly that and waits for the next message |
| `WsStream.Interleaved` | opt/uwebsocket/uWebSockets-0.14.8/src/WebSocketProtocol.h:111-116 | a data message inside another one closes the connection exactly when it is text and comes right after a fragment that was not the last |
| `WsStream.InterleavedPasses` | opt/uwebsocket/uWebSockets-0.14.8/src/WebSocketProtocol.h:111-116 | a binary message sent inside a text message arrives between the fragments of the text |
| `TableHeap.Build` | opt/lua/ltable.c:441-577 | after any sequence of assignments and array resizings looking a key up gives what was last assigned to it |
| `TableHeap.Table.Set` | opt/lua/ltable.c:572-577 | an assignment changes the value of its key only and keeps the structure; a nil key is refused and changes nothing |
| `TableHeap.Table.Get` | opt/lua/ltable.c:540-565 | the value found is that of the key in the abstract map |
| `TableHeap.Table.FindNode` | opt/lua/ltable.c:497-514 | following `next` from the main position finds the node of the key, and finds none only if there is none |
| `TableHeap.Table.NewKey` | opt/lua/ltable.c:441-491 | the new key gets a place, at its main position, behind a colliding node at home, or after moving one away, with a rehash first if no slot is free; every other key keeps its value |
| `TableHeap.Table.GetFreePos` | opt/lua/ltable.c:423-430 | the free slot found is unused and all slots from it on are used; without one the table has no room |
| `TableHeap.Table.Rehash` | opt/lua/ltable.c:378-394 | no value changes and the new key then fits without another rehash, so the recursion through `luaH_set` ends |
| `TableHeap.Table.Resize` | opt/lua/ltable.c:335-367 | both parts get their new sizes, every entry is inserted again without a rehash, and no value changes |
| `TableHeap.Table.NumUseArray` | opt/lua/ltable.c:258-281 | counts the values in the array part, in all and up to each power of two |
| `TableHeap.Table.NumUseHash` | opt/lua/ltable.c:284-298 | the same for the hash part |
| `TableModel.PutThereOk` | opt/lua/ltable.c:441-491 | using an empty main position keeps chains acyclic and disjoint, every key reachable from its main position and keys unique |
| `TableModel.PutBehindOk` | opt/lua/ltable.c:478-485 | chaining a free node behind a colliding node at home keeps them too |
| `TableModel.MovedOk` | opt/lua/ltable.c:464-477 | moving a colliding node that is not at home to a free slot keeps them too |
| `TableSizes.ComputeSizes` | opt/lua/ltable.c:225-244 | the result is the largest power of two more than half of whose slots would be in use, with the number of keys that go there |
| `TableSizes.CeilLog2` | opt/lua/lobject.c:58-73 | the least exponent whose power of two is not less than the argument |
| `TableCount.RoomForAll` | opt/lua/ltable.c:378-394 | with that size the hash part has room for every entry outside the array and for the new key |
| `TableWalk.Next` | opt/lua/ltable.c:193-210 | the entry returned is the first live one after that of the given key, and none is skipped |
| `TableWalk.Keys` | opt/lua/ltable.c:193-210 | a whole traversal meets every key that has a value, each once |
| `TableWalk.GetN` | opt/lua/ltable.c:622-638 | the result is a border: it is 0 or has a value, and the next index has none |
| `MatchHeap.MatchState.Match` | opt/lua/lstrlib.c:420-519 | the answer is the match the manual promises: at each item the longest repetition, with `-` the shortest, after which the rest of the pattern finds something (`MatchOrder.First`); NULL only if nothing is found, and an error only if the search meets one first; `matchdepth` is restored on every return, level and captures on every failure, and patterns under 200 characters are never too complex |
| `MatchHeap.MatchState.MaxExpand` | opt/lua/lstrlib.c:356-368 | the longest run is tried first, then shorter ones |
| `MatchHeap.MatchState.MinExpand` | opt/lua/lstrlib.c:371-381 | no repetition is tried first, then one more each time |
| `MatchHeap.MatchState.StartCapture` | opt/lua/lstrlib.c:384-395 | the rest is matched with the capture open, and a failure takes it back |
| `MatchHeap.MatchState.EndCapture` | opt/lua/lstrlib.c:398-406 | the innermost open capture is closed, and a failure opens it again |
| `MatchHeap.MatchState.MatchBalance` | opt/lua/lstrlib.c:336-353 | the end of the balanced stretch, or none |
| `MatchHeap.MatchState.MatchBracketClass` | opt/lua/lstrlib.c:297-317 | membership in the set, ranges and complements included |
| `MatchMeaning.ResultsAreDerivations` | opt/lua/lstrlib.c:420-519 | an end and captures are among the results exactly if the pattern derives them by the declarative meaning |
| `MatchMeaning.CountsAre` | opt/lua/lstrlib.c:487-511 | the repetition counts tried for `*`, `+`, `-` and `?` are exactly those allowed and possible |
| `MatchOrder.FirstIs` | opt/lua/lstrlib.c:356-519 | the first of the results is exactly the match or error that is reached when each item takes the preferred count of those allowed after which anything is found; no list and no order of counts is mentioned there |
| `MatchOrder.ItemOrder` | opt/lua/lstrlib.c:487-511 | the first result of an item comes from the greatest allowed count (the least with `-`) after which there is a result: all preferred counts have none |
| `MatchOrder.FirstIsOne` | opt/lua/lstrlib.c:420-519 | that order leaves no choice: match and captures are determined |
| `MatchOrder.NothingDerives` | opt/lua/lstrlib.c:420-519 | where the search finds nothing the pattern has no match at all |
| `MatchClasses.MatchClassIs` | opt/lua/lstrlib.c:277-294 | each class letter stands for its alphabet, written out, in upper case for the complement, and any other character for itself |
| `MatchClasses.SetIs` | opt/lua/lstrlib.c:253-317 | a set as one writes it, of characters, ranges and classes, with `^` or without, is read to its bracket and has exactly the characters of its elements, or all others |
| `MatchClasses.SetMatches` | opt/lua/lstrlib.c:320-333 | an item that is such a set matches one character of those |
| `MatchClasses.FrontierIs` | opt/lua/lstrlib.c:452-466 | `%f` with such a set matches between a character outside the set and one inside, with a zero before and after the subject |
| `MatchSearch.NoDepthFault` | opt/lua/lstrlib.c:420-424 | no result of any pattern is the depth fault: only the limit itself raises it |
| `MatchSearch.Find` | opt/lua/lstrlib.c:586-635 | the match found is the leftmost, and there the one the order of preference asks for; without one nothing is found at any start; an error is that of the pattern at the first start without a failure, or the depth limit of a pattern of 200 characters or more |
| `MatchSearch.LMemFind` | opt/lua/lstrlib.c:523-542 | the leftmost occurrence of a plain string, or none if there is none |
| `MatchSearch.GSub` | opt/lua/lstrlib.c:746-788 | the subject is cut into pieces that cover it once, each match the one the order of preference asks for at its place; nothing is skipped: a character is copied only where there is no match or an empty one has just been substituted, and the rest is left alone only after the wanted number of matches, after the one round of an anchored pattern, or at the end of the subject |
| `MatchSearch.SubstitutionIsOne` | opt/lua/lstrlib.c:768-782 | there is only one way to cut a subject so: the contract of `GSub` determines its result |
| `PackNumber.PackInt` | opt/lua/lstrlib.c:1144-1158 | the buffer holds the number in two's complement, cut or extended to 1 to 16 bytes, in the order asked for |
| `PackNumber.UnpackInt` | opt/lua/lstrlib.c:1296-1319 | the number meant by the bytes if 64 bits can hold it, an error otherwise |
| `PackNumber.SignedRoundTrip` | opt/lua/lstrlib.c:1296-1319 | a signed number that fits its size is read back as it was, for every size |
| `PackNumber.UnsignedRoundTrip` | opt/lua/lstrlib.c:1296-1319 | the same without sign |
| `PackFormat.RoundTrip` | opt/lua/lstrlib.c:1179-1383 | for every format and every argument list that `str_pack` accepts, `str_unpack` from position 1 gives back the arguments used and the packed length + 1, exactly when no zero-terminated argument is longer than 2^31 - 1 |
| `PackFormat.LongStringIsLost` | opt/lua/lstrlib.c:1368-1373 | a string of 2^31 bytes, packed by `z`, is not read back |
| `PackFormat.PackSizeIs` | opt/lua/lstrlib.c:1263-1285 | the size that `str_packsize` announces is the length of everything `str_pack` makes with the format |
| `PackLetters.OptionIs` | opt/lua/lstrlib.c:1060-1108 | `getoption` takes each letter for the kind and size of the manual's list, its numeral read to the end within the limits, and sets byte order and alignment so that they are those of the last such letter in the text before |
| `PackLetters.DetailsSay` | opt/lua/lstrlib.c:1117-1135 | kind, size, alignment (the size, that of the next option after `X`, limited by the last `!`, a power of two) and end of the option are what the text says |
| `PackMeaning.PackedItemIs` | opt/lua/lstrlib.c:1179-1260 | the bytes of one argument are those of its two's complement, its characters, its count and characters, or its characters and a zero, and there are none exactly if it does not fit |
| `PackMeaning.PackIs` | opt/lua/lstrlib.c:1179-1260 | for every format and argument list the bytes packed, if any, are exactly those that the text of the format calls for, field by field with least padding |
| `PackMeaning.UnpackIs` | opt/lua/lstrlib.c:1322-1383 | for every format, data and position the items read, if any, are exactly those that the text of the format finds there |
| `PackHeap.Format.GetDetails` | opt/lua/lstrlib.c:1117-1135 | kind, size and padding of the next option, with the format pointer and the settings moved on, as specified; and they are what the text of the format says there (`PackLetters.Says`), with the padding that brings it to a multiple of its alignment |
| `PackHeap.StrPack` | opt/lua/lstrlib.c:1179-1260 | the loop succeeds exactly when the format calls for bytes with these arguments, and writes those (`PackMeaning.Written`): byte `i` of an integer is `n / 256^i % 256`, the least significant first unless the last of `<`, `>`, `=` before the option is `>`; else the error of the specification |
| `PackHeap.StrUnpack` | opt/lua/lstrlib.c:1322-1383 | the loop succeeds exactly when the format finds items in the data at the position, and returns those and the position after them (`PackMeaning.Found`); else the error of the specification |
| `PackHeap.StrPackSize` | opt/lua/lstrlib.c:1263-1285 | the loop computes the announced size, which fits every packing |
| `PackHeap.PackThenUnpack` | opt/lua/lstrlib.c:1179-1383 | packing and then unpacking, as calls, gives the arguments used and the length + 1 when no zero-terminated argument is longer than 2^31 - 1 |
| `Upvalues.LuaState.FindUpval` | opt/lua/lfunc.c:57-80 | the upvalue returned has the variable of the slot, an existing one if there is one; the open list stays strictly descending with one upvalue for a slot |
| `Upvalues.LuaState.Close` | opt/lua/lfunc.c:83-96 | no variable changes its value, no upvalue its variable, no slot below the level its variable; afterwards no upvalue has to do with a slot at or above the level; only upvalues without references are freed |
| `Upvalues.LuaState.ReallocStack` | opt/lua/ldo.c:153-183 | slots keep their variables and upvalues theirs when the stack moves or grows; new slots are nil |
| `Upvalues.LuaState.PushClosure` | opt/lua/lvm.c:515-533 | each upvalue of the new closure has the variable its description names, that of a register of the enclosing function or that of one of its upvalues, and reference counts are the numbers of references |
| `Upvalues.LuaState.GetCached` | opt/lua/lvm.c:493-506 | a cached closure is reused exactly when each of its upvalues has the variable a new closure would get |
| `Upvalues.LuaState.FreeClosure` | opt/lua/lgc.c:657-673 | references are given back, closed upvalues go with the last one, and every upvalue another closure refers to stays |
| `Upvalues.LuaState.SetUpval` | opt/lua/lvm.c:720-725 | a store through an upvalue changes its variable only, wherever that is kept |
| `Upvalues.LuaState.ClosuresShare` | opt/lua/lfunc.c:57-96 | two closures that captured one local variable and the function that has it read what any of them stores, also after the stack has moved; after the close the closures still share it and the slot is independent |
| `DumpRoundTrip.RoundTrip` | opt/lua/lundump.c:198-275 | undumping a dump, whatever follows it, succeeds and gives the stripped prototype if stripped, and otherwise the same prototype exactly when no function without a source lies within one that has a source, a condition that every prototype meets (`HeldBack`); `UnsourcedIsLost` shows that it is needed |
| `DumpRoundTrip.ParsedSourced` | opt/lua/lundump.c:198-212 | in what the loader makes of any bytes no function without a source lies within one that has a source |
| `DumpRoundTrip.CompiledSourced` | opt/lua/lparser.c:536-541 | nor in what the compiler makes, where all functions have one source |
| `DumpRoundTrip.HeldBack` | opt/lua/ldump.c:165-214 | for every function the program can hold, compiled or loaded, a main function or one nested in it, undumping its unstripped dump gives the same prototype |
| `DumpRoundTrip.StringBack` | opt/lua/lundump.c:89-100 | the missing, the short and the 0xFF-escaped form of a string are each read back |
| `DumpHeap.DumpState.WriteFunction` | opt/lua/ldump.c:165-180 | the blocks written are those of the prototype, nested ones included, up to the first that the writer refuses |
| `DumpHeap.WriteChunk` | opt/lua/ldump.c:201-214 | with status 0 the whole chunk was written, laid out as `DumpLayout.ChunkIs` says, otherwise a beginning of it and the status is the writer's answer |
| `DumpLayout.ChunkIsDumped` | opt/lua/ldump.c:78-214 | a dump is laid out place by place: the 33 bytes of the header as literals, the number of upvalues, and of each function source, lines, parameters, vararg flag, stack size, code, constants with their type numbers, upvalues, nested functions and debug information, with 4-byte counts and little-endian numbers; and nothing else is so laid out |
| `DumpLayout.StringIsDumped` | opt/lua/ldump.c:74-89 | a string has its length and one before it, in one byte or after a 255 in eight; a missing one is a zero |
| `DumpLayout.ConstantIsDumped` | opt/lua/ldump.c:101-130 | a constant has its type number before it: 0, 1, 3, 4, 19 or 20 |
| `UndumpHeap.Zio.Read` | opt/lua/lzio.c:48-67 | the next bytes of the stream, however it is cut into pieces, or all there are and how many are missing |
| `UndumpHeap.LoadState.LoadFunction` | opt/lua/lundump.c:198-212 | the prototype, or the error, that the bytes of the stream say |
| `UndumpHeap.LoadChunk` | opt/lua/lundump.c:232-275 | the result depends on the bytes only, not on the pieces the reader hands out |
| `UndumpHeap.LoadDumped` | opt/lua/lundump.c:254-275 | loading bytes laid out as the chunk of a function, in any pieces and whatever follows them, gives the prototype of the round trip |
| `Sort.AuxSort` | opt/lua/ltablib.c:256-317 | for any order function, even one whose answers change from call to call, the range ends as a rearrangement of itself with all indices inside it; with a strict weak order it ends sorted without an error; the recursion is at most logarithmically deep |
| `Sort.TableSort` | opt/lua/ltablib.c:319-328 | the same for the whole table, with depth at most the whole part of log2 n |
| `Sort.Partition` | opt/lua/ltablib.c:282-303 | the scans stop inside the range or raise the error; afterwards the pivot's place separates the range |
| `StringTable.Table.Resize` | opt/lua/lstring.c:60-85 | between any two powers of two every string is kept, none doubled, each in the bucket its hash names for the new size |
| `StringTable.VanishingEmpty` | opt/lua/lstring.c:76-81 | the buckets that vanish when the table shrinks are empty |
| `StringTable.Table.Intern` | opt/lua/lstring.c:122-145 | the string object of that content is returned, a new one only if there was none; so equal contents mean equal objects |
| `StringTable.Table.Remove` | opt/lua/lstring.c:109-116 | exactly the given string is unlinked |
| `Utf8.Utf8Esc` | opt/lua/lobject.c:297-312 | the last bytes of the buffer are the encoding of the code point in the table of RFC 3629 section 3 |
| `Utf8.Utf8Decode` | opt/lua/lutf8lib.c:39-62 | the code point whose encoding starts there, surrogates included, and a refusal of everything else, overlong forms included |
| `Utf8.DecodeOfEncode` | opt/lua/lutf8lib.c:39-62 | decoding inverts encoding on all of 0..0x10FFFF |
| `Utf8.IsValidUtf8` | opt/uwebsocket/uWebSockets-0.14.8/src/WebSocketProtocol.h:213-248 | accepts exactly the byte strings of RFC 3629 section 4, with its steps of four bytes |
| `Utf8.EncodingWellFormed` | opt/uwebsocket/uWebSockets-0.14.8/src/WebSocketProtocol.h:213-248 | the encoding of a scalar value is accepted there, that of a surrogate is not |

## Findings

Two properties hold only under a condition that the original does not check. Each is
proved as an equivalence (`PackFormat.RoundTrip`, `WsStream.Interleaved`), with an
input that fails (`PackFormat.LongStringIsLost`, `WsStream.InterleavedPasses`).

| property | as written | fails for | holds exactly when |
|---|---|---|---|
| `string.unpack` gives back what `string.pack` took | `strlen` goes through an `int` (`opt/lua/lstrlib.c:1368-1373`) | format `z` with a string of 2^31 bytes | no argument of a `z` option is longer than 2^31 - 1 bytes |
| a message that begins inside an unfinished one closes the connection (RFC 6455 section 5.4) | only `lastFin` and opcodes below 2 are looked at (`opt/uwebsocket/uWebSockets-0.14.8/src/WebSocketProtocol.h:112`) | a binary message after a fragment of text; any message after a control message between fragments | the new message is text and the latest frame was a fragment that was not the last |

## Left out

Of the collector:

- Finalizers, `luaC_checkfinalizer` and resurrected objects; `luaC_fix`; emergency collections; debt and pause tuning, so a run is a sequence of single steps.
- Open upvalues of dead threads: upvalues are ordinary cells of the graph.
- GcSafety.RunSafe: the heaps have no weak tables; those are modelled in `Ephemeron` for one atomic phase, not inside whole runs.
- GcFull.FullGcExact: without weak tables and finalizers, as the property says.
- GcInvariant.TriPropagateAll: heaps have no weak tables, so nothing is linked into the lists `weak`, `ephemeron` and `allweak`.
- The intrusive `gclist` and `allgc` links are sequences; that an object is on one gray list at most is part of the invariant.
- Ephemeron.Collector.AtomicWeak: the second convergence is left out, which has nothing to do when no object is resurrected; empty entries are not listed.

Of the code generator:

- Metamethods, runtime errors, calls, varargs, goto and labels, table constructors, arithmetic and concatenation code, constant folding, line information and debug names. Comparisons are arbitrary functions of two values.
- CodeGenHeap.FuncState.CompileExpression: errors of the compiler (jump too long, function too complex) set a flag, and compiling goes on; memory errors are left out.
- CodeGenHeap.FuncState.SubExpr: gives up at an operator that is not modelled, which the original compiles; the statements above it ask for expressions without such operators.
- ExprSyntax.SubExprIs: the lexer and the nesting limit are not modelled; tokens are given.
- Simple expressions other than names of locals, constants and parentheses.

Of the WebSocket parser:

- Compression, extension negotiation, timers and sockets. `handleFragment` records what it is given and never closes the connection; after `forceClose` no more bytes come.
- WsParser.WebSocketProtocol.Consume: decoding is by the decisions of the code, which ignores the mask bit, waits for six bytes before a server looks at a header, and does not enforce all of RFC 6455 section 5.4.
- WsStream.ReadFragments: the original never sends fragments; their sender is that of RFC 6455 section 5.4.
- The payload limit is below 2^32, as its type in the original is.

Of the table:

- Float and NaN keys, collected dead keys, metamethods, sizes from 2^31 on and the "table overflow" error; keys are integers or abstract with a hash.
- TableHeap.Table.Resize: called with sizes for which all entries fit, as all callers do (`rehash`, the growth of the array part, `lua_createtable` on a new table). The original relies on it: it cuts the old array to the new size after the entries were put back, which is meant for an array that no rehash has replaced meanwhile.

Of patterns and packing:

- `gmatch`, replacement values of `gsub`, `string.format` and locales; character classes are those of the C locale.
- PackFormat.RoundTrip: floats are given by their bytes, so conversions between `float` and `double` are left out; numeric strings are not converted to numbers; the stack limit for results is left out.
- PackHeap.StrUnpack: when the computed end of a counted string wraps around in 64 bits the original goes on to read outside the data; the model ends with the error `Overrun`.

Of the supporting algorithms:

- Upvalues.LuaState.PushClosure: the new closure's own register and the collector's `touched` and `twups` bookkeeping are left out; upvalues live in a map from addresses.
- DumpRoundTrip.RoundTrip: strings are compared by content where the original compares pointers of sources, which can only make its dump longer.
- UndumpHeap.LoadChunk: bytes for which the original is undefined (a constant string that is missing, more upvalue names than upvalues) end with the error `Undefined`; prototypes are values, filled by appending.
- Sort.TableSort: the order function neither changes the table nor raises errors; `l + u` does not overflow.
- StringTable.Table.Intern: long strings and dead strings in the table are left out here; the latter are in `GcMutator.ResurrectKeeps`.
- Utf8.Utf8Decode: bits are joined by addition, which is the same for bits that do not overlap.
- Memory allocation failure, coroutines, the debug library, hooks and error unwinding.
