# The profiler's IL rewriter, modelled and proved

The profiler attaches to a .NET process, gives every method of a configured namespace a token,
and rewrites the method's CIL so that it reports entry and exit under that token. The core is
`ILRewriter`: it parses code bytes into a circular doubly linked list, splices probes into the
list, lays the list out again while widening short branches until every displacement fits, and
assembles header, code and exception table.

The project models that rewriter twice and connects the two. On values, a method is a sequence of
instructions whose pointers are positions (`Listing`), with functions for parsing (`Parsing`),
probes (`Probes`), layout (`Layout`), encoding (`Encoding`), clauses (`Regions`) and installed
bytes (`FatBody`). On the heap, `Rewriter` has the class with its nodes, its ring of pointers, its
offset table and its buffers, and every method is proved to compute what the value function says.
The main results are about all inputs and all runs:

* what the installed bytes mean to a runtime that reads them (`Installed`, `Preservation`,
  `StackDepth`), over an abstract machine with jumps, switches, leaves, handlers and filters
  (`Machine`);
* parse undoes print and print undoes parse (`RoundTrip`, `EndToEnd`);
* branch relaxation computes the least solution, in a bounded number of passes (`Layout`);
* every edit keeps lists well formed, switch tables whole and instructions in their exception
  regions (`Integrity`, `Regions`, `Installed`);
* injection installs one complete body or none (`Rewriter`).

`Registry` covers the way of a token from the counter in the profiled process through the server's
sessions into method bodies and back, over every interleaving of threads and processes.
`Instrumenter` runs registration and rewriting over a module and joins the two: from the counter to
installed bytes, from the bytes to reports, and from a report to its method. `Namespaces` covers the
choice of types by namespace, nested types included.

What the definitions of the model mean is stated apart from them, in numbers where the formats fix
numbers: `Opcodes.WidenedCondition` and `Opcodes.KindsByNumber`, `Parsing.AcceptsExactlyCuts`,
`FatBody.HeaderByNumber` and `FatBody.SectionByNumber`, `Installed.PlacedInstr`,
`Instrumenter.ProbeBytes`, and `ControlFlow`, which holds the machine against the displacements,
tables and clauses in the bytes.

How the model is set up:

* The opcode table comes from `opcode.def`, which is not part of the repository. It is a parameter
  `t`, constrained by `OpcodeTable.Valid`: encodings of one byte or `0xFE` and one byte, operand
  sizes, and the short branches aligned with the long ones. `Opcodes.EcmaTableIsValid` shows a
  table with the kinds of ECMA-335 that satisfies it.
* A pointer to a node is a position in the value model; the end of the code is the sentinel, and
  `NONE` is null. A pointer keeps its node when nodes are inserted, so its position shifts.
* What instructions do to stack and memory is a parameter of the machine (`Semantics`): a function
  of opcode, operand, stack, memory and a view of the method, which tells the regions around the
  instruction, around its jump target and around the place an unfinished leave is heading for, with
  the kind and class of each clause. The results about runs hold for every such semantics in which a
  NOP does nothing and calling a hook reports and returns; `Preservation.HooksCanReport` gives one
  that also unwinds finally handlers by the rule of ECMA-335. A run is looked at for a number of
  steps, and the number is arbitrary.
* `Instrumenter.LoneRetIsInstallable` and `Instrumenter.BodyHasBytes` give a method and bytes for which
  everything the results about installed bodies ask holds.
* Unsigned 32-bit arithmetic wraps explicitly (`Low32`), displacements are truncated explicitly
  (`Low8`, `Low32`) and operands are bit patterns written least significant byte first.

## Model

| member | source | states |
|---|---|---|
| Installed.InstalledBodyPreservesMeaning | ProfilerHost/ILRewriter.cpp:718-745 | The whole rewriter, from a body to installed bytes: read back through their own header and tables, the bytes denote a method that returns exactly when the original does, with the same stack and memory and with its events framed by one entry and one exit report, and that never exceeds the stack limit its own header announces |
| Rewriter.InjectEnterExitHooks | ProfilerHost/ILRewriter.cpp:718-745 | All or nothing: it succeeds exactly when the body parses with all pointers set, has a RET or takes no exit hook, and the runtime accepts; then one body is installed, with all requested probes, the method's own signature and InitLocals flag and the accumulated limit; otherwise the installed body is unchanged |
| Preservation.ProbesPreserveMeaning | ProfilerHost/ILRewriter.cpp:631-716 | Every returning run of the instrumented method is the original run with one entry event in front and one exit event behind, same stack and memory, wherever branches and leaves lead, first instruction and RET included; what a leave runs on its way may depend on the regions of its target |
| Preservation.ReturningRunsAreFramed | ProfilerHost/ILRewriter.cpp:631-716 | The converse: every returning run of the instrumented method comes from a returning run of the original, shorter by exactly the cost of the probes |
| Preservation.WideningPreservesMeaning | ProfilerHost/ILRewriter.cpp:466-486 | Replacing short branches by long ones changes no run at all |
| Layout.RelaxIsLeast | ProfilerHost/ILRewriter.cpp:375-502 | The branches the export widens are widened by every widening under which all remaining short branches fit |
| Layout.RelaxIsSolution | ProfilerHost/ILRewriter.cpp:375-502 | The export only widens, and when it stops every short branch fits in 8 bits |
| Layout.PassesBounded | ProfilerHost/ILRewriter.cpp:375-501 | The retry loop takes at most one pass more than the number of short branches it widens |
| Layout.WideningStretches | ProfilerHost/ILRewriter.cpp:381-436 | Distances between positions only grow under widening |
| Layout.OverlongStaysOverlong | ProfilerHost/ILRewriter.cpp:464-486 | A branch too long for its short form stays so whatever else is widened, forward and backward |
| Layout.FittingIsFixed | ProfilerHost/ILRewriter.cpp:438-502 | A list whose short branches fit is laid out in one pass and left as it is |
| Layout.WideningShrinksShortCount | ProfilerHost/ILRewriter.cpp:472-486 | A pass that changes anything lowers the number of short branches, and no pass raises it |
| Layout.OffStrict | ProfilerHost/ILRewriter.cpp:381-436 | Offsets increase strictly along the list, pseudo-opcodes of size zero aside |
| Layout.OffMonotone | ProfilerHost/ILRewriter.cpp:368-436 | Offsets grow by at most ten bytes a node |
| Opcodes.WidenedCondition | ProfilerHost/ILRewriter.cpp:472-486 | By ECMA-335 opcode numbers: each short branch and its widened form are taken under the same condition, and no third opcode is |
| Opcodes.WidenKeepsCondition | ProfilerHost/ILRewriter.cpp:472-486 | A widened branch is a long branch with the same action and three more bytes |
| Opcodes.KindsByNumber | ProfilerHost/ILRewriter.cpp:15-60 | Which opcode numbers are short branches, long branches, the switch and table entries |
| Opcodes.BytesByNumber | ProfilerHost/ILRewriter.cpp:388-400 | An opcode below 0x100 is written as itself, any other as 0xFE and its low byte |
| RoundTrip.PrintUndoesParse | ProfilerHost/ILRewriter.cpp:142-279 | For every byte string the import accepts with all targets resolved, an export without edits takes exactly one layout pass and reproduces the bytes, switch tables and short branches included |
| RoundTrip.ParseUndoesPrint | ProfilerHost/ILRewriter.cpp:366-502 | Importing the bytes exported for a well-formed list whose short branches fit gives that very list: opcodes, operands and targets |
| EndToEnd.BodyParseUndoesPrint | ProfilerHost/ILRewriter.cpp:366-584 | The same for whole bodies, exception clauses included |
| EndToEnd.BodyPrintUndoesParse | ProfilerHost/ILRewriter.cpp:119-314 | Exporting an unedited import gives the code bytes and every clause back |
| EndToEnd.InstrumentedBodyPreservesMeaning | ProfilerHost/ILRewriter.cpp:718-745 | The exported body denotes the instrumented and relaxed program, and that program preserves meaning |
| EndToEnd.InstrumentedExactly | ProfilerHost/ILRewriter.cpp:729-741 | There is something to install exactly for a readable body that has a RET or wants no exit hook |
| Regions.RealRegions | ProfilerHost/ILRewriter.cpp:303-306 | An imported clause describes real regions exactly when neither of its ranges wraps 32 bits and its handler is not empty |
| EndToEnd.ReadBodyIsOk | ProfilerHost/ILRewriter.cpp:142-314 | A readable body with such clauses satisfies the invariant of all edits |
| EndToEnd.ProbesSetPointers | ProfilerHost/ILRewriter.cpp:631-716 | The probes leave no jump and no filter with a null pointer |
| EndToEnd.RelaxKeepsPushes | ProfilerHost/ILRewriter.cpp:474-483 | Widening does not change what the list pushes |
| Parsing.ReadFromExact | ProfilerHost/ILRewriter.cpp:154-266 | An accepted body is consumed to its last byte |
| Parsing.ReadInstrExact | ProfilerHost/ILRewriter.cpp:155-264 | An instruction, a switch with its whole table, takes exactly the bytes it will be laid out in |
| Parsing.DecodeFailsExactly | ProfilerHost/ILRewriter.cpp:157-181 | Decoding an opcode fails exactly for 0xF8 to 0xFD, a lead byte at the end of the code, and a two-byte opcode behind the last |
| Parsing.DecodedOpcode | ProfilerHost/ILRewriter.cpp:157-168 | Otherwise it reads one byte, or 0xFE and one more |
| Parsing.AcceptsExactlyCuts | ProfilerHost/ILRewriter.cpp:154-266 | The import accepts code exactly when its bytes fall into whole instructions, by operand kinds and switch counts alone |
| Parsing.ReadsCut | ProfilerHost/ILRewriter.cpp:155-264 | An instruction is read, and ends at an offset, exactly when the bytes say so |
| Parsing.DecodeOpcode | ProfilerHost/ILRewriter.cpp:157-181 | The bytes of an accepted opcode are the bytes it is written with |
| Parsing.ReadInstr | ProfilerHost/ILRewriter.cpp:157-264 | A successful read moves forward, stays inside the code and yields at least one node |
| Parsing.Lookup | ProfilerHost/ILRewriter.cpp:322-331 | The offset table knows a node for an offset exactly when some instruction, or the end, starts there |
| Parsing.LookupIsExact | ProfilerHost/ILRewriter.cpp:199-199 | Every instruction start, and the end of the code, is looked up to its own node |
| Parsing.LookupIsMonotone | ProfilerHost/ILRewriter.cpp:147-199 | The offset table is strictly monotone in list order |
| Parsing.ParseIsWellFormed | ProfilerHost/ILRewriter.cpp:142-279 | An accepted body is a well-formed list, with intact switch tables, exactly when all its targets resolve |
| Parsing.ResolvedIffTargetsLand | ProfilerHost/ILRewriter.cpp:268-276 | All pointers are set exactly when every jump in the bytes lands on an instruction start or the end |
| EndToEnd.ReadableIffAllLand | ProfilerHost/ILRewriter.cpp:268-310 | And no pointer of a body is null exactly when the code parses and every jump and every clause offset lands |
| Regions.SetIffResolved | ProfilerHost/ILRewriter.cpp:303-310 | A clause has no null pointer exactly when all its offsets are known |
| Parsing.ReadFromIntact | ProfilerHost/ILRewriter.cpp:225-258 | Every switch read is followed by exactly its announced entries, and entries occur nowhere else |
| Encoding.DisplacementsAreRight | ProfilerHost/ILRewriter.cpp:438-497 | When the layout loop ends, the end of each branch plus its decoded operand is its target, and the end of each switch table plus an entry is that entry's target: modulo 2^32 always, and exactly when they are less than 2^31 apart |
| Encoding.SwitchBaseIsTableEnd | ProfilerHost/ILRewriter.cpp:448-457 | The base used for a table entry is the offset of the first node behind the table |
| Encoding.TableFollows | ProfilerHost/ILRewriter.cpp:233-256 | The entries a table still expects follow at once and take four bytes each |
| Bytes.ToLEByte | ProfilerHost/ILRewriter.cpp:408-419 | Byte k of a written operand is digit k of its value to the base 256 |
| Bytes.WordBytes | ProfilerHost/ILRewriter.cpp:212-222 | A word and its four bytes, least significant first |
| Bytes.Truncations | ProfilerHost/ILRewriter.cpp:464-490 | The 8- and 32-bit truncations agree with the value modulo 2^8 and 2^32, and reading back as signed gives it exactly in range |
| Encoding.EncodeSlice | ProfilerHost/ILRewriter.cpp:381-436 | Each instruction's bytes stand at its offset |
| Encoding.SlicesDetermineEncoding | ProfilerHost/ILRewriter.cpp:375-497 | A buffer with every instruction at its offset is the encoding of the list |
| Listing.Splice | ProfilerHost/ILRewriter.cpp:333-353 | Linking nodes into the list moves every pointer along with its node and changes nothing else |
| Listing.PushSumSplice | ProfilerHost/ILRewriter.cpp:355-358 | The accumulated pushes grow by those of the nodes put in |
| Integrity.SpliceKeepsOk | ProfilerHost/ILRewriter.cpp:333-353 | Inserting jump-free instructions anywhere but inside a switch table keeps the list, its tables and its clauses well formed |
| Integrity.EnterKeepsOk | ProfilerHost/ILRewriter.cpp:655-663 | The enter probe keeps the program well formed |
| Integrity.ExitLoopKeepsOk | ProfilerHost/ILRewriter.cpp:666-716 | So does the exit loop, from any node on |
| Integrity.ProbesKeepOk | ProfilerHost/ILRewriter.cpp:729-741 | Injection fails exactly when an exit probe is wanted and there is no RET; otherwise the result is well formed |
| Integrity.WideningKeepsOk | ProfilerHost/ILRewriter.cpp:466-486 | So does widening |
| Integrity.NopKeepsOk | ProfilerHost/ILRewriter.cpp:689-689 | Turning a RET into a NOP keeps tables, operands and clauses intact |
| Probes.InsertProbeIsSplice | ProfilerHost/ILRewriter.cpp:631-653 | The two insertions of a probe put load and call, in this order, in front of the node |
| Probes.AddEnterIsSplice | ProfilerHost/ILRewriter.cpp:655-663 | The enter probe stands in front of everything; pointers to the old first node still lead to it, behind the probe |
| Probes.ExpandRetIsSplice | ProfilerHost/ILRewriter.cpp:689-703 | A RET becomes NOP, probe, RET, all behind the node jumps lead to |
| Probes.ExitLoopIsFlatMap | ProfilerHost/ILRewriter.cpp:675-710 | The loop over the list it is changing computes a flat map over the original list |
| Probes.ExitLoopShape | ProfilerHost/ILRewriter.cpp:675-710 | Node by node: every original instruction keeps its node, operand and target node, a RET becomes a NOP followed by the epilog, clauses keep their nodes |
| Probes.ExitLoopKeepsRetCount | ProfilerHost/ILRewriter.cpp:693-709 | No RET is added or lost, so no inserted RET is instrumented again |
| Regions.ClauseParseUndoesPrint | ProfilerHost/ILRewriter.cpp:281-314 | Importing an exported clause gives the same nodes |
| Regions.ClausePrintUndoesParse | ProfilerHost/ILRewriter.cpp:560-576 | Exporting an imported clause gives the same offsets, lengths and token |
| Regions.EnterKeepsRegions | ProfilerHost/ILRewriter.cpp:655-663 | The enter probe is outside every region and every instruction keeps its regions |
| Regions.ExitKeepsRegions | ProfilerHost/ILRewriter.cpp:675-710 | After the exit loop an instruction lies in a try block or handler exactly when it did before |
| Regions.EpilogRegions | ProfilerHost/ILRewriter.cpp:689-703 | The epilog of a RET lies in the RET's try blocks, and in its handlers exactly when the RET is not the last instruction of the handler |
| Regions.ExportedRanges | ProfilerHost/ILRewriter.cpp:565-573 | An instruction's offset lies in a clause's byte range exactly when the instruction lies in the region |
| Installed.PlacedInstr | ProfilerHost/ILRewriter.cpp:655-716 | The instrumented list instruction by instruction: each original one at its place, with its operand and with its pointer carried to the target's place, a RET turned into a NOP if there is an exit hook; places are consecutive but for the exit sequences |
| Installed.PlacedEnds | ProfilerHost/ILRewriter.cpp:655-716 | Places start behind the enter probe and end with the list |
| Installed.ClauseFollowsCode | ProfilerHost/ILRewriter.cpp:281-314 | From clause to clause in bytes: an instruction's offset lay in the range that was read exactly when its new offset lies in the range that is written; flags and token stay, a filter offset is moved along |
| Installed.PlacedRegions | ProfilerHost/ILRewriter.cpp:655-716 | Through both probes together: regions and filter nodes are kept |
| Installed.PlacedEpilog | ProfilerHost/ILRewriter.cpp:689-703 | The regions of each exit sequence after both probes |
| Installed.InstalledRegions | ProfilerHost/ILRewriter.cpp:560-576 | In the installed table, after both probes and all widening, the offset of an original instruction lies in a clause's byte range exactly when the instruction was in the imported region, and a filter offset is that of the imported filter's node |
| Installed.InstalledEpilog | ProfilerHost/ILRewriter.cpp:689-703 | The offsets of each exit sequence lie in the installed byte ranges the RET lay in, except for a handler the RET was the last instruction of |
| Installed.InstalledBytesRead | ProfilerHost/ILRewriter.cpp:526-578 | The assembled bytes are read back, header, code and clauses, as the program they were made from |
| Installed.TokenKept | ProfilerHost/ILRewriter.cpp:301-310 | Flags and class token of every clause are unchanged by both probes |
| Installed.TokensKept | ProfilerHost/ILRewriter.cpp:301-310 | So they still fit their four-byte fields, and no clause is added or lost |
| StackDepth.ProbesDepthIsExact | ProfilerHost/ILRewriter.cpp:631-716 | The stack the instrumented method needs, exactly: it keeps to a limit if and only if the original does, there is room for the argument of an entry probe, and every RET leaves room for that of the exit probe |
| StackDepth.EmittedLimitSuffices | ProfilerHost/ILRewriter.cpp:355-358 | If the original stays within its limit, the instrumented method stays within the limit written to the header, provided that sum fits its 16 bits (LimitFits) |
| StackDepth.LimitFitsExactly | ProfilerHost/ILRewriter.cpp:543-543 | The header limit covers what declared limit and probes need exactly when, modulo 2^16, the pushes cover the probes and added to the declared limit do not carry; below 2^16 pushes, exactly when the plain sum fits 16 bits |
| StackDepth.EmittedLimitSufficesIff | ProfilerHost/ILRewriter.cpp:543-543 | For every method that makes full use of its declared limit, at a RET if that gets an argument, all runs of the instrumented method stay within the header limit if and only if that condition holds |
| StackDepth.EmittedLimitCanFail | ProfilerHost/ILRewriter.cpp:543-543 | A method for which it does not hold: the field comes out as zero and the enter probe exceeds it, while the original holds nothing |
| StackDepth.ProbesDepth | ProfilerHost/ILRewriter.cpp:631-653 | Run by run, both probes together need at most one more stack slot |
| StackDepth.ProbesRaiseLimit | ProfilerHost/ILRewriter.cpp:355-358 | The accumulated limit grows by at least that slot |
| ControlFlow.JumpFollowsBytes | ProfilerHost/ILRewriter.cpp:462-496 | A jump of the machine goes to the end of the instruction's bytes plus the displacement in them |
| ControlFlow.CaseFollowsBytes | ProfilerHost/ILRewriter.cpp:448-457 | Case k of a switch goes to the end of the table plus the displacement in entry k |
| ControlFlow.FallFollowsBytes | ProfilerHost/ILRewriter.cpp:381-436 | Falling through goes to the end of the instruction's bytes, of a switch to the end of its table |
| ControlFlow.HandlerFollowsBytes | ProfilerHost/ILRewriter.cpp:560-573 | An exception goes to the handler or filter offset of its clause |
| ControlFlow.ResumeFollowsLeave | ProfilerHost/ILRewriter.cpp:462-496 | A leave that runs handlers first goes, when resumed, where its bytes say |
| ControlFlow.EndsOfRuns | ProfilerHost/ILRewriter.cpp:679-693 | A RET returns the stack it finds |
| ControlFlow.TablesAreWhole | ProfilerHost/ILRewriter.cpp:225-258 | In a well-formed list each switch is followed, within the list, by the number of entries it announces, and every entry belongs to such a table |
| Machine.StepEmbedded | ProfilerHost/ILRewriter.cpp:366-497 | One step of a method is one step of the same method rewritten around it, for jumps, switches, leaves, resumed leaves, handlers and filters alike |
| ControlFlow.ViewFollowsBytes | ProfilerHost/ILRewriter.cpp:560-573 | The regions an instruction sees are the byte ranges that hold its own offset, the offset its displacement leads to, and the one a leave is heading for |
| Machine.LeaveRuleExactly | ProfilerHost/ILRewriter.cpp:466-486 | Under the rule for leaving try blocks a leave, and each endfinally after it, runs the first finally between it and its target, and goes on to the target when none is left |
| Machine.ViewEmbedded | ProfilerHost/ILRewriter.cpp:366-497 | Corresponding instructions see the same regions around themselves, around their jump target and around the place an unfinished leave is heading for |
| Machine.DestinationEmbedded | ProfilerHost/ILRewriter.cpp:438-497 | Corresponding instructions lead to corresponding positions |
| Preservation.WideningEmbeds | ProfilerHost/ILRewriter.cpp:466-486 | Widening changes no position |
| Preservation.EnterEmbeds | ProfilerHost/ILRewriter.cpp:655-663 | The enter probe carries the original behind it |
| Preservation.ExitEmbeds | ProfilerHost/ILRewriter.cpp:675-710 | The exit loop carries everything but the RETs along |
| Preservation.RunEmbedded | ProfilerHost/ILRewriter.cpp:366-502 | Whole runs carry over |
| Preservation.HooksCanReport | ProfilerHost/ILRewriter.cpp:631-653 | The semantics asked for exists, together with the rule by which a leave runs the finally handlers between itself and its target |
| Preservation.ProbeRuns | ProfilerHost/ILRewriter.cpp:631-653 | A probe runs through without touching the state and reports exactly once |
| Preservation.EpilogRuns | ProfilerHost/ILRewriter.cpp:689-703 | At an expanded RET exactly the NOP, the probe and the new RET run |
| Preservation.RunWithEpilogs | ProfilerHost/ILRewriter.cpp:675-710 | Every return passes exactly one epilog |
| FatBody.PartsAreDisjoint | ProfilerHost/ILRewriter.cpp:528-577 | Header, padded code, section header and clauses are disjoint, the section is four-byte aligned and the cursor ends at the total size |
| FatBody.DataSizeFits | ProfilerHost/ILRewriter.cpp:556-556 | The 24-bit DataSize field holds the size exactly when there are at most 699050 clauses |
| FatBody.HeaderByNumber | ProfilerHost/ILRewriter.cpp:532-549 | The header byte by byte: size of the whole body, format and flags, header size, stack limit, code size, signature, code |
| FatBody.SectionByNumber | ProfilerHost/ILRewriter.cpp:552-576 | The exception section byte by byte: kind 0x41, 24-bit size, and each clause's six words |
| FatBody.HeaderReads | ProfilerHost/ILRewriter.cpp:540-545 | The header fields read back |
| FatBody.BodyReads | ProfilerHost/ILRewriter.cpp:526-578 | A reader that follows ECMA-335 sections II.25.4.3 to II.25.4.6 gets code and clauses back from the bytes |
| Rewriter.ILRewriter.constructor | ProfilerHost/ILRewriter.cpp:91-100 | An empty circular list |
| Rewriter.ILRewriter.NewILInstr | ProfilerHost/ILRewriter.cpp:316-320 | A fresh node, counted before it is linked |
| Rewriter.ILRewriter.AdjustState | ProfilerHost/ILRewriter.cpp:355-358 | The limit grows, modulo 2^32, by what the instruction pushes |
| Rewriter.ILRewriter.InsertBefore | ProfilerHost/ILRewriter.cpp:333-342 | On the linked nodes: the ring with the node in place, the value spliced, every other node and pointer as before |
| Rewriter.ILRewriter.InsertAfter | ProfilerHost/ILRewriter.cpp:344-353 | The same behind a node |
| Rewriter.ILRewriter.AddProbe | ProfilerHost/ILRewriter.cpp:631-653 | The probe in front of a node, as on the value |
| Rewriter.ILRewriter.AddEnterProbe | ProfilerHost/ILRewriter.cpp:655-663 | The probe in front of the first node |
| Rewriter.ILRewriter.AddExitProbe | ProfilerHost/ILRewriter.cpp:666-716 | The loop over the mutated list refines ExitLoop and succeeds exactly when the list had a RET; every old node stays, in order, where the flat map puts it |
| Rewriter.ILRewriter.ExpandAt | ProfilerHost/ILRewriter.cpp:689-703 | One round: the RET's own node is the NOP and stays where it is, m new nodes follow it, and all others keep their order |
| Rewriter.ILRewriter.ReadOpcode | ProfilerHost/ILRewriter.cpp:157-181 | Refines DecodeOpcode, errors included |
| Rewriter.ILRewriter.ImportTable | ProfilerHost/ILRewriter.cpp:239-256 | Reads the entries, or fails exactly when they do not fit the code |
| Rewriter.ILRewriter.ImportSwitch | ProfilerHost/ILRewriter.cpp:225-258 | The switch operand and its table |
| Rewriter.ILRewriter.ImportOperand | ProfilerHost/ILRewriter.cpp:201-263 | The operand of every kind, with the 8-, 32-bit sign extensions and the wrap of the target |
| Rewriter.ILRewriter.ImportInstr | ProfilerHost/ILRewriter.cpp:155-264 | One instruction, with the node the offset table gets |
| Rewriter.ILRewriter.ReadCode | ProfilerHost/ILRewriter.cpp:144-266 | The read loop refines ReadFrom and completes the offset table |
| Rewriter.ILRewriter.GetInstrFromOffset | ProfilerHost/ILRewriter.cpp:322-331 | Exactly Lookup, null included |
| Rewriter.ILRewriter.ResolveTargets | ProfilerHost/ILRewriter.cpp:268-276 | Every jump gets the node its offset denotes |
| Rewriter.ILRewriter.ImportIL | ProfilerHost/ILRewriter.cpp:142-279 | Accepts exactly what Parse accepts and builds its list |
| Rewriter.ILRewriter.ReadClause | ProfilerHost/ILRewriter.cpp:300-310 | The pointers of one clause, null where an offset is unknown |
| Rewriter.ILRewriter.ImportEH | ProfilerHost/ILRewriter.cpp:281-314 | The pointers of all clauses |
| Rewriter.ILRewriter.LayoutPass | ProfilerHost/ILRewriter.cpp:381-436 | Sets every offset, writes every byte but the jump operands, and never leaves a buffer of ten bytes a node |
| Rewriter.ILRewriter.PatchBranch | ProfilerHost/ILRewriter.cpp:462-496 | Writes the displacement behind the opcode, or widens the branch exactly when it does not fit; the difference is taken in 32 bits |
| Rewriter.ILRewriter.PatchNode | ProfilerHost/ILRewriter.cpp:444-497 | One node of the branch pass, tables included |
| Rewriter.ILRewriter.BranchPass | ProfilerHost/ILRewriter.cpp:438-497 | Refines one widening pass; when nothing is widened the buffer holds the finished encoding |
| Rewriter.ILRewriter.EmitCode | ProfilerHost/ILRewriter.cpp:366-502 | The retry loop ends with the least widening and its encoding, after exactly Passes passes |
| Rewriter.ILRewriter.ClauseOffsets | ProfilerHost/ILRewriter.cpp:562-573 | The exported form of one clause |
| Rewriter.ILRewriter.EmitClauses | ProfilerHost/ILRewriter.cpp:558-576 | All clauses in their places, nothing before them touched |
| Rewriter.ILRewriter.EmitBody | ProfilerHost/ILRewriter.cpp:526-578 | The assembled body, cursor at its end |
| Rewriter.ILRewriter.Export | ProfilerHost/ILRewriter.cpp:366-584 | Exactly one body is handed over, the relaxed program's, or none |
| Rewriter.ILRewriter.Import | ProfilerHost/ILRewriter.cpp:119-140 | Accepts exactly the bodies Parse accepts and holds their program, null pointers included |
| Rewriter.ILRewriter.AddHooks | ProfilerHost/ILRewriter.cpp:729-741 | Refines AddProbes, failure included |
| Rewriter.FunctionBody.SetILFunctionBody | ProfilerHost/ILRewriter.cpp:586-600 | The installed body changes exactly when the runtime accepts |
| Rewriter.InjectableWhen | ProfilerHost/ILRewriter.cpp:368-584 | A readable body can be handed over when ten bytes a node and the whole body stay below 2^32 |
| Registry.ReportsResolve | ProfilerHost/TargetModuleInstrumenter.cpp:212-235 | In every interleaving of registrations, announcements, injections and running bodies, with fewer than 2^31 registrations a process, each report resolves to the method whose body made it |
| Registry.InstalledBodiesAreTraced | ProfilerHost/TargetModuleInstrumenter.cpp:214-233 | Whatever an installed body will report resolves to its method |
| Registry.AnnouncedTokensReport | ProfilerHost/TargetModuleInstrumenter.cpp:216-233 | And none is lost: in every such schedule an announced token, once its method is injected and runs, is reported by that method, unchanged |
| Registry.TokensAreDistinct | ProfilerHost/MetadataRegistry.cpp:19-19 | Two registrations of a process share a token exactly when a multiple of 2^64 lies between them |
| Registry.TokenSurvives | ProfilerHost/ILRewriter.cpp:639-645 | A 64-bit token reaches the hook intact, whichever way the 32-bit literal is widened, exactly when it is below 2^31 |
| Registry.ProbeOperand | ProfilerHost/ILRewriter.cpp:639-645 | The emitted load holds the low four bytes of the token |
| Registry.IssuedTokensResolve | ProfilerHost/TargetModuleInstrumenter.cpp:216-222 | After a run of registrations each token resolves to the method it was issued to |
| Instrumenter.InstrumentMethods | ProfilerHost/TargetModuleInstrumenter.cpp:201-236 | Every method of every type, in order, is registered and then rewritten with the token it got: each body is installed or left as the injector says, the counter has moved on by the number of methods, and the server holds exactly those announcements on top of what it had |
| Instrumenter.InstrumentMethod | ProfilerHost/TargetModuleInstrumenter.cpp:218-233 | One method: the next token, one announcement, one injection with that token |
| Instrumenter.DoneMeans | ProfilerHost/TargetModuleInstrumenter.cpp:226-233 | What that leaves of each body: one new one when the code is readable, has a RET or takes no exit hook, and the runtime accepts; otherwise the body it had |
| Instrumenter.ProbeBytes | ProfilerHost/ILRewriter.cpp:639-703 | The bytes of every probe in the exported code, whatever was widened: 20 token 28 hook at the start, and 00 20 token 28 hook 2A in place of each RET |
| Instrumenter.InstrumentedModuleIsTraced | ProfilerHost/TargetModuleInstrumenter.cpp:212-235 | The whole way of a token: the installed bytes of method i, when run, call the enter hook with the i-th token behind the counter, then do what the original does, then call the exit hook with it; the token survives its operand; and the server resolves it to the names of the method |
| Instrumenter.InstalledProbes | ProfilerHost/TargetModuleInstrumenter.cpp:226-233 | The bytes of the probes in an installed body |
| Instrumenter.InstallableWhen | ProfilerHost/ILRewriter.cpp:718-745 | What a method must be for the results about its installed body, in numbers |
| Registry.HostRegistry.constructor | ProfilerHost/MetadataRegistry.cpp:4-7 | The counter starts at zero |
| Registry.HostRegistry.RegisterMethod | ProfilerHost/MetadataRegistry.cpp:13-31 | The next token, one more entry, and one announcement when a callback is set |
| Registry.HostRegistry.SetMethodRegistrationCallback | ProfilerHost/MetadataRegistry.cpp:33-36 | Replaces the callback and nothing else |
| Registry.ServerRegistry.RegisterMethod | ProfilerCore/MetadataRegistry.cs:23-26 | The map gains or replaces exactly this token |
| Registry.ServerRegistry.ResolveMethodToken | ProfilerCore/MetadataRegistry.cs:28-32 | The method of a token, none when unknown |
| Registry.SessionRegistry.Get | ProfilerCore/SessionRegistry.cs:14-24 | The session of a process, a new one on the first call; other sessions are untouched and stay distinct |
| Registry.SessionRegistry.RegisterMethod | ProfilerCore/HostIpc/HostIpcService.cs:37-49 | An announcement goes into the session of its process and no other |
| Registry.SessionRegistry.ResolveReport | ProfilerCore/ProfilingSession.cs:33-42 | A report is looked up in the session of its process |
| Namespaces.WalkFindsNamespace | ProfilerHost/ModuleInstrumenter.cpp:98-135 | On consistent, acyclic metadata the walk is true exactly when some transitively enclosing type has the filter as a prefix of its name, although its stop test lets plain public types pass; a filter longer than a name buffer never matches |
| Namespaces.StartsWithIsPrefix | ProfilerHost/ModuleInstrumenter.cpp:83-84 | The comparison of names is the prefix relation |
| Namespaces.NestedTestIsLoose | ProfilerHost/ModuleInstrumenter.cpp:87-96 | The nested test accepts every nested visibility and plain public, and rejects only not-public |
| Namespaces.IsNestedTypeInNamespace | ProfilerHost/ModuleInstrumenter.cpp:98-135 | The loop terminates and refines the recursive walk, raised errors included |
| Namespaces.IsTypeInNamespace | ProfilerHost/ModuleInstrumenter.cpp:79-85 | True exactly when the type or one around it is in the namespace |
| Namespaces.TypeTestIsExact | ProfilerHost/ModuleInstrumenter.cpp:79-85 | The same as a law about the test for every type and filter |
| Namespaces.WalkExactly | ProfilerHost/ModuleInstrumenter.cpp:98-135 | On any acyclic metadata, consistent or not, the walk is true exactly when it comes to a matching type and raises an error exactly when it comes to an unknown one |
| Namespaces.TypeTestOnAny | ProfilerHost/ModuleInstrumenter.cpp:79-85 | The whole test on such metadata, errors included |
| Namespaces.SoundMetadata | ProfilerHost/ModuleInstrumenter.cpp:98-135 | What consistent and acyclic metadata is, by visibility numbers and a rank |
| Namespaces.GetModuleTypesToInstrument | ProfilerHost/TargetModuleInstrumenter.cpp:65-78 | The types left are those that pass, in their order; it fails exactly when some test raises an error |
| Namespaces.SelectedExactly | ProfilerHost/TargetModuleInstrumenter.cpp:65-78 | A listed type is kept exactly when it is in the namespace |
| Namespaces.SelectedInOrder | ProfilerHost/TargetModuleInstrumenter.cpp:70-77 | The types kept are those at the passing places of the list, in the order of the list |
| Namespaces.SelectedCounts | ProfilerHost/TargetModuleInstrumenter.cpp:70-77 | Each type is kept as often as it is listed, or not at all |

## Left out

- Rewriter.InjectEnterExitHooks: asks that no pointer it follows is null (`Followable`): the node behind each handler during import and, only if the probes go in, all jump and clause pointers during export. The original dereferences exactly these. `EndToEnd.ReadableIffAllLand` says when none is null. Sizes that wrap 32 bits are excluded too (`SizesFit`), since the original then writes past its buffers.
- Rewriter.ILRewriter.Import: looks behind every handler end, so these must be known offsets; other unknown offsets give null pointers. Code within 128 bytes of 2^32 is excluded, where offset arithmetic wraps back into the code.
- Rewriter.ILRewriter.ReadClause: the handler end must be a known offset, since the original takes its predecessor at once.
- Rewriter.ILRewriter.ImportEH: the same for all clauses.
- Rewriter.ILRewriter.ImportIL: code within 128 bytes of 2^32, as for Import.
- Rewriter.ILRewriter.ReadCode: the same.
- Rewriter.ILRewriter.ImportInstr: the same.
- Rewriter.ILRewriter.ImportOperand: the same.
- Rewriter.ILRewriter.ImportSwitch: the same.
- RoundTrip.PrintUndoesParse: the same; there a short branch may reach a target around the end of the 32-bit range.
- EndToEnd.BodyPrintUndoesParse: the same.
- Rewriter.ILRewriter.EmitCode: ten bytes a node must stay 128 below 2^32, or the unsigned buffer size wraps.
- Rewriter.ILRewriter.Export: the same, the whole body must stay below 2^32 bytes, and no pointer may be null.
- Installed.InstalledBodyPreservesMeaning: the hook tokens and the hook argument are 32-bit values. The argument is a 64-bit field of which four bytes are emitted; `Registry.TokenSurvives` says exactly which tokens survive that, and `Instrumenter.InstrumentedModuleIsTraced` is about those.
- Preservation.ProbesPreserveMeaning: only returning runs are compared. A method left by `throw` or `jmp` has no exit report, and `tail.` in front of a call is separated from its RET.
- Regions.EpilogRegions: a RET that ends a handler leaves its epilog outside the handler; handlers of length zero denote no region. Well-formed clauses (`Clause.WellFormed`) have non-empty handlers.
- The exported stack limit of an unedited body: the import already adds the pushes of every instruction, so it comes out larger, and print undoes parse is stated for code and clauses, not for headers.
- StackDepth.EmittedLimitCanFail: asks that the push column of CALL is at most 1; the rewriter's own table has 1 for it.
- Opcodes.OpcodeTable: the push column has no entry for `CEE_SWITCH_ARG`, although it is indexed with it; its pushes are taken to be zero.
- Rewriter.ILInstr: operand and jump target share storage in the original. They are two fields here, and the operand is cleared when the target is set; clauses likewise keep class token and filter apart.
- Registry.ReportsResolve: RPCs succeed, process ids are not reused, and the unsynchronised list of the host registry is not raced; the conversion of names to UTF-8 is the identity.
- Registry.TokenSurvives: how a 32-bit literal is widened for a 64-bit parameter is left open; both ways are covered.
- Namespaces.WalkFindsNamespace: names and filters without a NUL character; metadata queries answer from a fixed table.
- `COR_ILMETHOD_DECODER` is not part of this model: methods arrive decoded, with clauses in fat form.
- The tiny-header branch of the export, which no code path enables.
- Out-of-memory paths, allocation and release of memory, reference counts.
- The content of padding bytes between code and exception section, which is unspecified.
- The hand-assembled bodies of the bridge type, the module constructors and the profiler core injection: constant bytes.
- COM plumbing, logging, gRPC and WCF transport, code generation for IPC, and the bundled third-party headers.
