# Verified models of LTP library and driver code

This project models the parts of the Linux Test Project (DDT tree) that hold the most logic, and proves what
they are for:

* the two-thread barrier of the fuzzy-sync library, with counters that wrap through a two-phase reset, and the
  pair of race loops built on it;
* the boolean-expression compiler: tokenizer, shunting-yard pass and 16-slot stack machine;
* the rtnetlink message builder: a growing buffer, aligned messages, recursively nested attributes with
  back-patched lengths, the receive walk and the ACK matcher;
* the calendar conversions of the RTC library and the table-driven CRC32C;
* pan: the path splitter, the hierarchical symbol table, the folding of test results into it, and the process
  scheduler;
* the JSON printer of docparse, against a reader written from RFC 8259.

| module | file | what it holds |
|---|---|---|
| `Barrier`, `RaceLoops`, `RaceTermination` | `barrier.dfy`, `race_loops.dfy`, `race_termination.dfy` | every atomic load and store is one step of a two-thread state machine; a run is any interleaving |
| `BoolExpr`, `BoolExprExact`, `BoolExprEval`, `BoolExprTokens`, `BoolExprYard` | `bool_expr*.dfy` | grammar and pass as functions, exactness, evaluation, tokenizer, and the array and linked-list code itself |
| `NetlinkWire`, `Rtnetlink`, `RtnetlinkAcks`, `RtnetlinkContext`, `RtnetlinkRun` | `netlink_wire.dfy`, `rtnetlink*.dfy` | wire format, encoder, received bytes and acknowledgements, the context whose buffer is changed in place, and whole runs of calls |
| `RtcTime`, `Checksum` | `rtctime.dfy`, `checksum.dfy` | calendar and CRC |
| `Splitstr`, `Symbol`, `SymbolTable`, `TagResults`, `TagReport` | `splitstr.dfy`, `symbol.dfy`, `symbol_table.dfy`, `tag_results.dfy`, `tag_report.dfy` | paths, heap snapshots of tables, table operations, result folding on values and in the table |
| `Pan`, `PanScheduler` | `pan.dfy`, `pan_scheduler.dfy` | slots and commands, and the main loop |
| `Json`, `JsonPrint` | `json.dfy`, `json_print.dfy` | printed text and reader, and the printing loops |
| `Wrappers` | `wrappers.dfy` | `Option` |

Reading notes.

* `Barrier` uses a constant `max >= 2` for `INT_MAX`. Loads and stores are sequentially consistent, as
  include/tst_atomic.h:35 asks for. `run_a` and `run_b` share the barrier; a loop iteration makes `waits` waits.
* Token positions in `BoolExpr` stand for addresses in the token buffer. `map_` is any function; a result of -1
  means undefined.
* In `RtnetlinkContext`, `msgs` is the ghost list of messages that the buffer holds and `clean` says whether the
  padding bytes are zero. `curmsg` is an offset, or -1 for NULL. The host is little-endian. Sizes stay below 2^31.
  The first message must fit the buffer, because the relocation in lib/tst_rtnetlink.c:45-47 needs a current message.
* In `SymbolTable`, a handle owns a tree of tables; `at` gives every table its path. `View()` is a snapshot of all
  lists. Data that is put may bring a whole tree of its own, as pan does with the keywords of a tag.
* In `PanScheduler`, launches, signals and reports of `wait` are arbitrary inputs. `honest` records that every
  reported child had terminated if and only if it held a slot.

Six results are exact conditions for laws that do not hold everywhere; each comes with an input on which the law fails.

* Exit agreement of the race loops holds on every schedule if and only if an iteration holds a second wait
  (`AgreementIff`, `SingleWaitDisagrees`).
* Every fair run of the race loops ends if and only if an iteration holds a second wait (`TerminationIff`,
  `SingleWaitNeedNotEnd`).
* The JSON text of a hash reads back if and only if identifiers need no escaping and no hash is nested, because
  identifiers are printed unescaped and nested hashes without braces (`RoundTrip`, `NestedHashIsLost`,
  `QuotedIdIsLost`).
* The entries of a tag do not depend on the order and number of its result lines if and only if every test case
  has a known status among its own or only one status at all (`OrderDoesNotMatter`, `OrderMatters`).
* The overall result of a tag does not depend on them if and only if a known status is among those reported or
  they are all the same (`OverallOrderDoesNotMatter`, `OrderMatters`).
* The slot counter of pan keeps matching the slots if and only if the report of `wait` is honest
  (`CounterFollowsSlots`, `DishonestReport`).

## Model

| member | source | states |
|---|---|---|
| `Barrier.StepKeepsInv` | include/tst_fuzzy_sync.h:566-628 | every atomic step of either thread keeps the inductive invariant, also in the middle of a counter reset |
| `Barrier.RunKeepsInv` | include/tst_fuzzy_sync.h:566-628 | every state that any interleaving reaches after the pair is reset satisfies the invariant |
| `Barrier.BarrierSafety` | include/tst_fuzzy_sync.h:566-628 | on every interleaving and through any number of wraps, no thread returns from its n-th wait before the other has entered its n-th, entry counts differ by at most one, and counters stay in 0..INT_MAX |
| `Barrier.NoDeadlock` | include/tst_fuzzy_sync.h:571-627 | in no reachable state do the spin conditions of both threads hold |
| `Barrier.StepAdvances` | include/tst_fuzzy_sync.h:571-627 | while a wait that both have entered is open, a step of the thread that can move reduces a measure |
| `Barrier.OneSpinner` | include/tst_fuzzy_sync.h:571-627 | in one round the two threads are never both in a loop that counts spins |
| `Barrier.WaitReturns` | include/tst_fuzzy_sync.h:566-628 | under every fair schedule a wait that both threads have entered ends |
| `RaceLoops.StepKeepsLInv` | include/tst_fuzzy_sync.h:663-710 | the loops built on the barrier stay in lock step: iteration, wait index, exit log and body count follow the entry counts |
| `RaceLoops.ExitIsCurrent` | include/tst_fuzzy_sync.h:706-710 | when B tests `exit` in iteration i, it holds the value that A stored for iteration i |
| `RaceLoops.ExitAgreement` | include/tst_fuzzy_sync.h:663-710 | on every schedule B loads exactly the values A stored, bodies differ by at most one and number at most exec_loops, and both threads leave with the same number of bodies |
| `RaceLoops.SingleWaitDisagrees` | include/tst_fuzzy_sync.h:663-710 | without a further wait in the body there is a schedule on which B leaves before its first body and A does not |
| `RaceLoops.AgreementIff` | include/tst_fuzzy_sync.h:663-710 | agreement on every schedule holds if and only if an iteration holds at least two waits |
| `RaceLoops.DataSeparation` | include/tst_fuzzy_sync.h:496-548 | delay, spins and the four time stamps are never written by one thread while the other may read or write them, on every schedule and across resets |
| `RaceLoops.LoopsTerminate` | include/tst_fuzzy_sync.h:663-710 | with a second wait, every fair run of the two loops ends with both threads out after the same number of bodies, at most exec_loops |
| `RaceTermination.SingleWaitNeedNotEnd` | include/tst_fuzzy_sync.h:663-710 | without one there is a fair run on which B has left and A stays in its second wait for ever |
| `RaceTermination.TerminationIff` | include/tst_fuzzy_sync.h:663-710 | every fair run ends if and only if an iteration holds at least two waits |
| `BoolExpr.ParserIsExact` | lib/tst_bool_expr.c:187-218 | a tree-building parser with the follow rules of check_one and check_two accepts a token list with a tree if and only if the grammar derives the list from that tree |
| `BoolExprExact.ShuntingYardIsExact` | lib/tst_bool_expr.c:220-334 | the pass accepts a token list if and only if the grammar derives it, and its output is the post-order of the derivation |
| `BoolExprExact.Unambiguous` | lib/tst_bool_expr.c:220-334 | no token list has two derivations, so equal precedence and left association are forced |
| `BoolExprExact.PostRearranges` | lib/tst_bool_expr.c:220-334 | the output holds every token that is not a parenthesis exactly once |
| `BoolExprEval.EvaluationPreservesMeaning` | lib/tst_bool_expr.c:361-400 | on the output for any tree the stack machine ends with the value of the tree alone, and aborts exactly when a variable is undefined or the tree needs more than 16 slots |
| `BoolExprEval.NoUnderflow` | lib/tst_bool_expr.c:361-400 | no prefix of the evaluation pops an empty stack |
| `BoolExprEval.ValueIsBit` | lib/tst_bool_expr.c:361-400 | with variables in {0,1} the value of every tree is 0 or 1 |
| `BoolExprEval.DepthBound` | lib/tst_bool_expr.c:359-388 | at any prefix the operands number at most the parenthesis nesting plus two |
| `BoolExprEval.ShallowNeverRunsOut` | lib/tst_bool_expr.c:359-388 | an expression nested at most 14 deep never takes the out-of-stack exit |
| `BoolExprEval.FifteenLevelsRunOut` | lib/tst_bool_expr.c:359-388 | the bound is sharp: an expression nested 15 deep takes that exit with every variable defined |
| `BoolExprTokens.TokenizerIsExact` | lib/tst_bool_expr.c:63-99 | every string is a layout of exactly one token list, and the scan finds it |
| `BoolExprTokens.NewTok` | lib/tst_bool_expr.c:47-61 | stores a token if it is not empty and there is a buffer, and says whether it counts |
| `BoolExprTokens.SkipQuote` | lib/tst_bool_expr.c:84-90 | moves past a quoted part of a word, or to the end if it is not closed |
| `BoolExprTokens.Tokenize` | lib/tst_bool_expr.c:63-99 | the two passes, counting and storing, give the tokens of the string and their number |
| `BoolExprYard.Push` | lib/tst_bool_expr.c:148-152 | the operation stack gains the token on top |
| `BoolExprYard.Put` | lib/tst_bool_expr.c:148-152 | the output array gains the token at its end |
| `BoolExprYard.MoveNots` | lib/tst_bool_expr.c:240-241 | pops the negations on top of the operator stack to the output |
| `BoolExprYard.MoveToLPar` | lib/tst_bool_expr.c:258-270 | pops to the matching parenthesis, or reports that there is none |
| `BoolExprYard.Shunt` | lib/tst_bool_expr.c:231-305 | one token of the pass on the arrays is one step of the pass on sequences, within the array bounds |
| `BoolExprYard.Expression.FillOutput` | lib/tst_bool_expr.c:220-321 | the array pass accepts or rejects as the pass on sequences does, with the same output or the same fault |
| `BoolExprYard.Expression.Link` | lib/tst_bool_expr.c:323-329 | the links written through the buffer visit the output in order |
| `BoolExprYard.Expression.ShuntingYardPass` | lib/tst_bool_expr.c:220-334 | succeeds exactly on the token lists the grammar derives, within arrays of cnt and cnt + 1 slots, and leaves a linked list that visits the post-order of the derivation |
| `BoolExprYard.EvalTok` | lib/tst_bool_expr.c:369-396 | one token evaluated on the stack array is one step of the stack machine |
| `BoolExprYard.Expression.Eval` | lib/tst_bool_expr.c:361-400 | returns the value of the tree, or -1 exactly when a variable is undefined or more than 16 slots are needed |
| `BoolExprYard.Parse` | lib/tst_bool_expr.c:336-357 | a string gives an expression exactly when its tokens are derived, and the expression then chains their post-order |
| `BoolExprYard.ValueOfText` | lib/tst_bool_expr.c:336-400 | from text to value: a result exactly for the strings the grammar derives, and then the value of the only derivation, or -1 exactly when a variable is undefined or 16 slots do not do |
| `NetlinkWire.HeaderRoundTrip` | lib/tst_rtnetlink.c:266-270 | the fields of a written message header read back |
| `NetlinkWire.WalkVisitsStream` | lib/tst_rtnetlink.c:209-235 | an NLMSG_OK/NLMSG_NEXT walk over a stream visits exactly its messages, in order, header and payload |
| `Rtnetlink.NestedEncodes` | lib/tst_rtnetlink.c:336-354 | patching the length of an attribute after its sublist turns the appended bytes into the recursive encoding of the attribute |
| `RtnetlinkContext.Context.constructor` | lib/tst_rtnetlink.c:61-102 | a new context holds no messages in a zeroed buffer of 1024 bytes |
| `RtnetlinkContext.Context.GrowBuffer` | lib/tst_rtnetlink.c:27-51 | room for the new bytes, what was there kept as a prefix, and no change when it fits |
| `RtnetlinkContext.Context.AddMessage` | lib/tst_rtnetlink.c:240-278 | the stream gains exactly the new message with the next sequence number, and an earlier current message becomes multi-part |
| `RtnetlinkContext.Context.AddAttr` | lib/tst_rtnetlink.c:280-305 | fails exactly without a current message; otherwise the body gains the attribute on an aligned offset, counted by its 16-bit length |
| `RtnetlinkContext.Context.AddAttrList` | lib/tst_rtnetlink.c:315-358 | succeeds exactly if every attribute and nested list fits its length field, and the body then is what the recursive encoder appends |
| `RtnetlinkContext.Context.AddNested` | lib/tst_rtnetlink.c:336-354 | a nested list and its back-patched length: the length spans data and sublist |
| `RtnetlinkContext.Context.Send` | lib/tst_rtnetlink.c:115-152 | a multi-part stream is closed with NLMSG_DONE; the current message is given up if and only if sending succeeds |
| `RtnetlinkRun.Apply` | lib/tst_rtnetlink.c:240-358 | one call of any kind keeps the buffer to the plan of messages, and fails exactly if the plan does |
| `RtnetlinkRun.Build` | lib/tst_rtnetlink.c:27-358 | any sequence of calls with any regrowth: the buffer holds exactly the planned messages with their header fields, sequence numbers, multi-part flags and recursively encoded attributes, the current message ends at datalen, and a walk visits exactly these messages |
| `RtnetlinkAcks.Messages` | lib/tst_rtnetlink.c:204-238 | the two loops over received bytes record header, payload, size and error message of every message a walk finds, then a NULL header; without bytes there is no array |
| `RtnetlinkAcks.CheckRequests` | lib/tst_rtnetlink.c:366-388 | the loop over the messages of a buffer accepts if and only if an ordered choice of first matching zero-error responses acknowledges every request |
| `RtnetlinkContext.Context.CheckAcks` | lib/tst_rtnetlink.c:360-389 | returns 1 if and only if the requests in the buffer are acknowledged by the responses that the received bytes hold |
| `RtnetlinkContext.Context.Validate` | lib/tst_rtnetlink.c:402-412 | received bytes validate what was sent if and only if there are any and the responses in them acknowledge every request |
| `RtnetlinkAcks.FindAck` | lib/tst_rtnetlink.c:372-385 | finds the first response with the number and says whether it reports no error |
| `RtnetlinkAcks.AcksAreSound` | lib/tst_rtnetlink.c:360-389 | an accepted check means every request for an acknowledgement has a zero-error response with its number |
| `RtnetlinkAcks.AcksAreComplete` | lib/tst_rtnetlink.c:360-389 | zero-error responses in the order of the requests are always accepted |
| `RtnetlinkAcks.WireAcksAreComplete` | lib/tst_rtnetlink.c:209-238 | bytes that hold one NLMSG_ERROR message with code 0 for each request, in their order, are taken apart into responses that acknowledge them all |
| `RtcTime.YearStartClosed` | lib/tst_rtctime.c:25-44 | the leap-day formula counts the days of all years before, one by one |
| `RtcTime.MonthFormula` | lib/tst_rtctime.c:25-44 | 367*mon/12 over the year that starts in March counts the days of the months, one by one |
| `RtcTime.TmToTimeIsSeconds` | lib/tst_rtctime.c:104-108 | with all its unsigned and long long conversions, the formula gives the seconds of the calendar date |
| `RtcTime.SecondsIsInjective` | lib/tst_rtctime.c:58-108 | no two valid dates have the same number of seconds |
| `RtcTime.SplitYear` | lib/tst_rtctime.c:70-77 | the year-correction loop ends with the year that holds the day and a day number below its length |
| `RtcTime.SplitMonth` | lib/tst_rtctime.c:81-88 | the month loop finds the month that holds the day of the year |
| `RtcTime.SplitSeconds` | lib/tst_rtctime.c:92-95 | hours, minutes and seconds of the day, each in range |
| `RtcTime.TimeToTm` | lib/tst_rtctime.c:58-98 | the fields are a valid date and exactly the date of that second; the day of the week counts from a Thursday unless its sum overflows an int |
| `RtcTime.TimeRoundTrip` | lib/tst_rtctime.c:58-108 | tm_to_time after time_to_tm gives the time back, for every non-negative time whose day count fits an int |
| `RtcTime.DateRoundTrip` | lib/tst_rtctime.c:58-108 | time_to_tm after tm_to_time gives the date back, for every valid date from 1970 on |
| `Checksum.StepsAreLinear` | lib/tst_checksum.c:6-71 | n reflected division steps distribute over exclusive or |
| `Checksum.ByteAtOnce` | lib/tst_checksum.c:73-81 | eight bit-serial steps on a byte are eight steps on the register with the byte added |
| `Checksum.TableIsRight` | lib/tst_checksum.c:6-71 | each of the 256 table entries is eight division steps of its index |
| `Checksum.TableNextIsRight` | lib/tst_checksum.c:73-81 | one table look-up is eight bit-serial steps |
| `Checksum.TableCrc32c` | lib/tst_checksum.c:73-81 | the table loop computes the bit-at-a-time reflected CRC32C of every buffer |
| `Checksum.BurstsAreDetected` | lib/tst_checksum.c:73-81 | two buffers that differ only within four consecutive bytes have different checksums |
| `Splitstr.SplitIsExact` | pan/splitstr.c:108-123 | a token list is the result if and only if it is the list of all maximal runs without separators, in order |
| `Splitstr.PathRoundTrip` | pan/symbol.c:206 | components joined with commas split back into themselves |
| `Splitstr.ComponentsFrom` | pan/symbol.c:206 | every component of a path is non-empty and without comma |
| `Splitstr.Strtok` | pan/splitstr.c:108-111 | one call yields the next token and where to go on |
| `Splitstr.Grow` | pan/splitstr.c:112-122 | twenty more cells, all tokens kept |
| `Splitstr.Collect` | pan/splitstr.c:93-123 | the strtok loop fills the first cells with all tokens and leaves one to spare |
| `Splitstr.Split` | pan/splitstr.c:61-143 | the array holds all tokens, then NULL in every further cell, and the count is theirs; no string gives no array |
| `Symbol.Graft` | pan/symbol.c:194-257 | binding one key in the table found along a path changes exactly the look-ups through that key |
| `Symbol.AttachKeepsWf` | pan/symbol.c:137-155 | a tree put under a key keeps tables unshared, acyclic and keys distinct |
| `Symbol.OpenOne` | pan/symbol.c:245-252 | creating one missing table on the way changes no look-up but that of the new prefix |
| `Symbol.StoreLast` | pan/symbol.c:232-252 | after the last key is bound every path sees what a successful put promises |
| `SymbolTable.FindKey` | pan/symbol.c:124-132 | finds the first entry with the key, or the end |
| `SymbolTable.Symbols.constructor` | pan/symbol.c:160-163 | a new table is empty |
| `SymbolTable.Symbols.Descend` | pan/symbol.c:213-230 | walks to where the path ends, is missing or is blocked |
| `SymbolTable.Symbols.Get` | pan/symbol.c:265-309 | returns what is bound to the path, and NULL if nothing is |
| `SymbolTable.Symbols.AddKey` | pan/symbol.c:137-155 | one entry more at the end of one list, everything else unchanged |
| `SymbolTable.Symbols.AddTables` | pan/symbol.c:245-248 | a chain of new tables for the missing prefixes, nothing else changed |
| `SymbolTable.Symbols.AddKeys` | pan/symbol.c:245-252 | creates the missing tables and binds the last key |
| `SymbolTable.Symbols.Put` | pan/symbol.c:194-257 | ENOTDIR if and only if a proper prefix is bound to something else than a table; EEXIST if and only if the path is bound and may not be replaced; a failed put changes nothing; a successful one binds the path, makes new tables for missing prefixes, leaves every path that does not start with it alone, and keeps keys distinct and in insertion order |
| `SymbolTable.GetAfterPut` | pan/symbol.c:194-309 | a get finds what a put stored, and no other path loses anything |
| `SymbolTable.Symbols.First` | pan/symbol.c:346-353 | the cursor stands on the first entry of the table, if any |
| `SymbolTable.Symbols.SetCursor` | pan/symbol.c:333-344 | the cursor stands on the first entry of the table bound to the path; an error leaves it alone |
| `SymbolTable.Symbols.Next` | pan/symbol.c:355-366 | the cursor moves to the next entry of the same list or past its end |
| `TagResults.WorstCase` | pan/tag_report.c:457-478 | returns the argument that stands first in the table, the second one on a tie |
| `TagResults.WorstIsUnique` | pan/tag_report.c:457-478 | statuses with a known one among them, or all the same, have only one worst |
| `TagResults.EntriesAreWorst` | pan/tag_report.c:418-452 | after any sequence of lines a test case has an entry if and only if a line reported it, and the entry is a worst status reported for it |
| `TagResults.OrderDoesNotMatter` | pan/tag_report.c:418-478 | the entries are the same for every sequence with the same lines, in any order and number, if and only if every test case has a known status among its own or only one |
| `TagResults.EntriesAreFolded` | pan/tag_report.c:442-450 | the entries in table order are the folded ones, each test case once |
| `TagResults.OverallIsWorst` | pan/tag_report.c:171-193 | the overall result is a worst one of the statuses of all lines, those of a test named `_keys` left out |
| `TagResults.OverallOrderDoesNotMatter` | pan/tag_report.c:171-193 | the overall result is the same for every sequence with the same lines if and only if a known status is reported or only one status is |
| `TagResults.OrderMatters` | pan/tag_report.c:457-478 | two lines of one test case with statuses RETR and DONE: entries and overall result depend on their order |
| `TagReport.LineStored` | pan/tag_report.c:442-450 | after the put of one line the table holds exactly the ordered entries of all lines, old ones and this one |
| `TagReport.CutsTestcase` | pan/tag_report.c:418-452 | a table that holds the ordered entries of some lines then holds those of these lines and one more |
| `TagReport.KeywordsStored` | pan/reporter.c:244-245 | putting the keywords adds their name at the end and leaves all results alone |
| `TagReport.ListTests` | pan/tag_report.c:140-165 | the cursor loop lists the names of all tests in order, without that of the keywords |
| `TagReport.ReportTest` | pan/tag_report.c:174-190 | the cursor loop over one test takes in all its statuses in order |
| `TagReport.CutsReport` | pan/tag_report.c:108-193 | the result is the overall result of the lines the table holds |
| `TagReport.ReportTag` | pan/reporter.c:239-248 | from the lines of a tag through its symbol table to the report: the result is the overall one of the lines and a worst status of all of them, those of a test named `_keys` left out |
| `Pan.CommandIsModulo` | pan/ltp-pan.c:555-557 | attempt k runs entry k mod cnt |
| `Pan.CountIsFull` | pan/ltp-pan.c:533-545 | the number of occupied slots is at most the number of slots, and equal to it if and only if none is free |
| `Pan.Starts` | pan/ltp-pan.c:396-412 | infinite exactly when asked for or timed without a number; by default every command once in sequence, or one; a number asked for is raised to keep_active |
| `PanScheduler.FreedCount` | pan/ltp-pan.c:785-897 | a reported child takes one from the occupied slots exactly when it held one |
| `PanScheduler.CounterFollowsSlots` | pan/ltp-pan.c:754-897 | the counter keeps matching the slots if and only if the reported child terminated exactly when it held a slot |
| `PanScheduler.DishonestReport` | pan/ltp-pan.c:538-545 | a run on which the end of a process without a slot is reported, and the next attempt aborts for want of a slot |
| `PanScheduler.Verdict` | pan/ltp-pan.c:756-876 | which reports count as failures, given the slot the child was found in |
| `PanScheduler.Scheduler.constructor` | pan/ltp-pan.c:378-412 | all slots are free and the counters agree |
| `PanScheduler.Scheduler.FindSlot` | pan/ltp-pan.c:533-537 | finds the first free slot if there is one |
| `PanScheduler.Scheduler.RunChild` | pan/ltp-pan.c:1134-1135 | a started child takes the slot, a failed launch leaves it |
| `PanScheduler.Scheduler.Record` | pan/ltp-pan.c:550-557 | counters, starts and command index after an attempt keep the invariant |
| `PanScheduler.Scheduler.Attempt` | pan/ltp-pan.c:526-559 | one attempt keeps the invariant, takes the first free slot, records its command, and aborts exactly if no slot is free, which happens only after a dishonest report |
| `PanScheduler.Scheduler.Fill` | pan/ltp-pan.c:526-559 | the filling loop keeps the invariant and makes no attempt once stopped, signalled or idle |
| `PanScheduler.Scheduler.PropagateSignal` | pan/ltp-pan.c:677-710 | exactly the occupied slots are marked as stopping, none is freed |
| `PanScheduler.Scheduler.AnswerSignal` | pan/ltp-pan.c:576-594 | a received signal is used up and raises exactly one of stop and go_idle by one |
| `PanScheduler.Scheduler.Release` | pan/ltp-pan.c:785-897 | the slot of the reported child is freed and its end judged |
| `PanScheduler.Scheduler.CheckPids` | pan/ltp-pan.c:713-901 | the slot of the reported child is freed, the counter goes down exactly for a terminated child, and the verdict is returned |
| `PanScheduler.Scheduler.OneRound` | pan/ltp-pan.c:524-622 | a round keeps the invariant and is the last exactly when stopping with no active child |
| `PanScheduler.Scheduler.Run` | pan/ltp-pan.c:524-622 | for every run with honest reports num_active is the number of occupied slots and at most keep_active; starts and attempts are conserved; sequential attempt k ran entry k mod cnt; at the end all children are reaped and, without a signal, all starts are used up |
| `Json.ReadEsc` | docparse/data_storage.h:260-291 | an escaped string reads back with tabs expanded and other control characters gone |
| `Json.ReadText` | docparse/data_storage.h:293-324 | a string or an arbitrarily nested array, as printed and whatever follows, reads back as its value |
| `Json.OnlyFlat` | docparse/data_storage.h:302-311 | a value that reads back holds no hash |
| `Json.KeyIsId` | docparse/data_storage.h:304 | an identifier that reads back holds no quotation mark, backslash or control character |
| `Json.RoundTrip` | docparse/data_storage.h:326-331 | a printed top-level hash reads back as the same members in order if and only if identifiers are plain and no hash is nested |
| `Json.NestedHashIsLost` | docparse/data_storage.h:302-311 | an empty hash as a member does not read back |
| `Json.QuotedIdIsLost` | docparse/data_storage.h:304 | a member whose identifier holds a quotation mark does not read back |
| `JsonPrint.Stream.Pad` | docparse/data_storage.h:251-252 | the padding loop writes that many spaces |
| `JsonPrint.Stream.PutEscaped` | docparse/data_storage.h:260-291 | the character loop appends the padded, quoted and escaped string |
| `JsonPrint.Stream.PutNode` | docparse/data_storage.h:293-324 | the recursive loops append exactly the text of the node |
| `JsonPrint.Stream.PutDocument` | docparse/data_storage.h:326-331 | appends the text of the whole document |

## Left out

- Timing, random delays and the floating-point statistics of fuzzy sync: `pair_update` is kept as the set of shared fields it reads and writes; thread creation and cancellation are not modelled.
- Weak memory: loads and stores are taken in one global order, so the inline assembly of include/tst_atomic.h is not modelled.
- Error reports of the expression parser on a terminal, and freeing expressions.
- RtnetlinkRun.Build: sending between the calls is left out, and a run stops at the first call that fails, as a broken test does.
- RtnetlinkContext.Context.AddAttrList: lists whose data length is 65532 to 65535 bytes, where the 16-bit length in add_attr wraps, are excluded, and after a failed call only the rest of the stream is described.
- RtnetlinkContext.Context.GrowBuffer: growth without a current message is excluded, because the code then relocates a NULL pointer.
- RtnetlinkContext.Context.AddMessage: for the same reason a first message must fit the buffer.
- RtnetlinkContext.Context.AddNested: the data lengths that wrap are excluded as for the list.
- RtnetlinkRun.Apply: a first message above 1024 bytes and the data lengths that wrap are excluded, as in the calls it makes.
- RtnetlinkContext.Context.Validate: an error message that ends before its code is excluded, because the code reads beyond it.
- Sockets, polling, allocation failure and the payload types of rtnetlink messages.
- RTC ioctls, and times before 1970 or beyond an int of days.
- `sym_rm`, `sym_dump` and memory ownership in pan/symbol.c; the magic number is the kind of the data; a NULL handle and the empty path with `PUT_REPLACE` or in a get, where the code follows a NULL pointer.
- SymbolTable.Symbols.Put: data that is a table of the same tree is excluded; it would be shared or contain itself.
- The linked list of one table level is a sequence that operations reassign; the tables themselves are objects changed in place.
- Report formatting, test-case counting and fixed key buffers in pan/tag_report.c; test names are non-empty and without comma, as pan/scan.l:95-98 and its rules for result lines have them.
- fork, exec, log and zoo files, orphaned process groups, which signal is sent on, and option parsing in pan/ltp-pan.c; a signal arrives before an attempt or before a round looks for one.
- PanScheduler.Scheduler.Run: a run is any finite number of rounds and attempts, since the loop itself need not end.
- Node constructors, capacities and removal in docparse/data_storage.h; the reader knows no numbers, literals or \u escapes because none are printed; bytes above 127, whose treatment depends on the signedness of `char`, are taken as ordinary characters.
- The remaining LTP libraries and all test cases: mostly system-call wrappers or short arithmetic that would add easier members.
