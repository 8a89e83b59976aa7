# A verified model of stellar-debugger's replay core

stellar-debugger replays a recorded Soroban (wasm) execution forwards and backwards. These Dafny
modules model the parts of it that decide what the user sees, and prove what they promise.

**Replay and stepping.** The trace has no record for an implicit return, so the call stack is guessed
from the function body each visible record lies in (`Frames`). `CallMachine` is the ground truth it is
compared with: a machine that knows its activations, and leaves behind only records. `RunStarts` decides
where a source line starts, `StatementStops` filters those starts, `StopModel` puts them together,
`Replay` (ReplayCursor.dfy) moves a cursor over them, `Breakpoints` resolves breakpoints to records,
`CallStack` expands an activation chain into the view.

**The ledger.** `Ledger` is the versioned store behind the Ledger scope: one load-time scan with nested
rollback, against a reference that has no saved worlds and finds the call an `endWasm` closes by counting
back over the records. `ScValKeys` is the identity function its storage ids are built from.

**The binary codecs.** `Bytes` is the byte cursor with LEB128; `Forms` and `FormEncoding` are DWARF
attribute forms; `Abbrev`, `DieTree`, `DieEncoding` and `InfoScan` are the two parsers of `.debug_info`;
`LineProgram`, `LineEncoding`, `LineTable` and `ProgramLookup` are line programs, the merged table, and
lookups in the table built from programs; `WasmSections` is section parsing and stripping; `Strkey` and
`Crc16` are address encoding.

Code that works step by step (loops, cursors, scans, in-place arrays) is modelled by methods and classes,
each proved equal to a specification function; what the code promises is then proved about that function.
Encoders are written for this project, to state what a parser inverts. `Prelude` holds shared types and
the stable sort the JavaScript runtime supplies; `Doubles`, `JsNumbers` and `Decimal` are JavaScript's numbers
as far as integers go: rounding to the nearest double, and the text `String` makes of one.

## Where a promise is false, and exactly when it holds

- Call-stack reconstruction is exact if and only if every move of the run is discernible
  (`CallMachine.Discernible`). A direct self-call, a tail call to another function, a return that lands below
  the topmost activation of its function, and a return that lands on a body's first offset right after a call
  are invisible to the walk; `SelfCallUnseen`, `TailCallUnseen`, `DeepReturnUnseen` and
  `EntryLikeReturnUnseen` each give a run.
- `scvalKey` escapes nothing. The comment that different values must not collide holds, up to the canonical
  form, if and only if every text in the values (payloads, error types, type names, address fields) avoids the
  comma, both closing brackets and one half of `=>`, type names avoid the colon and both opening brackets, and
  one field of each error and address avoids the colon. The validation of src/komet/traceEvents.ts:308-350
  enforces neither of the first two: it takes any string as an error type, and any string type that carries a
  value. The `...Collide` and `...Collides` lemmas exhibit values that share a key. Below the canonical form,
  every payload that is not a text shares its key with the text it prints as (`EveryPayloadHasATwin`).
- A JSON number and its decimal string are promised to share a key. A number shares its key with a decimal
  string if and only if its magnitude is below 10^21, and with its own if and only if it also is the shortest
  decimal that parses to its double, as every integer below 2^53 is. 10^21 splits in two keys
  (`ExponentSplits`); 2^53 and 2^53 + 1 have one (`RoundingMerges`).
- LEB128 and 8-byte reads are sums in doubles: an unsigned LEB128 reads back if and only if its value is a
  double, that is has 53 significant bits and lies below 2^1024; a signed one if and only if it is at least
  -2^48 and, when not negative, a double, the sign being extended only while the shift is below 53. Eight-byte
  numbers come back rounded. Every integer up to 2^53 is a double.
- `readForm` and `skipByForm` can never drift apart exactly for address sizes 1, 2 and 4.
- The scan of compilation units tells the text the full parse reads exactly when the form is not an `indirect`
  that leads to a string (`IndirectNameDiffers`).
- Step-back undoes a step-over if and only if it landed at equal depth or left from the first stop
  (`StepOverNotUndone` gives a trace where it does not).
- A merged line-table lookup means what each sequence means exactly when the end of each is clear: strictly
  above its rows, or taken over by another sequence that starts there, or shown alike by another
  (`RowAtItsEnd` gives a list where it is not).
- docs/state-inspection.md (L5) says that after a failed call the image is the one immediately before its
  `callContract` record. The code restores the world as shown at that record, the baseline storage the record
  states included; the model follows the code. The two agree if and only if the baseline tells nothing new
  (`FailedCallUndoneIff`); `FailedCallLeavesBaseline` is a trace where they do not.
- src/debugAdapter/LedgerImage.ts:393-398 says that an event that would change nothing publishes no version. An
  event that publishes changes nothing if and only if it repeats what the image holds (`Ledger.Repeats`,
  `PublishedChangesNothingIff`); a put of the value already stored is one (`SamePutPublishes`).

## Model

| member | source | states |
|---|---|---|
| CallMachine.ReconstructionExactIffDiscernible | src/debugAdapter/stops.ts:118-171 | Over every possible run of a ground-truth call machine with calls, tail calls and record-less returns, invisible records interleaved anywhere, the caller chain of the reported frame equals the true stack at every visible record if and only if no move of the run is hidden from the range walk: a direct self-call, a tail call to another function, a return below the topmost activation of its function, a landing that looks like an entry |
| CallMachine.ExactUpToFirstUnseen | src/debugAdapter/stops.ts:138-168 | Up to the first move the walk cannot see, the frames are exact; at that move the reported stack is wrong |
| CallMachine.StepExactIffDiscernible | src/debugAdapter/stops.ts:140-166 | One visible record at a time, tail calls included: from an exact stack, the walk stays exact if and only if the move is discernible |
| CallMachine.ExactDepth | src/debugAdapter/stops.ts:183-195 | Where the stack is exact, the stepping depth is the true number of open activations less one |
| CallMachine.TailCallPushes | src/debugAdapter/stops.ts:30-37 | return_call and return_call_indirect are call-class: where a tail call puts a callee in the place of its caller the walk pushes it, so the stack is right after one if and only if the function tail-calls itself |
| CallMachine.SelfCallUnseen | src/debugAdapter/stops.ts:138-168 | A possible run the walk gets wrong: a function that calls itself |
| CallMachine.TailCallUnseen | src/debugAdapter/stops.ts:138-168 | A possible run the walk gets wrong: a tail call to another function |
| CallMachine.DeepReturnUnseen | src/debugAdapter/stops.ts:138-168 | A possible run the walk gets wrong: two returns at once past an activation of the function returned to |
| CallMachine.EntryLikeReturnUnseen | src/debugAdapter/stops.ts:138-168 | A possible run the walk gets wrong: a return to the first offset of a body right after a call record |
| Frames.EveryFrameIsSound | src/debugAdapter/stops.ts:83-171 | In every trace, by range walk or opcode fallback, each frame is well formed: depth is the caller-chain length, call site and caller are absent together, the caller is the frame at the call site, call sites strictly decrease outward and sit on call-class records |
| Frames.ComputeFrames | src/debugAdapter/stops.ts:118-171 | The loop with its mutable stack yields, at every record, the frame the recursive walk specification gives that record; without bodies, the opcode fallback |
| Frames.StackStep | src/debugAdapter/stops.ts:140-166 | One visible record of the walk: the executing frame is of the body there; a level is added exactly on an entry, taken off only to return to the topmost frame of that body, and otherwise the executing frame changes its body; all frames below stay |
| Frames.OpcodeFrames | src/debugAdapter/stops.ts:83-96 | The fallback frames from call and return opcodes alone, record by record |
| Frames.OpcodeReturnRestores | src/debugAdapter/stops.ts:83-96 | In the fallback a call makes a callee of the calling frame, and the return that balances it, whatever was called between, restores that very frame |
| Frames.OpcodeStays | src/debugAdapter/stops.ts:83-96 | Any other record, an unmatched return included, leaves the frame |
| Frames.FunctionIndexAt | src/debugAdapter/stops.ts:371-385 | Binary search over sorted bodies finds the last body starting at or below the offset, if the offset is inside it, else -1 |
| Frames.LastIndexOfFn | src/debugAdapter/stops.ts:174-181 | The topmost stack position of a function, or -1 |
| CallMachine.BodyAtIsTheBody | src/debugAdapter/stops.ts:371-385 | With disjoint bodies, an offset inside a body is found in that body |
| CallStack.BuildCallStack | src/debugAdapter/callStack.ts:154-184 | The view is the expansion of each standing activation, innermost first and each as pushed, then every open contract frame, levels counting up from 0 |
| CallStack.PushActivation | src/debugAdapter/callStack.ts:118-152 | One activation: a frame for each inline, innermost first, then the activation; the innermost stands where the line table points, the frame below each inline at that inline's call site, so the activation at the outermost's; the activation is a wasm frame exactly when it has no location; all at the nearest validated offset, levels counting up |
| CallStack.PcAtIndex | src/debugAdapter/stopModel.ts:116-124 | The nearest validated offset at or before the record, or none |
| CallStack.CallStackShape | src/debugAdapter/callStack.ts:154-168 | At any record with a frame, the view has exactly depth + 1 activations; each stands at a record where it was itself the executing frame, outer ones at call-class records strictly earlier |
| RunStarts.ComputeRunStarts | src/debugAdapter/stops.ts:397-429 | The mutable per-depth table decides a predicate over history: a mapped record is not a start exactly when the last start at its depth has its line key, nothing shallower is mapped in between, and its offset is not yet covered at that depth |
| RunStarts.RevisitStartsRun | src/debugAdapter/stops.ts:387-396 | Any two visits to one code offset at one depth are separated by a run start at that depth |
| RunStarts.CoveredByStart | src/debugAdapter/stops.ts:387-429 | Every mapped record is covered by a start of its line at its depth, with no other line at that depth and nothing shallower in between |
| StatementStops.ScanIsFrameFirst | src/debugAdapter/stops.ts:252-313 | The two-way scan keeps a run start exactly when cutting the run starts into frames with an explicit stack, and filtering that frame alone, keeps it |
| StatementStops.CutIsRight | src/debugAdapter/stops.ts:246-314 | The stack-driven cut is right: closed and open frames are whole activations, every run start lies in one |
| StatementStops.FrameAround | src/debugAdapter/stops.ts:261-290 | Every run start has one frame, holding exactly the run starts of its depth reachable without anything shallower in between |
| StatementStops.SignatureFrameKeepsStop | src/debugAdapter/stops.ts:236-314 | A frame that shows a signature keeps a stop at its own depth, so step-in always has a target there |
| StatementStops.OtherSameDepthStopInFrame | src/debugAdapter/stops.ts:269-290 | The two loops find another kept stop of the same frame if and only if there is one |
| StatementStops.SelectStops | src/debugAdapter/stops.ts:292-309 | The selection loop returns exactly the kept positions, ascending |
| StatementStops.FilterStatementStops | src/debugAdapter/stops.ts:246-314 | An ascending subsequence of the run starts, empty only if they are; exactly the kept ones, or all of them when none is kept |
| StatementStops.MyCodeStops | src/debugAdapter/stops.ts:359-368 | An ascending subsequence, empty only if its input is, and exactly the workspace stops whenever there is one |
| StopModel.BuildStopModel | src/debugAdapter/stopModel.ts:61-110 | Visible records, raw run starts and statement stops are successive ascending filters of one trace, the last two empty together, the position map lists exactly the records at each offset, and first and last stop point are as fallen back |
| StopModel.IndexPositions | src/debugAdapter/stopModel.ts:68-80 | The visible records and, for each offset, the records there: exact, ascending, no empty list |
| StopModel.StopModelEnds | src/debugAdapter/stopModel.ts:96-108 | The first and the last stop point are the least and the greatest statement stop; of the visible records when there is none; of the trace when nothing is visible |
| Replay.SessionRestsOnVisible | src/debugAdapter/replayCursor.ts:36-134 | After entry, over every sequence of step and run commands at either granularity with any breakpoints, the cursor rests on a visible record whenever the trace has one |
| Replay.CommandRestsOnVisible | src/debugAdapter/replayCursor.ts:52-134 | Each single command keeps the cursor on a visible record |
| Replay.StepInVisitsRunStarts | src/trace/runTrace.ts:2-7 | Statement step-in from entry visits exactly the statement stops in order, and press number the number of run starts terminates |
| Replay.StepOverUndoneIff | src/debugAdapter/replayCursor.ts:60-103 | A step-over skips only strictly deeper stops, and step-back undoes it if and only if it landed at equal depth or left from the first stop |
| Replay.StepOverNotUndone | src/debugAdapter/replayCursor.ts:60-103 | A trace of three records and exactly the stop model built for it (opcode frames, run starts, statements), on which a step-over leaves a callee and the step-back from where it landed goes to an earlier stop of the caller instead |
| Replay.RunsMirror | src/debugAdapter/replayCursor.ts:105-120 | From one breakpoint hit to another, run-forward and run-backward undo each other |
| Replay.HitSequencesMirror | src/debugAdapter/TraceModel.ts:83-108 | The records reverse-continue visits are those continue visits, in reverse |
| Replay.NextStopIsNext | src/debugAdapter/replayCursor.ts:67-74 | The forward search finds the first stop after the cursor within the depth limit, or none exists |
| Replay.PreviousStopIsPrevious | src/debugAdapter/replayCursor.ts:95-101 | The backward search finds the last stop before the cursor within the depth limit, or none exists |
| Replay.ContinueLands | src/debugAdapter/replayCursor.ts:105-113 | A continue stops at the nearest hit ahead, and with none at the greatest statement stop, or visible record when there are no statement stops |
| Replay.ReverseContinueLands | src/debugAdapter/replayCursor.ts:115-120 | A reverse-continue stops at the nearest hit behind, and with none at the least |
| Replay.StepLands | src/debugAdapter/replayCursor.ts:60-82 | A step goes to the nearest stop ahead that is shallow enough; with none a statement step terminates without moving, and an instruction step, or any without statement stops, goes to the greatest visible record |
| Replay.StepBackLands | src/debugAdapter/replayCursor.ts:84-103 | A step back goes to the nearest stop behind that is shallow enough, and with none to the least stop |
| Replay.ReplayCursor.ToEntry | src/debugAdapter/replayCursor.ts:56-58 | The cursor rests on the least statement stop, or visible record when there is none |
| Replay.ReplayCursor.StepForward | src/debugAdapter/replayCursor.ts:67-82 | The cursor rests on the nearest stop ahead within the depth; with none a statement step terminates in place and an instruction step rests on the last visible record; and this is the step specification |
| Replay.ReplayCursor.StepBackward | src/debugAdapter/replayCursor.ts:90-103 | The cursor rests on the nearest stop behind within the depth, with none on the first; and this is the backward step specification |
| Replay.ReplayCursor.RunForward | src/debugAdapter/replayCursor.ts:109-113 | The cursor rests on the nearest hit ahead, with none on the last statement stop, or visible record when there is none; the outcome says which |
| Replay.ReplayCursor.RunBackward | src/debugAdapter/replayCursor.ts:116-120 | The cursor rests on the nearest hit behind, with none on the first; the outcome says which |
| Replay.TraceModel.Seek | src/debugAdapter/TraceModel.ts:78-81 | The cursor always ends inside the trace: on the record asked for when there is one, otherwise on the nearer end |
| Replay.TraceModel.NextIndexInSet | src/debugAdapter/TraceModel.ts:88-95 | The least record after the cursor in the set, or none |
| Replay.TraceModel.PrevIndexInSet | src/debugAdapter/TraceModel.ts:101-108 | The greatest record before the cursor in the set, or none |
| Breakpoints.DwarfSourceMapper.constructor | src/sourcemap/DwarfSourceMapper.ts:47-80 | The executed-line index lists, for each file and line, exactly the records located there, and its lines are sorted |
| Breakpoints.DwarfSourceMapper.ResolveBreakpoint | src/sourcemap/DwarfSourceMapper.ts:109-119 | The least executed line at or after the requested one, with all its records; no answer means there is none |
| Breakpoints.LineKeyInjective | src/sourcemap/DwarfSourceMapper.ts:129-132 | Line keys tell locations apart, whatever the path (colons included) and whatever number the line is |
| Breakpoints.ExecutionHasHit | src/debugAdapter/replayCursor.ts:136-164 | Every executed record of a line is preceded, inclusively, by a run start on that line at its depth, with no other line at that depth and nothing shallower between |
| Breakpoints.AnsweredBreakpointIsLive | src/debugAdapter/replayCursor.ts:154-165 | No answered breakpoint is dead: its records include a raw run start |
| Breakpoints.ResolveBreakpoints | src/debugAdapter/replayCursor.ts:147-172 | The hits are exactly the raw run starts on the lines the source breakpoints slide to, and every record at an instruction breakpoint |
| Breakpoints.ResolvedHitsAreVisible | src/debugAdapter/replayCursor.ts:147-172 | Every hit is a visible record |
| ScValKeys.InjectiveIff | src/soroban/scvalJson.ts:131-160 | Whatever the texts of values may be asked to avoid (delimiters anywhere, marks in type names, a colon in any field of an error or an address), keys separate all values that avoid it, up to their canonical form, if and only if: every text, error types and type names included, avoids the comma, both closing brackets and one half of the arrow; type names avoid the colon and both opening brackets; and one of the two fields of an error, and of an address, avoids the colon |
| ScValKeys.KeysSeparate | src/soroban/scvalJson.ts:140-160 | Under those limits two values share a key if and only if they have one canonical form, at any nesting of vec and map; the canonical form keeps the structure, every type name and every text, and forgets the JSON type of a payload (a number, boolean, null or object is its text), the difference between a missing field and its default, and that between a vec or map without an array and an empty one |
| ScValKeys.ReadsOneWay | src/soroban/scvalJson.ts:140-160 | Under those limits a printed value, followed by any text that starts with a delimiter, reads back in one way only |
| ScValKeys.KeyIsPrinted | src/soroban/scvalJson.ts:140-160 | The key is the printed form of the canonical value |
| ScValKeys.CommaCollides | src/soroban/scvalJson.ts:149-151 | A payload with a comma collides: a two-element vec and a one-element vec share a key |
| ScValKeys.BracketCollides | src/soroban/scvalJson.ts:149-151 | A payload with a closing bracket collides |
| ScValKeys.BraceCollides | src/soroban/scvalJson.ts:153-155 | A payload with a closing brace collides |
| ScValKeys.ArrowCollides | src/soroban/scvalJson.ts:153-155 | Payloads with both halves of the arrow collide |
| ScValKeys.ErrorTypesCollide | src/soroban/scvalJson.ts:145-146 | Without any text payload: a vec of two errors and a vec of one error whose type holds the text between them share a key |
| ScValKeys.TypeNamesCollide | src/soroban/scvalJson.ts:157-158 | A vec of two scalars and a vec of one scalar whose type name holds the text between them share a key |
| ScValKeys.TypeColonCollides | src/soroban/scvalJson.ts:157-158 | A colon in a type name collides: a scalar of type error:a and an error of type a share a key |
| ScValKeys.TypeBracketCollides | src/soroban/scvalJson.ts:149-158 | An opening bracket in a type name collides, as if an inner vec began there |
| ScValKeys.TypeBraceCollides | src/soroban/scvalJson.ts:153-158 | An opening brace in a type name collides, as if an inner map began there |
| ScValKeys.ErrorColonCollides | src/soroban/scvalJson.ts:145-146 | Colons in both fields of an error collide |
| ScValKeys.AddressColonCollides | src/soroban/scvalJson.ts:147-148 | Colons in both fields of an address collide |
| ScValKeys.ScalarsShare | src/soroban/scvalJson.ts:157-158 | Two scalars of one type share a key if and only if JavaScript makes one text of their payloads, whatever JSON types these have |
| ScValKeys.PayloadTexts | src/soroban/scvalJson.ts:157-158 | The texts of a string, undefined, null, true and false |
| ScValKeys.MissingFields | src/soroban/scvalJson.ts:145-148 | A missing or null error type, address type or address value is the empty text, and a missing code the number 0 |
| ScValKeys.MissingArrays | src/soroban/scvalJson.ts:149-156 | A vec or map whose payload is no array has the key of an empty one |
| ScValKeys.EveryPayloadHasATwin | src/soroban/scvalJson.ts:131-138 | So every payload that is not a text shares its key with a different value, the text it prints as |
| ScValKeys.NumbersIdentified | src/soroban/scvalJson.ts:136-138 | Within one type two integer literals share a key if and only if they parse to one double; a number shares its key with a decimal numeral if and only if its magnitude is below 10^21, the numeral then being that of the shortest decimal that parses to it and no other; below 2^53 that is its own numeral |
| ScValKeys.ExponentSplits | src/soroban/scvalJson.ts:136-138 | 10^21 as a number and as its decimal string: one integer with two keys, the first ending in 1e+21 |
| ScValKeys.RoundingMerges | src/soroban/scvalJson.ts:136-138 | 2^53 and 2^53 + 1 as numbers: two integers with one key |
| ScValKeys.StorageIdSeparates | src/debugAdapter/LedgerImage.ts:125-127 | On keys under those limits a storage id determines contract, durability and the canonical key |
| ScValKeys.StorageIdTexts | src/debugAdapter/LedgerImage.ts:125-127 | The id is the contract, the name of the durability and the key, a space between them |
| JsNumbers.NumberTextInjective | src/soroban/scvalJson.ts:136-138 | Two integer literals print alike if and only if they parse to one number, in plain and in exponent form and at infinity |
| JsNumbers.TextIsNumeralIff | src/soroban/scvalJson.ts:136-138 | The text of a number is a decimal numeral if and only if its magnitude is below 10^21; the numeral is then that of the shortest decimal, which parses back to the number |
| JsNumbers.FewestDigits | src/soroban/scvalJson.ts:157-158 | The printed decimal is the shortest: no decimal that reads back as the number has more trailing zeros |
| JsNumbers.CandidateNearest | src/soroban/scvalJson.ts:157-158 | Of the decimals with as many trailing zeros that read back as the number, the printed one is the nearest |
| JsNumbers.ExponentForm | src/soroban/scvalJson.ts:157-158 | From 10^21 on the text is the significant digits, a point after the first unless it is the only one, and the power of ten of the first, and these denote the printed decimal |
| JsNumbers.InfinityText | src/soroban/scvalJson.ts:157-158 | Past the largest double the text is Infinity, with its sign |
| Doubles.RoundMonotone | src/dwarf/cursor.ts:67-78 | Rounding to 53 bits, ties to even, keeps order |
| Doubles.RoundHalfEven | src/dwarf/cursor.ts:67-78 | Rounding is to the nearest, ties to even: the 53 highest digits are kept, and those below them decide |
| Doubles.RoundedExactIff | src/dwarf/cursor.ts:67-78 | An integer comes out of arithmetic unchanged if and only if it is a double (53 significant bits, below 2^1024), and what comes out finite always is one |
| Doubles.SumStep | src/dwarf/cursor.ts:67-78 | One more digit in a low-to-high sum: it stays finite if and only if it was, the weight is below 2^1024 and the rounded sum is, and is then that sum |
| Ledger.ScanIsFaithful | src/debugAdapter/LedgerImage.ts:340-508 | In every reachable scan state, unmatched exits included, there is one saved world per open call and it is the world shown at that call record; world, host objects and call stack are those of a reference with no saved stack |
| Ledger.ShownIsReference | src/debugAdapter/LedgerImage.ts:202-214 | What the scan marks at a record is what the reference, replayed from scratch, says must be shown there |
| Ledger.FailedCallRollsBack | src/debugAdapter/LedgerImage.ts:481-502 | After any failed call, however nested, the world is exactly the one shown standing on its callContract record, the open calls are those before it, and host objects only grew |
| Ledger.FailedCallUndoneIff | docs/state-inspection.md:69 | A failed call, however nested, leaves the world as it was immediately before its callContract record if and only if every entry that record's baseline states was already stored, just as the last baseline entry to state it says |
| Ledger.FailedCallLeavesBaseline | src/debugAdapter/LedgerImage.ts:372-391 | A two-record trace whose failed call leaves an entry that was not there before it |
| Ledger.SeededAllStores | src/debugAdapter/LedgerImage.ts:372-391 | After a baseline is merged, every id has the entry the last of its statements gives, and the others what they had |
| Ledger.SuccessfulCallKeeps | src/debugAdapter/LedgerImage.ts:488-502 | After a successful call every change stays and the open calls are those before it |
| Ledger.UnmatchedEndIgnored | src/debugAdapter/LedgerImage.ts:488-495 | An exit with no open call changes nothing |
| Ledger.MatchingCallIsOpen | src/debugAdapter/LedgerImage.ts:181-189 | Counting back over the records finds the same call as popping the saved stack |
| Ledger.ObjectsOnlyGrow | src/debugAdapter/LedgerImage.ts:481-486 | The host-object table is only ever extended |
| Ledger.DataEventsAreLocal | src/debugAdapter/LedgerImage.ts:401-447 | A data or TTL event touches no other entry and nothing outside storage |
| Ledger.SnapshotLeaves | src/debugAdapter/LedgerImage.ts:340-368 | For every world and ledger snapshot: each storage id holds what the last baseline of the last contract stating it says, accounts, contracts and codes the last statement of their key, everything unstated what it held, and the info is the stated one |
| Ledger.CallLeaves | src/debugAdapter/LedgerImage.ts:371-391 | A call states its callee's storage in the same way and nothing else; no other event states anything |
| Ledger.DataEventLeaves | src/debugAdapter/LedgerImage.ts:401-447 | A data event at its own entry: a put leaves its value under the TTL known before, or 0, a delete nothing, a TTL event the entry with that TTL if there is one; the rest as it was |
| Ledger.OtherEventLeaves | src/debugAdapter/LedgerImage.ts:423-480 | What the events about contracts, codes, accounts and the ledger info leave at their own key, and that everything else is as it was |
| Ledger.EventShows | docs/state-inspection.md:77-80 | Between quiet records: what an event states and the call it opens show at its own record, what it changes and the object it adds only at the next |
| Ledger.ApplySnapshot | src/debugAdapter/LedgerImage.ts:340-391 | The scan takes the snapshot step, publishing a version exactly for events that state something |
| Ledger.ApplyMutation | src/debugAdapter/LedgerImage.ts:399-508 | The scan takes the mutation step, and publishes one version if the event is one that publishes and none if it is not: writes always, deletes and TTLs only of what is known, an exit only with a call open, reads and statements never |
| Ledger.UnpublishedChangesNothing | src/debugAdapter/LedgerImage.ts:393-398 | An event that publishes no version changes nothing in the image |
| Ledger.PublishedChangesNothingIff | src/debugAdapter/LedgerImage.ts:393-398 | An event that does publish changes nothing if and only if it repeats what the image holds: the entry put, the TTL, the deployed contract, the code hash, the balance or the ledger info is stored alike; host objects and exits always change something |
| Ledger.SamePutPublishes | src/debugAdapter/LedgerImage.ts:401-420 | An input where the converse fails: a put of the value already stored changes nothing and still publishes |
| Ledger.CloseCall | src/debugAdapter/LedgerImage.ts:488-502 | The saved stack and call stack are popped and the world restored only on failure; a version is published if and only if a call was open |
| Ledger.ScanRecord | src/debugAdapter/LedgerImage.ts:202-214 | One turn of the load loop keeps the index exact: snapshots show at their record, mutations from the next |
| Ledger.LedgerImage.constructor | src/debugAdapter/LedgerImage.ts:200-219 | The index shows the reference at every record, version numbers are monotone and in range, and there is at most one version per event record besides the empty one |
| Ledger.LedgerImage.At | src/debugAdapter/LedgerImage.ts:325-331 | In any query order, the version at a clamped cursor is the reference at that record |
| Ledger.LedgerImage.ChangedSince | src/debugAdapter/LedgerImage.ts:299-322 | Exactly the ids on which the two references differ by presence, value key or TTL |
| Ledger.ChangedIds | src/debugAdapter/LedgerImage.ts:300-321 | The two loops collect exactly the differing ids |
| Bytes.SLebReads | src/dwarf/cursor.ts:81-94 | A signed LEB128 encoding is consumed whole, and the number the source sums up is its value if and only if that is at least -2^48 and, when not negative, a double |
| Bytes.ULebReads | src/dwarf/cursor.ts:67-78 | An unsigned LEB128 encoding is consumed whole, whatever surrounds it, and the number the source sums up (infinity and NaN included) is its value if and only if that is a double |
| Bytes.LebExact | src/dwarf/cursor.ts:67-78 | A sum of groups of 53 significant bits is reached without rounding on the way |
| Bytes.LebIsNumber | src/dwarf/cursor.ts:67-78 | For every run of groups, canonical or not: the source's sum is finite if and only if there are at most 147 groups and the rounded sum is below 2^1024, and is then the rounded sum |
| Bytes.ULebIsNumber | src/dwarf/cursor.ts:67-78 | The value the parsers go on with is the number the source returns if and only if the encoding has at most 147 groups and the value is below 2^1024 |
| Bytes.SLebIsNumber | src/dwarf/cursor.ts:81-94 | The same for signed encodings |
| Bytes.FixedReads | src/dwarf/cursor.ts:43-64 | A little-endian fixed-width encoding reads back |
| Bytes.LengthRefused | src/dwarf/cursor.ts:100-106 | A length is refused exactly when it is cut short or from 0xfffffff0 on |
| Bytes.CStringReads | src/dwarf/cursor.ts:109-117 | A NUL-terminated string reads back, terminator consumed |
| Bytes.ByteCursor.U8 | src/dwarf/cursor.ts:43-46 | One byte, or the error past the end |
| Bytes.ByteCursor.U16 | src/dwarf/cursor.ts:48-53 | Two bytes little-endian, or the error past the end |
| Bytes.ByteCursor.U32 | src/dwarf/cursor.ts:55-64 | Four bytes little-endian, or the error past the end |
| Bytes.ByteCursor.ReadULeb | src/dwarf/cursor.ts:67-78 | The shift-and-add loop computes the meaning of the groups, each addition rounded, or the error past the end; the result is the source's number if and only if there are at most 147 groups and it is below 2^1024 |
| Bytes.ByteCursor.ReadSLeb | src/dwarf/cursor.ts:81-94 | The loop computes the groups, each addition rounded, sign-extended only while the shift is below 53; the result is the source's number if and only if there are at most 147 groups and it is below 2^1024 |
| Bytes.ByteCursor.ReadInitialLength | src/dwarf/cursor.ts:100-106 | A 32-bit length; the 64-bit escape values are refused |
| Bytes.ByteCursor.ReadCString | src/dwarf/cursor.ts:109-117 | The bytes up to the first zero, or the error when there is none |
| Bytes.ByteCursor.ReadBytes | src/dwarf/cursor.ts:120-125 | Exactly the next n bytes, or the error |
| Bytes.ByteCursor.SkipBytes | src/dwarf/cursor.ts:127-130 | The position n bytes on, or the error |
| Bytes.ByteCursor.Sub | src/dwarf/cursor.ts:133-135 | A fresh cursor over the next n bytes, this one moved past them |
| Forms.ReadSkipParity | src/dwarf/forms.ts:51-130 | On every byte string and form, at any indirect nesting, readForm and skipByForm both fail or stop at the same position, for address sizes 1, 2 and 4 |
| Forms.ParityIffReadable | src/dwarf/forms.ts:132-144 | The two can never drift exactly for the address sizes 1, 2 and 4 |
| Forms.StringAtIff | src/dwarf/info.ts:111-124 | A string section holds a text at an offset if and only if its bytes lie there, none of them zero, and a zero follows; none exactly without a section or a zero at or after the offset |
| Forms.ReadAttribute | src/dwarf/forms.ts:51-130 | The method reads, and advances the shared cursor, as the form specification says, which the tables of form numbers in FormEncoding pin down |
| Forms.SkipByForm | src/dwarf/info.ts:128-207 | The method advances the shared cursor as the skip specification says, which the table of layouts by form number pins down at every address size |
| FormEncoding.OperandReads | src/dwarf/forms.ts:51-130 | Every operand, encoded by the number of its form in table 7.6 of DWARF version 5, reads back as what that number means, at any indirect nesting: eight-byte numbers rounded to the nearest double, operands of the forms the code only steps over whatever they hold, LEB128 numbers the code returns and block lengths if they are doubles |
| FormEncoding.UndefinedRefused | src/dwarf/forms.ts:127-129 | Both parsers refuse every code the table does not define |
| Abbrev.AbbrevTableInverts | src/dwarf/abbrev.ts:33-58 | The parse of an encoded table whose codes, tags and attribute numbers are doubles, anywhere in the section, is the table; a later declaration of a code wins |
| Abbrev.ParseAbbrevTable | src/dwarf/abbrev.ts:33-58 | The nested loops compute the recursive parse, error for error |
| Abbrev.ReadAttrSpecs | src/dwarf/abbrev.ts:43-55 | The inner loop reads specs up to the double zero, with the constants of implicit_const |
| Abbrev.SpecsRead | src/dwarf/abbrev.ts:44-55 | Encoded attribute specs whose numbers are doubles read back, implicit constants included |
| DieTree.OffsetsNameTheirDies | src/dwarf/die.ts:44-60 | After any successful parse of any bytes, dieByOffset has exactly the offsets of the DIEs in the trees, and each maps to the DIE that lies there |
| DieTree.UnitsOrdered | src/dwarf/die.ts:56-100 | Over a whole section DIE offsets strictly ascend in preorder, across units |
| DieTree.DieOrdered | src/dwarf/die.ts:107-141 | A parsed subtree lies in the bytes read for it, parents strictly before children |
| DieTree.IndexesOrdered | src/dwarf/die.ts:128-129 | Registering the DIEs of an ordered forest adds exactly each of them, under its own offset |
| DieTree.ParseDebugInfo | src/dwarf/die.ts:56-100 | The loop returns the units and index of the recursive parse, and throws exactly when that is malformed |
| DieTree.ReadUnit | src/dwarf/die.ts:61-97 | One unit: header of version 4 or 5, tree, and padding up to the stated end |
| DieTree.ReadHeader | src/dwarf/die.ts:66-78 | The header fields in the order each version has them; any other version throws |
| DieTree.ReadDie | src/dwarf/die.ts:107-141 | One DIE with its subtree, or a null entry; the index gains exactly that subtree; an unknown code throws |
| DieTree.ReadChildren | src/dwarf/die.ts:131-139 | Children up to the null entry |
| DieTree.ReadAttributes | src/dwarf/die.ts:123-126 | The attribute loop, later specs of a code replacing earlier ones |
| DieEncoding.DebugInfoInverts | src/dwarf/die.ts:56-100 | For any list of units and abbreviation tables, with padding and null roots, the parse of their bytes is those units laid out at the offsets they were written at; asked of numbers only that LEB128s the code returns or compares are doubles |
| DieEncoding.UnitReads | src/dwarf/die.ts:61-97 | One encoded unit reads back, header, tree and padding |
| DieEncoding.VersionRefused | src/dwarf/die.ts:66-80 | A unit of any version but 4 and 5 is refused |
| DieEncoding.CodeRefused | src/dwarf/die.ts:112-118 | A DIE whose code its table does not declare is refused |
| DieEncoding.TreeReads | src/dwarf/die.ts:107-141 | One encoded tree reads back, whatever surrounds it |
| DieEncoding.TreesRead | src/dwarf/die.ts:131-139 | An encoded sibling list reads back up to its null entry |
| DieEncoding.ReferenceResolves | src/dwarf/die.ts:8-11 | An in-unit or cross-unit reference operand written for any DIE of a section of at most 2^53 bytes reads back to an offset whose dieByOffset entry is that DIE |
| InfoScan.ScanAgrees | src/dwarf/info.ts:50-91 | On a well-formed unit scan and full parse end at the same place and report the same root: the same stmt_list if that is a section offset, and the same name and directory each if given once and not by indirect |
| InfoScan.ScansAgree | src/dwarf/info.ts:38-47 | Over a section of well-formed units with section-offset stmt_lists, the line programs the scan lists are those of the roots of the parse, unit by unit |
| InfoScan.AttrsAgree | src/dwarf/info.ts:76-89 | Whatever the attributes and their forms, on 4-byte addresses, and on any readable size when no name or directory is in addr or indirect: the attribute loop succeeds if and only if the full parse reads them without leaving the unit, ends where it ends, and notes what it reads |
| InfoScan.StmtListNoted | src/dwarf/info.ts:76-83 | What is noted as stmt_list is what the full parse holds under it, whatever the other attributes, repetitions included, as long as stmt_list is a section offset |
| InfoScan.ToldIff | src/dwarf/info.ts:97-109 | On each form that reads, the scan tells the text the parse reads if and only if the form is not an indirect that leads to a string |
| InfoScan.TextNoted | src/dwarf/info.ts:83-88 | A name or directory given once, in any form but indirect, is noted as the full parse holds it |
| InfoScan.IndirectNameDiffers | src/dwarf/info.ts:97-109 | A name through indirect is read by the parse and not told by the scan |
| InfoScan.StmtListScanned | src/dwarf/info.ts:50-91 | On a well-formed unit the scan ends where the unit ends and reports the stmt_list of its root, whatever the forms of name and directory |
| InfoScan.SkipFormWindow | src/dwarf/cursor.ts:132-135 | Skipping any form through a cursor bounded to the unit is skipping it in the section, or an error if that runs past the bound |
| InfoScan.ScanCompilationUnits | src/dwarf/info.ts:38-47 | The loop returns the units of the recursive scan and throws exactly when that is malformed |
| InfoScan.ScanUnit | src/dwarf/info.ts:50-91 | One unit through its bounded cursor: header, root code, attributes |
| InfoScan.ScanAttribute | src/dwarf/info.ts:77-88 | One attribute: offset, string or skipped |
| InfoScan.ReadStringForm | src/dwarf/info.ts:97-109 | A string where the form can be resolved offline, otherwise a skip at address size 4 |
| LineEncoding.RowsReadBack | src/dwarf/line.ts:214-294 | Whatever the header, the rows, whichever special or standard opcodes the header defines and suit them, and whatever other standard opcodes (with the operands the header declares) and extended instructions stand between them, the state machine reads the program back as exactly those rows |
| LineEncoding.AlwaysWritable | src/dwarf/line.ts:214-294 | Rows of 32-bit addresses and ordinary line numbers can be written under every header that defines the opcodes their changes need |
| LineEncoding.SixOpcodesSay | src/dwarf/line.ts:214-294 | With an opcode base of 7 or more all such rows can be written |
| LineEncoding.PlanReaches | src/dwarf/line.ts:233-291 | The instructions planned for a row emit that row alone and leave the registers at it, or reset after end_sequence |
| LineEncoding.OpDecodes | src/dwarf/line.ts:233-291 | Every encoded instruction that the header defines and the debugger tracks decodes to itself, for every opcode base from 1 on |
| LineEncoding.OthersDoNothing | src/dwarf/line.ts:241-253 | Every other standard opcode followed by as many LEB128 operands as the header declares, and every other extended instruction, emits no row, leaves the registers, and the machine goes on right after it |
| LineEncoding.OthersDecode | src/dwarf/line.ts:280-289 | Such an instruction is consumed whole and decodes as one without effect |
| LineEncoding.SummedReads | src/dwarf/line.ts:297-303 | An address of any width sums up to what its bytes spell if and only if there are at most 128 and that is a double |
| LineEncoding.ItemsRun | src/dwarf/line.ts:233-291 | Running the bytes of a program emits the rows of its tracked instructions, whatever stands between them, then runs what follows |
| LineEncoding.SpecialExpands | src/dwarf/line.ts:235-276 | Each special opcode equals its advance_pc, advance_line and copy, and const_add_pc advances as opcode 255 does |
| LineProgram.RunStateMachine | src/dwarf/line.ts:214-294 | The loop over registers returns the rows of the recursive run and throws exactly when that is malformed, for every header, a line range of zero included, where the registers stop being finite |
| LineProgram.Machine.Step | src/dwarf/line.ts:234-291 | One turn of the loop does what the decoded instruction says to registers and rows |
| LineProgram.Machine.RunExtended | src/dwarf/line.ts:241-253 | end_sequence, set_address, or a skipped length-prefixed body |
| LineProgram.Machine.RunStandard | src/dwarf/line.ts:255-290 | Each standard opcode, unknown ones skipping their declared operands |
| LineProgram.ReadUintLE | src/dwarf/line.ts:297-303 | The little-endian value of the rest of an instruction body as the source sums it, rounded and infinite where that is |
| LineTable.LookupPerSequenceIff | src/dwarf/LineTable.ts:93-122 | For disjoint sequences, merged lookups mean what each sequence means on its own, at every offset, if and only if every sequence ends strictly above its rows, or another starts where it ends, or another shows the same row there anyway |
| LineTable.RowAtItsEnd | src/dwarf/LineTable.ts:84-122 | A valid list of sequences where it fails: a last row at the very end of its sequence is found past it |
| ProgramLookup.ParsedLookupIff | src/dwarf/LineTable.ts:60-122 | For the rows parsed from any line programs that close their sequences: they split into sequences with nothing lost, and lookups in the table built from them mean those sequences if and only if their ends are clear |
| ProgramLookup.SplitFlattens | src/dwarf/LineTable.ts:78-97 | Rows cut after each end_sequence are sequences whose concatenation is the rows |
| ProgramLookup.WrittenIsParsed | src/dwarf/LineTable.ts:124-150 | Rows written as a program, under any header, are what its parse contributes to the table |
| LineTable.LookupPerSequence | src/dwarf/LineTable.ts:93-122 | Then a lookup is the last row at or below the offset of the one sequence holding it, nothing in gaps, and the new row where one starts at the end of another |
| LineTable.LookupIsBest | src/dwarf/LineTable.ts:95-122 | A lookup in the stably sorted table is, in the unsorted rows, the last of those with the greatest key at or below the offset |
| LineTable.DwarfLineTable.Lookup | src/dwarf/LineTable.ts:104-122 | Binary search finds the rightmost entry at or below the offset, and nothing if it ends a sequence |
| LineTable.DwarfLineTable.constructor | src/dwarf/LineTable.ts:78-97 | The entries are the rows of each line program once, stably sorted by address with sequence ends first |
| LineTable.GatheredOnce | src/dwarf/LineTable.ts:81-93 | The gathered rows are those of the units whose program no earlier unit names, each program once, in order |
| WasmSections.StripCommutes | src/wasm/sections.ts:112-125 | For every accepted module and predicate, stripping succeeds, and the result parses to exactly the kept sections in order, with identical bytes and payloads |
| WasmSections.StripIdempotent | src/wasm/sections.ts:112-125 | Stripping twice is stripping once |
| WasmSections.StripComposes | src/wasm/sections.ts:112-125 | Stripping by one predicate and then another is stripping by their disjunction |
| WasmSections.StripKeepsLookups | src/wasm/sections.ts:94-101 | The code section and every kept custom section are unchanged; removed names are gone |
| WasmSections.ModuleInverts | src/wasm/sections.ts:54-102 | The parse of any encoded list of sections, custom ones with their names included, is that list: ids, decoded names, bytes and payloads |
| WasmSections.SectionInverts | src/wasm/sections.ts:67-91 | One encoded section reads back, its payload after the name for a custom section |
| WasmSections.JoinedModuleParses | src/wasm/sections.ts:54-102 | Any list of well-formed sections, joined behind the header, parses to that list |
| WasmSections.ModuleJoins | src/wasm/sections.ts:54-102 | An accepted module is its header and the bytes of its sections, nothing lost |
| WasmSections.PreambleRequired | src/wasm/sections.ts:54-62 | Bytes that do not begin with the magic number and version 1 are refused |
| WasmSections.SectionLocal | src/wasm/sections.ts:67-92 | The bytes of a section read as the same section wherever they lie |
| WasmSections.ParseWasmSections | src/wasm/sections.ts:54-102 | The loop returns the sections of the recursive parse and throws exactly when that is malformed |
| WasmSections.StripCustomSections | src/wasm/sections.ts:112-125 | The loop returns the stripped bytes, or the error |
| WasmSections.StripDebugSections | src/wasm/sections.ts:128-130 | The same for names that start with .debug |
| WasmSections.IsDebugIff | src/wasm/sections.ts:128-130 | The names removed are exactly those that begin with .debug |
| WasmSections.CustomSection | src/wasm/sections.ts:97-100 | The payload of the first custom section of the name, whatever comes later, or none when no section has it |
| WasmSections.ReadUleb | src/wasm/sections.ts:137-150 | Agrees with the DWARF decoder on encodings of at most five bytes and refuses all others |
| Strkey.EncodedDecodes | src/soroban/strkey.ts:41-57 | Every 32-byte payload encodes to exactly 56 characters of the alphabet, which decode to the version byte, the payload and the little-endian checksum of both; other lengths throw |
| Strkey.EncodedSeparates | src/soroban/strkey.ts:41-57 | Two strkeys are equal if and only if version and payload are |
| Strkey.Base32Inverts | src/soroban/strkey.ts:72-88 | Base32 decodes to the bytes it was made from, at every length |
| Strkey.Base32Encode | src/soroban/strkey.ts:72-88 | The loop over a wrapping, never masked 32-bit buffer spells the base-32 digits of the unbounded number |
| Strkey.SymbolExact | src/soroban/strkey.ts:76-82 | No pending bit is lost: the wrapped buffer yields the same five bits as an unbounded one |
| Strkey.EncodeCheck | src/soroban/strkey.ts:41-57 | The arrays filled in place hold version, payload and checksum |
| Crc16.CrcIsRemainder | src/soroban/strkey.ts:60-69 | The register is the one and only remainder of the message times x^16 on division by x^16 + x^12 + x^5 + 1 over GF(2) |
| Crc16.CrcCongruent | src/soroban/strkey.ts:60-69 | The register is congruent to the message times x^16 and stays below 2^16 |
| Crc16.ShiftCongruent | src/soroban/strkey.ts:64-66 | One shift multiplies by x modulo the generator |
| Crc16.RemainderUnique | src/soroban/strkey.ts:59-69 | Remainders modulo the generator are unique |
| Crc16.Crc16XModem | src/soroban/strkey.ts:60-69 | The two loops compute the register |

## Left out

- The DAP session, the servers, the CLI and extension shells: protocol plumbing over this core.
- komet-node, transaction building, contract builds, file reading and diagnostics: I/O and foreign libraries.
- wasmparser disassembly and demangled names: the function bodies enter as ranges; the exactness theorem asks that they do not overlap.
- JSON record validation: the model starts from typed events.
- Display: `ledgerView`, `wasmView`, `projectStop`, `renderScVal`, frame names and deemphasis, the sorted ledger queries.
- `MemoryImage`, `ScopeIndex`, `TypeRegistry`, `ValueDecoder`, `selectLocation`, `normalizeConfig`: simpler, and would add only easy members.
- Opcodes are modelled as calls, tail calls, returns and the rest; line keys, line roles, the workspace test, path normalization, UTF-8 decoding and the on-disk policy are arbitrary functions.
- JavaScript numbers: what LEB128, 8-byte reads and line registers sum up is modelled in doubles, and so is what prints as a number; positions, lengths and offsets within a section are integers, so the sections modelled are below 2^53 bytes. 32-bit wrap-around is modelled where it matters, in base32.
- Bytes.ByteCursor.ReadULeb: past 147 groups, or from 2^1024 on, the source returns infinity or NaN; the parsers modelled go on with the rounded sum instead, so what a NaN length or code does to the rest of a parse is not modelled. `Bytes.ULebIsNumber` and `SLebIsNumber` say exactly which encodings these are.
- Object identity: frames, versions and DIEs are values. `changedSince` compares storage maps by value where the source first compares references, and a DIE enters the index once its children are read, where the source registers the object and fills it in place; the resulting index is the same.
- The order in which JavaScript maps and sets iterate; no modelled result depends on it.
- The caches of `DwarfSourceMapper` and of the line table's paths.
- `parseLineProgram`: the unit header and the directory and file tables of a line program; `LineTable` takes each program's rows with their paths resolved.
- InfoScan.ScanAgrees: asks for a unit whose tree lies within its stated length, of an address size both parsers read, and, if that is not 4, with no name or directory in addr or indirect, which the scan skips at size 4; a repeated name or directory, which DWARF does not allow, is left out of the agreement on that text only.
- ScValKeys.InjectiveIff: one set of delimiters for all texts, not one for each kind of field. A vec or map whose elements are not values or not pairs, which the source takes on trust below its depth limit and then may throw on, is not representable; one whose payload is not an array is (`BareVec`, `BareMap`). A number that is not an integer enters by its text.
- ProgramLookup.ParsedLookupIff: asks that the rows have finite registers, and that programs close their last sequence, as DWARF asks of them.
- DieEncoding.ReferenceResolves: asks for a section of at most 2^53 bytes, beyond which a reference is rounded.
- Breakpoints.DwarfSourceMapper.constructor: takes the trace to be as long as its positions, as the resolver builds them.
