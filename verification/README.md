# Verified models of the axiomlang contract checkers

The repository gates its compiler contracts with Python checkers under `scripts/ci`. This project
models the algorithms inside those checkers in Dafny and proves what they are for: not that one
fixture passes, but what holds for every input, every run and every history the checkers accept.
Loops stay loops, dictionaries and lists that the source updates stay variables or fields that
methods reassign, byte buffers stay arrays, and each such method is proved against a specification
function or predicate about which the main theorems are stated. The modules named `...Rules`, with
`LifecycleRecords` and `TrustReasons`, say what the checkers decide a second time, over the fields of
the documents and without the functions the checkers are built from; lemmas connect the two.

- **Dependency graph of the readiness ledger** (`Digraph`, `DependencyGraph`): a three-colour search reports errors exactly for cyclic graphs, and only genuine cycles, in ascending order.
- **Executable Semantic MIR** (`SemanticMir`, `SemanticMirRules`, `SemanticMirChecker`): a small-step semantics; the dataflow checks hold if and only if no run faults.
- **Dynamic aggregate ABI: layouts** (`Divisibility`, `AggregateLayout`, `LayoutTheorems`, `LayoutPlacement`, `LayoutRules`, `LayoutRecords`): the one layout the rules allow; bounded arithmetic is exact; alignment, containment and disjointness at any depth.
- **Dynamic aggregate ABI: lifecycle** (`Lifecycle`, `LifecycleTheorems`, `LifecycleChains`, `LifecycleTrace`, `LifecycleRecords`, `LifecycleInterpreter`): ownership invariants of every reachable state; exactly-once cleanup along move chains; acceptance and blame characterized by rules on the records alone.
- **Package trust** (`Transcripts`, `Text`, `Lexicographic`, `SemVer`, `KeySupersession`, `Delegation`, `SignatureEvidence`, `Freshness`, `TrustTypes`, `TrustKeys`, `TrustVerdict`, `TrustTheorems`, `TrustWitness`, `TrustRules`, `TrustConformance`, `TrustReasons`, `TrustEvaluator`): uniquely decodable transcripts, version order, rollback protection over runs, and the exact conditions of a trusted verdict and of every reason for a rejection.
- **Public compatibility** (`Compatibility`, `CompatibilityRules`, `CompatibilityHistory`, `CompatibilityPromise`, `CompatibilityChecker`): reports exist exactly for acceptable steps; what holds over whole histories of accepted steps.
- **Byte and path kernels** (`MachO`, `Paths`): in-place normalization, when it is idempotent, what a normal path is made of, and composition of path normalization.

`Basics` holds the option type and small helpers. `dafny verify dfyconfig.toml` checks everything.

Some results are about the checkers themselves:

- The cycle search over superseded keys can never be the only reason for a failure: the local rules exclude
  cycles (`KeySupersession.RulesExcludeCycles`).
- The second disjunct of the replay test is implied by the first (`Freshness.RepositionedIsRebound`).
- The fallback of the stack lookup in the dependency search is unreachable (`DependencyGraph.Search.IndexOf`).
- A layout within the maximum can still be refused: `LayoutRecords.SizeCanMislead` gives an input and
  `LayoutRecords.SizeDecidesIff` the exact condition.
- An integer field and a text field can encode to the same bytes (`Transcripts.KindsCanCollide`), and the source
  picks the kind of a package field from its JSON value. Equal transcripts therefore fix the encoding of every
  field, and the fields themselves exactly when the kinds agree (`Transcripts.PackageTranscriptInjective`).
- The Mach-O normalizer is not idempotent (`MachO.SelfClearingNotIdempotent`); `MachO.IdempotentIff` says exactly
  when it is, which includes every binary whose signature ranges follow its load commands, and repetition always
  settles.

## Model

| member | source | states |
|---|---|---|
| `DependencyGraph.DependencyGraphErrors` | scripts/ci/check-production-language-readiness.py:271-326 | No errors exactly when the issue graph restricted to governing issues is acyclic (self-loops included); after the self-dependency messages every message is a genuine simple cycle of edges, no cycle is reported twice, removing the closing edges of the reported cycles leaves an acyclic graph, the cycles come in ascending order of the paths that lead to them, and the edge count is the number of declared dependencies |
| `DependencyGraph.GraphOf` | scripts/ci/check-production-language-readiness.py:272-297 | A key per governing issue and an edge per declared positive dependency, merged over all rows of one issue, and nothing else |
| `DependencyGraph.CollectGraph` | scripts/ci/check-production-language-readiness.py:272-297 | The row loop builds that graph, the self-dependency messages in row order and the edge count, skipping malformed rows |
| `DependencyGraph.SortedElements` | scripts/ci/check-production-language-readiness.py:318-324 | Sorting a set gives its elements, each once, ascending |
| `DependencyGraph.SearchAll` | scripts/ci/check-production-language-readiness.py:299-326 | Visiting every governing issue in ascending order reports only genuine cycles, each once, whose closing edges cut all cycles; each ends a path before which, in ascending order of issues and of dependencies, the cycles reported earlier leave no cycle |
| `DependencyGraph.Search.Visit` | scripts/ci/check-production-language-readiness.py:302-322 | From every sound state the recursive visit terminates (the set of unvisited issues shrinks), keeps the state sound, only extends it, restores the stack, and leaves the issue finished or the edge into it reported |
| `DependencyGraph.Search.IndexOf` | scripts/ci/check-production-language-readiness.py:306-309 | The stack lookup succeeds for every issue marked as open and finds its first occurrence, so the fallback is unreachable |
| `DependencyGraph.Search.ReportCycle` | scripts/ci/check-production-language-readiness.py:305-315 | A visit to an open issue reports the genuine cycle through the stack unless that cycle is reported already |
| `DependencyGraph.EnterKeeps` | scripts/ci/check-production-language-readiness.py:316-317 | Colouring and pushing an unvisited successor keeps the search invariant: the stack is a path, open issues are exactly those on it, edges out of finished issues are finished or reported |
| `DependencyGraph.LeaveKeeps` | scripts/ci/check-production-language-readiness.py:321-322 | Popping keeps the invariant once every edge out of the issue leads to a finished issue or is reported |
| `DependencyGraph.AllFinished` | scripts/ci/check-production-language-readiness.py:299-326 | When every issue is finished, the graph without the reported closing edges is acyclic (finishing order is a descending rank) |
| `DependencyGraph.ClosedIsNext` | scripts/ci/check-production-language-readiness.py:305-324 | A cycle is reported only when every smaller issue, and every smaller dependency along the way to it, leads to no cycle any more or was itself the closing edge of an earlier one |
| `DependencyGraph.FinishedIsExhausted` | scripts/ci/check-production-language-readiness.py:302-322 | Without the closing edges reported so far, no path from a finished issue repeats an issue |
| `DependencyGraph.NoErrorsMeansAcyclic` | scripts/ci/check-production-language-readiness.py:271-326 | Both directions of the verdict from the loop result |
| `Digraph.DescendingIsAcyclic` | scripts/ci/check-production-language-readiness.py:299-326 | A graph whose edges descend in some rank has no closed path: the argument behind the three-colour search |
| `SemanticMirChecker.ValidateExecutableFunction` | scripts/ci/check-semantic-mir-v1.py:99-189 | Accepts exactly the functions that conform to the rules written over blocks, instructions and runs: fresh names, declared bases and actions, no run that can fault, tidy terminators, observed features equal to the declared ones and a back-edge whenever looping is declared; a rejection names the first defect that really is there |
| `SemanticMir.SafeIffNoRunFaults` | scripts/ci/check-semantic-mir-v1.py:99-189 | With unique declarations the dataflow checks hold if and only if no run from any block, for any values of its parameter types, faults; a fault is defined by the instruction and the values at hand: an operand that is not bound, a place whose base is not bound, a missing result, region, scope, callee, effects or capability, too few successors, or a jump with a missing target or a wrong count or type of arguments |
| `SemanticMir.SafeRunsNeverFault` | scripts/ci/check-semantic-mir-v1.py:99-189 | Every state of every run of a safe function holds exactly the available values at their declared types, and none is a fault |
| `SemanticMir.SafeRunsProgress` | scripts/ci/check-semantic-mir-v1.py:86-96 | A run of a safe function that has not halted can take a further step: blocks whose terminator requires successors have one |
| `SemanticMir.AcceptedRunsSafely` | scripts/ci/check-semantic-mir-v1.py:99-189 | End to end: every run of an accepted function is well typed, never faults, finds everything its next instruction or terminator needs, and either has halted or can be extended |
| `SemanticMir.ExecutableIffSupplied` | scripts/ci/check-semantic-mir-v1.py:136-156 | The checker calls an instruction executable with the available names exactly when, operation by operation, the values at hand and the declarations supply all it needs at run time |
| `SemanticMir.ReadyIff` | scripts/ci/check-semantic-mir-v1.py:86-96 | A terminator passes its checks exactly when its operands are bound and it has two successors for a branch or a match and one for every other terminator that goes on |
| `SemanticMirRules.AcceptableIffConforms` | scripts/ci/check-semantic-mir-v1.py:99-189 | The checks hold if and only if the function conforms to rules that name no check: names are declared once, places have declared bases, cleanup actions are declared instructions, no run can fault, terminators are tidy, features are those of the instructions, and a loop exists where declared |
| `SemanticMirRules.FreshNamesIff` | scripts/ci/check-semantic-mir-v1.py:100-119 | The comparison of identifier counts decides that no name is declared twice among parameters, results, blocks, instructions, places and scopes |
| `SemanticMirChecker.ComplainMeans` | scripts/ci/check-semantic-mir-v1.py:136-156 | The complaint about an instruction names the first thing it lacks, in the order of the source, and there is none exactly when it lacks nothing |
| `SemanticMir.ForwardRunsBounded` | scripts/ci/check-semantic-mir-v1.py:169-189 | Without a back-edge a run enters at most as many blocks as the function has and takes at most as many steps as it has instructions and terminators |
| `SemanticMir.UnsafeFaults` | scripts/ci/check-semantic-mir-v1.py:133-186 | Completeness: an unsafe function has a run that ends in a fault |
| `SemanticMir.StepSound` | scripts/ci/check-semantic-mir-v1.py:133-186 | One step from a well-typed state keeps types and, in a safe function, does not fault |
| `SemanticMir.AvailableMeans` | scripts/ci/check-semantic-mir-v1.py:134-158 | The values available at an instruction are the parameters of its block and the results of earlier instructions of the same block, nothing else |
| `SemanticMir.BlockIndexUnique` | scripts/ci/check-semantic-mir-v1.py:100-119 | Unique declaration identifiers give each jump target one block |
| `SemanticMirChecker.Complain` | scripts/ci/check-semantic-mir-v1.py:136-156 | No complaint about an instruction exactly when it is executable with the available values |
| `SemanticMirChecker.CheckDeclarations` | scripts/ci/check-semantic-mir-v1.py:103-119 | The length comparison of identifiers against their set decides uniqueness across declarations, places and cleanup scopes |
| `SemanticMirChecker.CheckInstructions` | scripts/ci/check-semantic-mir-v1.py:134-159 | The instruction loop ends without failure exactly at the full set of available values and features, and otherwise names the first instruction that is not executable |
| `SemanticMirChecker.CheckSuccessors` | scripts/ci/check-semantic-mir-v1.py:169-183 | All successors fit exactly when every one names a declared block and passes it available values of its parameter types; the flag is set exactly when one jumps to the same or an earlier block |
| `SemanticMirChecker.CheckTerminator` | scripts/ci/check-semantic-mir-v1.py:160-186 | A terminator passes exactly when its operands are available, its successor count suits its operation, its successors fit and its cleanup scopes are declared |
| `SemanticMirChecker.CheckReferences` | scripts/ci/check-semantic-mir-v1.py:120-128 | Passes exactly when place bases are declared values and cleanup actions are declared instructions |
| `AggregateLayout.ComputeTypeLayout` | scripts/ci/check-dynamic-aggregate-abi-v1.py:278-381 | The recursive layout with its loops and early errors computes the bounded layout function |
| `AggregateLayout.ComputeRecord` | scripts/ci/check-dynamic-aggregate-abi-v1.py:297-319 | The field loop computes the bounded record layout, with the error of the first field that fails |
| `AggregateLayout.PlaceNext` | scripts/ci/check-dynamic-aggregate-abi-v1.py:309-314 | One field is aligned, recorded and passed, or fails when its end exceeds the maximum |
| `AggregateLayout.ComputeEnum` | scripts/ci/check-dynamic-aggregate-abi-v1.py:337-380 | The variant loop computes the bounded tagged union, with the error of the first variant that fails |
| `AggregateLayout.SingleBitIsPower` | scripts/ci/check-dynamic-aggregate-abi-v1.py:255-257 | The bit test accepts exactly the powers of two |
| `Divisibility.PaddingMeans` | scripts/ci/check-dynamic-aggregate-abi-v1.py:258-259 | The padding of the model is the remainder of the negated value, as the source computes it |
| `Divisibility.RoundUpDivides` | scripts/ci/check-dynamic-aggregate-abi-v1.py:255-260 | Rounding up gives a multiple of the alignment |
| `Divisibility.DividesMeans` | scripts/ci/check-dynamic-aggregate-abi-v1.py:255-260 | Divisibility in the model is a zero remainder |
| `LayoutTheorems.BoundedIsExpected` | scripts/ci/check-dynamic-aggregate-abi-v1.py:255-381 | For every well-formed model the bounded arithmetic is exact: it returns the layout over unbounded integers, or asks for lowering when some layout it needs exceeds the maximum |
| `LayoutTheorems.AcceptedIffFits` | scripts/ci/check-dynamic-aggregate-abi-v1.py:255-381 | A model is accepted if and only if it is well formed and nothing in it is oversized, and then the result is the unbounded layout |
| `LayoutTheorems.AcceptedIsWellFormed` | scripts/ci/check-dynamic-aggregate-abi-v1.py:278-381 | Every accepted model is well formed at every depth |
| `LayoutRules.IsLayoutIff` | scripts/ci/check-dynamic-aggregate-abi-v1.py:255-381 | The computed layout is the only one that meets the layout rules, written without the computation: scalar widths, first aligned offsets, element strides, and for enums, options and results a tag of the smallest width, the first widest variant with its offsets shifted past the tag, and the size rounded up once |
| `LayoutRules.LayoutUnique` | scripts/ci/check-dynamic-aggregate-abi-v1.py:255-381 | At most one layout meets the layout rules |
| `LayoutRules.AcceptedIsLayout` | scripts/ci/check-dynamic-aggregate-abi-v1.py:255-381 | Whatever the bounded computation returns is the layout of the rules, and a model without any layout by the rules is refused |
| `LayoutRules.ReportedDefect` | scripts/ci/check-dynamic-aggregate-abi-v1.py:278-381 | A reported defect of the model is really there: an unknown scalar or kind, a missing payload, a missing, negative or excessive count, a record or enum without members or with too many |
| `LayoutRecords.LoweringRequiredIff` | scripts/ci/check-dynamic-aggregate-abi-v1.py:255-381 | For every well-formed model lowering is required exactly when its exact size exceeds the maximum or it holds an empty array of an element whose exact size does |
| `LayoutRecords.SizeDecidesIff` | scripts/ci/check-dynamic-aggregate-abi-v1.py:255-381 | The size alone gives the verdict if and only if it exceeds the maximum or no empty array hides an element that does |
| `LayoutRecords.NoEmptyArraysHideNothing` | scripts/ci/check-dynamic-aggregate-abi-v1.py:255-381 | In particular the size alone decides for every model without zero-count arrays |
| `LayoutRecords.SizeCanMislead` | scripts/ci/check-dynamic-aggregate-abi-v1.py:282-296 | A real input on which the size misleads: a zero-count array around six nested arrays of 4096 elements needs lowering under 2^64-1 although its own size is zero |
| `LayoutTheorems.Exact` | scripts/ci/check-dynamic-aggregate-abi-v1.py:278-381 | Every layout at any nesting has a power-of-two alignment that divides its size |
| `LayoutTheorems.ExactArray` | scripts/ci/check-dynamic-aggregate-abi-v1.py:282-296 | The array stride always equals the element size, and element offsets are its multiples |
| `LayoutTheorems.ExactEnum` | scripts/ci/check-dynamic-aggregate-abi-v1.py:337-380 | Reachable tag widths are only 1 or 2 |
| `LayoutPlacement.FieldPlaced` | scripts/ci/check-dynamic-aggregate-abi-v1.py:297-319 | A field is aligned, ends inside the record and is at most as aligned as the record |
| `LayoutPlacement.FieldTight` | scripts/ci/check-dynamic-aggregate-abi-v1.py:305-319 | No space is wasted: a field starts at the first aligned offset after the fields before it |
| `LayoutPlacement.FieldsApart` | scripts/ci/check-dynamic-aggregate-abi-v1.py:297-319 | Fields are in order and do not overlap |
| `LayoutPlacement.PayloadFits` | scripts/ci/check-dynamic-aggregate-abi-v1.py:347-380 | Every variant payload is aligned at the shared offset past the tag and fits, and its reported field offsets are its own shifted by that offset |
| `LayoutPlacement.PartOffsetReported` | scripts/ci/check-dynamic-aggregate-abi-v1.py:282-380 | The part offsets reasoned about are the offsets the layout record reports |
| `LayoutPlacement.DeepPartFits` | scripts/ci/check-dynamic-aggregate-abi-v1.py:278-381 | At any nesting depth a part is aligned from the start of the whole, lies inside it, and its alignment divides the alignment of the whole |
| `LayoutPlacement.DeepPartAligned` | scripts/ci/check-dynamic-aggregate-abi-v1.py:278-381 | The same alignment as a zero remainder |
| `LayoutPlacement.DeepPartsApart` | scripts/ci/check-dynamic-aggregate-abi-v1.py:278-381 | Parts at any depth that diverge at an array, struct or tuple never overlap |
| `LayoutPlacement.OffsetCompose` | scripts/ci/check-dynamic-aggregate-abi-v1.py:278-381 | The offset of a part of a part is the sum of the offsets |
| `LayoutPlacement.TagApart` | scripts/ci/check-dynamic-aggregate-abi-v1.py:337-380 | A tag at any depth never overlaps anything inside its payload |
| `LayoutRecords.OptionClosedForm` | scripts/ci/check-dynamic-aggregate-abi-v1.py:320-380 | An option has the alignment of its payload, size exactly payload size plus payload alignment, and a one-byte tag |
| `LayoutRecords.AlignmentAtMostEight` | scripts/ci/check-dynamic-aggregate-abi-v1.py:384-415 | On targets with pointers of at most eight bytes no alignment exceeds eight |
| `LayoutRecords.ComputeLayoutRecord` | scripts/ci/check-dynamic-aggregate-abi-v1.py:384-415 | A record exists exactly for supported targets and well-formed models that fit 2^64-1 and hide nothing larger in empty arrays; it carries the target, the layout identifier and the one layout the rules allow, and passes arguments and results directly exactly when the size is at most 16 bytes |
| `LifecycleInterpreter.ExecuteLifecycle` | scripts/ci/check-dynamic-aggregate-abi-v1.py:418-497 | The loop over event records, with missing, null and non-string members read as the source reads them, accepts exactly the sound traces of records, with the drop order, and otherwise stops at the first record the rules refuse, blames what the rules blame and keeps the drops so far |
| `LifecycleInterpreter.Execute` | scripts/ci/check-dynamic-aggregate-abi-v1.py:428-492 | One event updates the tables, or stops, as the transition function says |
| `LifecycleInterpreter.ExitEarly` | scripts/ci/check-dynamic-aggregate-abi-v1.py:483-490 | The reversed loop is the unwinding of the live values |
| `LifecycleTheorems.ReachableConsistent` | scripts/ci/check-dynamic-aggregate-abi-v1.py:418-497 | In every reachable state, also after a rejection: names are introduced once, dropped names are exactly those in the drop order, no value has both a mutable and a shared borrow, and no moved or dropped value has any borrow |
| `LifecycleTheorems.ApplyKeeps` | scripts/ci/check-dynamic-aggregate-abi-v1.py:428-492 | Every event keeps that invariant from every state that satisfies it |
| `LifecycleTheorems.NoDoubleDrop` | scripts/ci/check-dynamic-aggregate-abi-v1.py:418-497 | No run, accepted or rejected, drops a name twice |
| `LifecycleTheorems.EarlyExitDischarges` | scripts/ci/check-dynamic-aggregate-abi-v1.py:483-497 | A final early exit succeeds exactly when no live value is borrowed; it then drops exactly the live values in reverse introduction order and the final check cannot fail |
| `LifecycleTheorems.UnwindClears` | scripts/ci/check-dynamic-aggregate-abi-v1.py:485-490 | Unwinding stops exactly at a borrowed live value, and otherwise leaves nothing live |
| `LifecycleTheorems.UnwindDrops` | scripts/ci/check-dynamic-aggregate-abi-v1.py:485-490 | Unwinding appends the live names in reverse introduction order |
| `LifecycleTheorems.DeadNeverMentioned` | scripts/ci/check-dynamic-aggregate-abi-v1.py:423-490 | Once a value is moved or dropped, no later event of an accepted prefix creates, moves, borrows or drops that name again |
| `LifecycleChains.ChainsTrackOwnership` | scripts/ci/check-dynamic-aggregate-abi-v1.py:428-492 | The move chains partition the names of every reachable state: links are moved, only the last name of a chain can be live or dropped |
| `LifecycleChains.ChainsFollowEvents` | scripts/ci/check-dynamic-aggregate-abi-v1.py:428-492 | The chains are the event trace: heads are the created and cloned names in order, and each link is a move event |
| `LifecycleChains.AcceptedExactlyOnce` | scripts/ci/check-dynamic-aggregate-abi-v1.py:418-497 | In every accepted run the chains are disjoint, the dropped names are exactly the last names of the chains, none is dropped twice, and their number is creates plus clones |
| `LifecycleTrace.AcceptedIffPermitted` | scripts/ci/check-dynamic-aggregate-abi-v1.py:418-497 | A trace is accepted if and only if every event is permitted by the events before it and the trace ends with an early exit or with nothing owned; permission, ownership and outstanding borrows are defined from the events alone, without the table of values |
| `LifecycleTrace.RejectedIff` | scripts/ci/check-dynamic-aggregate-abi-v1.py:428-492 | A trace is rejected with an error at an event if and only if that event is the first the rules refuse and the error is the one its situation calls for |
| `LifecycleRecords.AcceptedIffSound` | scripts/ci/check-dynamic-aggregate-abi-v1.py:418-497 | Records are accepted if and only if every record is permitted by the records before it and the trace ends with an early exit or nothing owned; what is introduced, ended, shared, locked and returned is read off the members of the records |
| `LifecycleRecords.PermittedIff` | scripts/ci/check-dynamic-aggregate-abi-v1.py:418-492 | A record is permitted by its members exactly when the event it stands for is permitted, also when members are missing, null or no strings |
| `LifecycleRecords.RejectedIff` | scripts/ci/check-dynamic-aggregate-abi-v1.py:428-492 | Records are rejected with an error at a record if and only if it is the first one not permitted and the error is the one its members call for |
| `LifecycleRecords.RaisedMeans` | scripts/ci/check-dynamic-aggregate-abi-v1.py:493-497 | An undischarged trace names exactly the values introduced and neither moved nor dropped, in the order of introduction |
| `LifecycleRecords.AcceptedDrops` | scripts/ci/check-dynamic-aggregate-abi-v1.py:418-497 | The drop order of an accepted trace repeats nothing and is the names of its drop records in order, followed at an early exit by the names still owned, latest introduced first |
| `LifecycleTrace.RunsIffPermitted` | scripts/ci/check-dynamic-aggregate-abi-v1.py:428-492 | For every prefix the machine runs on exactly when every event so far is permitted, and its table then agrees with the trace on every name |
| `LifecycleTrace.AppliesIffPermitted` | scripts/ci/check-dynamic-aggregate-abi-v1.py:428-492 | The machine takes the next event exactly when the ownership rules permit it: exclusive mutation, shared reading, no use after a move or drop, fresh names only |
| `LifecycleTrace.AgreesStep` | scripts/ci/check-dynamic-aggregate-abi-v1.py:428-492 | Each accepted event keeps the table entry of every name equal to what the trace says: introduced, ended, and the borrows not yet returned |
| `Transcripts.MetadataRoundTrip` | scripts/ci/check-package-trust-contract.py:170-178 | A byte string is the metadata transcript of a domain and payload if and only if the parser recovers exactly those |
| `Transcripts.SignedMetadata` | scripts/ci/check-package-trust-contract.py:41-178 | A byte string is the root or the index transcript of a payload exactly when it parses to that payload under the domain string of the contract |
| `Transcripts.TranscriptParses` | scripts/ci/check-package-trust-contract.py:214-236 | The parser recovers the domain and every label and encoded value of a field transcript |
| `Transcripts.TranscriptRoundTrip` | scripts/ci/check-package-trust-contract.py:214-236 | A byte string is the transcript of a domain, labels and values if and only if the parser recovers that domain, those labels and the encodings of those values |
| `Transcripts.ParsedTranscriptEncodes` | scripts/ci/check-package-trust-contract.py:214-236 | Nothing else parses: every byte string the parser accepts is rebuilt by encoding what it returned |
| `Transcripts.EncodeFieldsIff` | scripts/ci/check-package-trust-contract.py:219-235 | Fields have a transcript exactly when each of them can be encoded |
| `Transcripts.TranscriptFixesEncodings` | scripts/ci/check-package-trust-contract.py:214-236 | Equal transcripts under the same labels fix the encoding of every field, whatever the kinds |
| `Transcripts.EncodeValueInjective` | scripts/ci/check-package-trust-contract.py:221-227 | Values with equal encodings are equal if and only if they are of the same kind |
| `Transcripts.PackageTranscriptInjective` | scripts/ci/check-package-trust-contract.py:181-236 | Under the contract's domain and field names, and with the kind of each field taken from its JSON value, packages with equal transcripts encode every field alike, and they are equal if and only if the kinds of their fields agree |
| `Transcripts.FieldsInjective` | scripts/ci/check-package-trust-contract.py:214-236 | Equal field transcripts have equal values if and only if their kinds agree position by position |
| `Transcripts.TranscriptsSeparated` | scripts/ci/check-package-trust-contract.py:41-236 | No byte string is two of a root, an index and a package transcript |
| `Transcripts.DomainsDiffer` | scripts/ci/check-package-trust-contract.py:41-43 | The three domain strings differ |
| `Transcripts.PackageFieldCount` | scripts/ci/check-package-trust-contract.py:44-68 | The package transcript has 23 fields |
| `Transcripts.PackageTranscriptHolds` | scripts/ci/check-package-trust-contract.py:44-68 | Parsing a package transcript gives the package domain and 23 fields in order, each with its own label and the encoding of its own value |
| `Transcripts.KindsCanCollide` | scripts/ci/check-package-trust-contract.py:221-227 | The kind condition is needed: an integer and the text of its eight bytes encode alike |
| `Transcripts.FrameParses` | scripts/ci/check-package-trust-contract.py:170-236 | A length-prefixed frame followed by anything parses to its payload and the rest |
| `Transcripts.ParsedFrameEncodes` | scripts/ci/check-package-trust-contract.py:170-236 | Whatever parses as a frame is the encoding of what it parsed to |
| `Transcripts.BigEndianRoundTrip` | scripts/ci/check-package-trust-contract.py:170-236 | Decoding a big-endian number of a width that fits gives the number |
| `SemVer.SemverOrder` | scripts/ci/check-package-trust-contract.py:543-565 | On parsable versions the comparison is sign-antisymmetric and transitive, returns zero exactly when the texts before the plus sign are identical, and returns -1 exactly by the precedence rules of section 11 of SemVer 2.0.0 |
| `SemVer.ComparesByPrecedence` | scripts/ci/check-package-trust-contract.py:543-565 | All three answers of the tuple comparison follow the precedence rules written out from the fields: core numbers, release above pre-release, then the first differing identifier, two numbers by size, a number below every text, two texts by the first differing character or as a proper prefix, and a list below every longer one it begins |
| `SemVer.CompareMeans` | scripts/ci/check-package-trust-contract.py:543-565 | On texts: -1 when either text is no version, and otherwise -1, 0 or 1 exactly as the versions they denote precede, equal or follow each other |
| `SemVer.ParsesIff` | scripts/ci/check-package-trust-contract.py:516-540 | A text parses to a version exactly when it denotes it: three numbers without leading zeros, an optional pre-release of non-empty identifiers over the identifier alphabet, numeric ones without leading zeros, and an optional build part that is dropped |
| `SemVer.VersionRoundTrip` | scripts/ci/check-package-trust-contract.py:516-540 | Rendering a parsed version gives back the text before the plus sign, so the parser is injective there |
| `SemVer.RenderedParses` | scripts/ci/check-package-trust-contract.py:516-540 | Conversely, parsing a rendered version gives the version back if and only if its text identifiers are non-empty, use the identifier alphabet and do not look like numbers |
| `SemVer.VersionTransitive` | scripts/ci/check-package-trust-contract.py:543-565 | Transitivity across numeric and alphanumeric identifiers and different lengths |
| `SemVer.VersionAntisymmetric` | scripts/ci/check-package-trust-contract.py:543-565 | Antisymmetry, and zero only for equal versions |
| `SemVer.DecimalRoundTrip` | scripts/ci/check-package-trust-contract.py:516-540 | Digits without a leading zero are the decimal text of their number |
| `KeySupersession.HasCycle` | scripts/ci/check-package-trust-contract.py:446-463 | The recursive search flags a cycle if and only if the supersession graph has one |
| `KeySupersession.PredecessorsAreLeaves` | scripts/ci/check-package-trust-contract.py:408-444 | When the local rules hold for every key, no predecessor itself has a predecessor |
| `KeySupersession.RulesExcludeCycles` | scripts/ci/check-package-trust-contract.py:405-463 | Hence the local rules alone exclude cycles |
| `KeySupersession.SupersessionInvalid` | scripts/ci/check-package-trust-contract.py:405-463 | The search is redundant: the whole check fails exactly when a local rule fails |
| `TrustKeys.NoKeyFailures` | scripts/ci/check-package-trust-contract.py:374-402 | A key list raises no failure exactly when its entries are well formed, filed under the fingerprint of their material and free of duplicates |
| `TrustKeys.TableKeys` | scripts/ci/check-package-trust-contract.py:374-402 | The key table holds exactly the listed identifiers, each with an entry of the list |
| `TrustKeys.FiledUnderFingerprint` | scripts/ci/check-package-trust-contract.py:365-402 | In a sound list every table entry sits under the fingerprint of its own key material |
| `TrustKeys.EligibleIff` | scripts/ci/check-package-trust-contract.py:723-739 | No eligibility failure exactly when the key has started, is not retired, and any revocation is recorded and lies ahead in sequence and time |
| `TrustKeys.UsableInterval` | scripts/ci/check-package-trust-contract.py:723-739 | A key is eligible during one window of sequence and time |
| `TrustKeys.IneligibilityLasts` | scripts/ci/check-package-trust-contract.py:723-739 | A retired or revoked key stays so at every later sequence and time |
| `Delegation.Walk` | scripts/ci/check-package-trust-contract.py:487-499 | The walk succeeds exactly for roles whose delegation chain reaches the root role, and stops on every chain, cyclic or broken |
| `Delegation.RoleMaps` | scripts/ci/check-package-trust-contract.py:466-502 | The role table and its failure flag: sound exactly when roles are well formed, unique, satisfiable by known keys and delegated from the root |
| `SignatureEvidence.NoFailuresMeansAttested` | scripts/ci/check-package-trust-contract.py:742-818 | For every key table, signature evidence raises no failure exactly when there is a role, every listed signature holds up, the distinct fingerprints of its keys reach the threshold and every required key signed; signers and count are then those of the list |
| `SignatureEvidence.CountsIff` | scripts/ci/check-package-trust-contract.py:761-812 | A signature counts exactly when its key is known, belongs to the role, is usable, matches the publisher where asked, and the signature over the message is valid |
| `SignatureEvidence.OnlyTheSetMatters` | scripts/ci/check-package-trust-contract.py:742-818 | Order and repetition of signatures change neither the failures nor the signers nor the count |
| `SignatureEvidence.PrintsOfFiled` | scripts/ci/check-package-trust-contract.py:804-815 | Keys filed under their fingerprints are told apart by them, so counting fingerprints is counting keys |
| `Freshness.RecordKeeps` | scripts/ci/check-package-trust-contract.py:1048-1096 | If the history is pairwise consistent and an index raises neither rollback nor replay, whatever else it raises, recording it keeps the history consistent, neither coordinate falls below its mark, and the marks are seen from then on |
| `Freshness.RunKeeps` | scripts/ci/check-package-trust-contract.py:1048-1096 | The same over every run of such snapshots, from any consistent history, the empty one included; nothing recorded is lost |
| `Freshness.RunNeverFalls` | scripts/ci/check-package-trust-contract.py:1048-1096 | Over every such run generation and sequence never fall, neither below the marks nor from one snapshot to a later one |
| `Freshness.RunNeverRebinds` | scripts/ci/check-package-trust-contract.py:1048-1096 | Over every such run position, snapshot identifier and digest determine each other |
| `Freshness.NotReplayedMeans` | scripts/ci/check-package-trust-contract.py:1067-1096 | No replay is reported exactly when the snapshot is compatible with every seen one |
| `Freshness.RepositionedIsRebound` | scripts/ci/check-package-trust-contract.py:1090-1096 | The second disjunct of the replay test is always implied by the rebound test |
| `Freshness.FreshnessMeans` | scripts/ci/check-package-trust-contract.py:1048-1096 | Each reason exactly: rollback when a coordinate is below its mark, replay when a seen snapshot is incompatible, missing offline input when nothing seen sits at the marks; and no other reason |
| `TrustEvaluator.Evaluate` | scripts/ci/check-package-trust-contract.py:860-1214 | The evaluation that accumulates failures in place trusts exactly when the flat rules on the documents hold and no other check failed; a rejection lists exactly the reasons the documents give, in the order of precedence, led by the first |
| `TrustTheorems.TrustedIff` | scripts/ci/check-package-trust-contract.py:860-1214 | The verdict over the collected reasons is trusted exactly under those independent conditions |
| `TrustConformance.TrustedIffRules` | scripts/ci/check-package-trust-contract.py:860-1214 | Trusted if and only if root, index and package rules hold, written over the fields of the documents alone: expiry after the verification time, versions and sequences at or above every given mark, issue before both expiries, grant fields equal to the request, version not below the minimum, signatures of enough different usable keys |
| `TrustConformance.RootRulesIff` | scripts/ci/check-package-trust-contract.py:894-1007 | No root failure exactly when the flat root rules hold |
| `TrustConformance.IndexRulesIff` | scripts/ci/check-package-trust-contract.py:1009-1096 | With a sound candidate root, no index failure exactly when the flat index rules hold |
| `TrustConformance.PackageRulesIff` | scripts/ci/check-package-trust-contract.py:1137-1214 | With a sound root and an authenticated index, no package failure exactly when the flat package rules hold |
| `TrustConformance.BodySoundIff` | scripts/ci/check-package-trust-contract.py:374-502 | Keys, supersession and roles of a root raise no failure exactly when every key is filed under its fingerprint, each once, superseding keys follow retired or revoked ones, and every role is staffed and leads back to the root role along delegations |
| `TrustConformance.VouchedIff` | scripts/ci/check-package-trust-contract.py:742-818 | Signature evidence is clean exactly when a role of that name has enough different keys, all usable, that signed this message |
| `TrustReasons.RejectedMeans` | scripts/ci/check-package-trust-contract.py:860-1349 | A rejection lists exactly the reasons that hold of the documents, by precedence |
| `TrustReasons.RootReportsIff` | scripts/ci/check-package-trust-contract.py:894-1007 | Each root reason is reported exactly when its condition on the roots holds |
| `TrustReasons.IndexReportsIff` | scripts/ci/check-package-trust-contract.py:1009-1096 | Each index reason is reported exactly when its condition on the index holds |
| `TrustReasons.PackageReportsIff` | scripts/ci/check-package-trust-contract.py:1137-1214 | Each package reason is reported exactly when its condition on the package holds |
| `TrustReasons.EvidenceReportsIff` | scripts/ci/check-package-trust-contract.py:742-818 | A list of signatures reports a reason exactly when some signature has it as its first fault, or too few different keys or not the required ones signed |
| `TrustReasons.KeysReportIff` | scripts/ci/check-package-trust-contract.py:374-402 | A key list reports a malformed, misfiled or repeated key exactly when it has one |
| `TrustReasons.IneligibleMeans` | scripts/ci/check-package-trust-contract.py:723-739 | Which of not yet valid, retired and revoked is reported for a key, read off its record, the sequence and the time |
| `TrustTheorems.TrustedChain` | scripts/ci/check-package-trust-contract.py:860-1214 | A trusted verdict implies the whole chain: the old root matches the anchor, the candidate is the next version with a higher sequence and is endorsed at threshold by the old and the new root role, index and package meet their thresholds, each counted over usable keys that differ in identifier and in fingerprint, the index is fresh, required signers are present and an exact namespace grant exists |
| `TrustTheorems.RootTrustedIff` | scripts/ci/check-package-trust-contract.py:894-1007 | No root failure exactly when both key and role tables are sound, transcripts are recorded, the anchor and rotation hold, nothing expired or rolled back, and all four signature lists attest |
| `TrustTheorems.IndexTrustedIff` | scripts/ci/check-package-trust-contract.py:1009-1096 | For every input, no index failure exactly when the index is recorded, current, attested at the demanded threshold and fresh; it is then authenticated |
| `TrustTheorems.PackageTrustedIff` | scripts/ci/check-package-trust-contract.py:1137-1214 | For every input, no package failure exactly when the version is high enough, the grant exact, the transcript recorded, the package attested by the required signers at the demanded threshold, and an authenticated index has reached its publication floors |
| `TrustTheorems.MessagesSeparated` | scripts/ci/check-package-trust-contract.py:41-236 | Under the three domains of the contract, what root, index and package keys sign are always different messages, so no signature can serve for another |
| `TrustTheorems.SignedPackageIsChecked` | scripts/ci/check-package-trust-contract.py:187-236 | In a trusted evaluation, whatever package fields the signed bytes encode carry the very version that was compared with the minimum, the threshold that was met and, where the package gives its floors as integers (only then are they compared), floors the index has reached; they are the fields that were checked if and only if the kinds agree |
| `TrustWitness.HolderIsTrusted` | scripts/ci/check-package-trust-contract.py:860-1214 | Trusted verdicts exist: whoever holds one valid key filed under its fingerprint, whose signatures hold, and can encode the documents has an input that is trusted, with that one key in a root role of threshold one |
| `TrustWitness.TrustedExists` | scripts/ci/check-package-trust-contract.py:860-1214 | In particular some input is trusted, with package fields its signed bytes encode |
| `TrustTheorems.DecisionMeans` | scripts/ci/check-package-trust-contract.py:1343-1349 | The decision is trusted exactly without failures, otherwise lists exactly the failures in the order of precedence with the first as primary |
| `TrustTheorems.PrecedenceComplete` | scripts/ci/check-package-trust-contract.py:69-114 | Every reason has a place in the precedence, so none can be lost |
| `TrustTheorems.TablesSoundIff` | scripts/ci/check-package-trust-contract.py:899-904 | A root raises no table failure exactly when its keys, supersession rules and roles are sound |
| `TrustEvaluator.Evaluator.KeyMaps` | scripts/ci/check-package-trust-contract.py:374-402 | Builds the key table and adds exactly the key failures to the shared set |
| `TrustEvaluator.Evaluator.ValidateKeySupersession` | scripts/ci/check-package-trust-contract.py:405-463 | Adds the supersession failure exactly when a local rule fails |
| `TrustEvaluator.Evaluator.RoleMaps` | scripts/ci/check-package-trust-contract.py:466-502 | Builds the role table and adds the delegation failure exactly when the roles are unsound |
| `TrustEvaluator.Evaluator.CollectEvidence` | scripts/ci/check-package-trust-contract.py:742-818 | Returns the signers and their count and adds exactly the evidence failures |
| `TrustEvaluator.Evaluator.EvaluateRoot` | scripts/ci/check-package-trust-contract.py:894-1007 | Adds exactly the root failures |
| `TrustEvaluator.Evaluator.EvaluateIndex` | scripts/ci/check-package-trust-contract.py:1009-1096 | Adds exactly the index failures, freshness only when authenticated, and returns whether the index is authenticated |
| `TrustEvaluator.Evaluator.EvaluatePackage` | scripts/ci/check-package-trust-contract.py:1137-1214 | Adds exactly the package failures |
| `CompatibilityChecker.CompatibilityReport` | scripts/ci/check-compatibility-v1.py:574-911 | A report exists exactly for the steps the rules allow, lists exactly what they report with versions, migration and replacement, in the order breaking, deprecated, additive, compatible, then kind, then identifier, and counts each severity; a refusal has a ground in the rules |
| `CompatibilityRules.AcceptedIffReportable` | scripts/ci/check-compatibility-v1.py:574-911 | A step is accepted if and only if it meets rules written over the two contracts and policies alone: both contracts sound, every surface, the compiler range, the edition and the policy allowed to change so, and the contract version raised far enough |
| `CompatibilityRules.SeverityIff` | scripts/ci/check-compatibility-v1.py:533-571 | The severity of a change for all four severities and for refusal, from versions, stabilities and signatures: compatible when only the patch rises and nothing else changes, additive when the major number and the signature stay and the minor rises or the surface becomes stable, deprecating when it becomes deprecated with its signature, breaking when the major rises or an experimental signature changes |
| `CompatibilityRules.MayBecomeIff` | scripts/ci/check-compatibility-v1.py:735-756 | A kept surface is allowed to change exactly by those rules, with a migration exactly for breaking and deprecating changes |
| `CompatibilityRules.MayGoIff` | scripts/ci/check-compatibility-v1.py:687-734 | A surface may go exactly when it is deprecated, the new contract records its removal in its own version, on or after the announced date, under a higher major number, with the announced replacement still offered |
| `CompatibilityRules.ContractSoundIff` | scripts/ci/check-compatibility-v1.py:357-512 | A contract is valid exactly when it is sound: surfaces well formed, strictly ordered by kind and identifier, each once, every kind present, and every replacement chain ending at a surface that is not deprecated |
| `CompatibilityRules.CompilerIff` | scripts/ci/check-compatibility-v1.py:758-789 | The compiler range: breaking exactly when it narrows, otherwise additive exactly when it widens, and a migration exactly for a breaking change |
| `CompatibilityRules.EditionIff` | scripts/ci/check-compatibility-v1.py:791-848 | The edition: breaking exactly when its identifier changes, deprecating exactly when the same edition becomes deprecated, and its status never goes back |
| `CompatibilityRules.PolicyIff` | scripts/ci/check-compatibility-v1.py:614-646 | The policy: its validity and its step by rules over its fields; any drift raises the version and names the transition from the old one, whose severity counts |
| `CompatibilityRules.ChangesMean` | scripts/ci/check-compatibility-v1.py:671-756 | The collected changes are exactly those the rules report |
| `CompatibilityRules.VersionIff` | scripts/ci/check-compatibility-v1.py:849-877 | The contract version step is allowed exactly when it is high enough for the gravest change the rules find |
| `CompatibilityChecker.CollectChanges` | scripts/ci/check-compatibility-v1.py:671-756 | The three loops over added, removed and kept surfaces refuse exactly when some surface is not allowed to change so, and collect exactly the changes |
| `CompatibilityChecker.CollectGroup` | scripts/ci/check-compatibility-v1.py:671-756 | One such loop over a group of identifiers |
| `CompatibilityChecker.Insert` | scripts/ci/check-compatibility-v1.py:829-837 | Keeping the list sorted neither loses nor adds a change |
| `CompatibilityChecker.CountsCover` | scripts/ci/check-compatibility-v1.py:838-841 | The four severity counts add up to the number of changes |
| `CompatibilityChecker.ValidateContract` | scripts/ci/check-compatibility-v1.py:357-512 | A contract is valid exactly when its parts are, its surfaces are listed properly, its replacement chains resolve and every kind occurs |
| `CompatibilityChecker.IndexSurfaces` | scripts/ci/check-compatibility-v1.py:427-485 | The surface loop succeeds exactly for duplicate-free sorted lists of well-formed surfaces and returns their index |
| `CompatibilityChecker.WalkReplacements` | scripts/ci/check-compatibility-v1.py:486-507 | The replacement walk ends at a non-deprecated surface exactly when the chain resolves, and stops on every cycle or gap |
| `CompatibilityChecker.CheckReplacements` | scripts/ci/check-compatibility-v1.py:486-507 | All chains resolve, or a surface whose chain does not is named |
| `Compatibility.BumpKind` | scripts/ci/check-compatibility-v1.py:523-530 | No bump exactly when the version does not rise; major and minor bumps by the first component that rises |
| `CompatibilityHistory.VersionFixesSemantics` | scripts/ci/check-compatibility-v1.py:735-756 | Over any accepted history in which a surface stays present its version never falls, and equal versions have equal semantics, so any change of semantics raised it |
| `CompatibilityHistory.StabilityNeverFalls` | scripts/ci/check-compatibility-v1.py:533-571 | Over any accepted history the stability of a surface never moves backwards |
| `CompatibilityHistory.MajorFixesSignature` | scripts/ci/check-compatibility-v1.py:533-571 | From any point where a surface is stable, all later versions of the same major number have the same kind and signature |
| `CompatibilityHistory.DeprecationFreezes` | scripts/ci/check-compatibility-v1.py:533-571 | Once deprecated a surface stays deprecated, its kind and signature never change, and its whole record (announcement, removal date, editions, migration, replacement) stays the same until the surface's major number rises |
| `CompatibilityHistory.DeprecatedStep` | scripts/ci/check-compatibility-v1.py:735-748 | One step of a deprecated surface either changes nothing but sources or is a breaking change under a new major number, because a deprecated surface must carry a migration and only breaking or deprecating changes may |
| `CompatibilityHistory.VanishesOnlyAfterDeprecation` | scripts/ci/check-compatibility-v1.py:687-734 | A surface vanishes in an accepted history only after deprecation: frozen since, contract major raised, the removal recorded in the new contract version, on or after the announced date and at least 180 days after the announcement, and a replacement path in the new contract that ends, without repeating, at a non-deprecated surface |
| `CompatibilityHistory.VanishingStep` | scripts/ci/check-compatibility-v1.py:687-734 | The same for one accepted step |
| `CompatibilityHistory.ProperRemovalAllowed` | scripts/ci/check-compatibility-v1.py:687-734 | Conversely, every proper removal is allowed |
| `CompatibilityHistory.ResolvingPath` | scripts/ci/check-compatibility-v1.py:486-507 | A resolving replacement chain is a path with strictly shrinking distance to its end, so it never repeats |
| `CompatibilityHistory.SurfaceStepVersion` | scripts/ci/check-compatibility-v1.py:533-571 | What one accepted step does to a kept surface: version, semantics, stability and signature |
| `CompatibilityHistory.ContractVersionNeverFalls` | scripts/ci/check-compatibility-v1.py:849-853 | The contract version never falls over an accepted history |
| `CompatibilityHistory.ContractVersionFixesSurfaces` | scripts/ci/check-compatibility-v1.py:849-853 | Equal contract versions anywhere in an accepted history have the same surfaces with the same semantics |
| `CompatibilityPromise.TrackKeepsSurfaces` | scripts/ci/check-compatibility-v1.py:849-877 | The promise of the contract version: over any accepted history a later release with the same major number (before 1.0 the same minor number too) still has every surface, with its kind and signature |
| `CompatibilityPromise.TrackFixesDeprecated` | scripts/ci/check-compatibility-v1.py:735-877 | Over any accepted history a later release on the same track repeats the whole record of every deprecated surface, with its dates, editions, migration and replacement |
| `CompatibilityPromise.PatchFixesOffer` | scripts/ci/check-compatibility-v1.py:849-877 | From 1.0 on, releases of one minor line have the same surfaces at the same stability with the same kinds and signatures |
| `CompatibilityPromise.TrackStep` | scripts/ci/check-compatibility-v1.py:687-756 | One accepted step on the same track removes nothing and changes no signature |
| `CompatibilityPromise.PatchStep` | scripts/ci/check-compatibility-v1.py:671-756 | One accepted step within a minor line adds, removes, deprecates and stabilizes nothing |
| `CompatibilityPromise.ClassifyMeans` | scripts/ci/check-compatibility-v1.py:533-571 | A changed signature is always breaking; a change called compatible keeps stability and signature and raises only the patch number |
| `MachO.NormalizedMachO` | scripts/ci/check-stage1-benchmarks.py:173-199 | Editing the copy in place gives the normal form: same length, exactly the UUID bodies and signature ranges of the walked commands zeroed, everything else unchanged |
| `MachO.NormalizeMeans` | scripts/ci/check-stage1-benchmarks.py:173-199 | In a thin image, whose commands stand one behind the other from byte 32 or 28 as the magic number says, exactly the 16 bytes after the header of a 0x1B command and the range given by a 0x1D command become zero |
| `MachO.OthersStay` | scripts/ci/check-stage1-benchmarks.py:174-177 | Without either magic number nothing changes |
| `MachO.ClearCommands` | scripts/ci/check-stage1-benchmarks.py:181-198 | The command loop clears what the walked commands name, whether it breaks or completes |
| `MachO.WordDecodesSlice` | scripts/ci/check-stage1-benchmarks.py:179-179 | Words of the model are the little-endian numbers of the slices the source decodes, also when cut short |
| `MachO.SignaturesLastIdempotent` | scripts/ci/check-stage1-benchmarks.py:173-199 | When all declared commands are walked and every signature range starts at or after their end, normalizing twice equals normalizing once |
| `MachO.IdempotentIff` | scripts/ci/check-stage1-benchmarks.py:173-199 | Normalizing twice equals normalizing once if and only if the input is not thin, or a magic byte is cleared, or the commands of the cleared image name only bytes that were cleared before or are zero |
| `MachO.NormalIff` | scripts/ci/check-stage1-benchmarks.py:173-199 | An image is left unchanged exactly when it is not thin or is zero wherever its commands would clear it |
| `MachO.ThinUnlessMagicCleared` | scripts/ci/check-stage1-benchmarks.py:176-197 | The cleared image is still thin exactly when no magic byte was cleared |
| `MachO.UndisturbedIsIdempotent` | scripts/ci/check-stage1-benchmarks.py:173-199 | In particular whenever clearing changes no header and no signature range the walk reads: a cleared magic ends the matter and a lowered command count only shortens the second walk |
| `MachO.SelfClearingNotIdempotent` | scripts/ci/check-stage1-benchmarks.py:173-199 | Without a condition idempotence fails: a concrete binary whose signature range covers its own command |
| `MachO.RepetitionSettles` | scripts/ci/check-stage1-benchmarks.py:173-199 | For every input repetition reaches a fixed point within as many passes as there are non-zero bytes |
| `Paths.NormalizeFixturePath` | scripts/ci/check-filesystem-v1.py:523-535 | The component loop with its stack computes the normal form or the failure |
| `Paths.NormalFormMeans` | scripts/ci/check-filesystem-v1.py:523-535 | A path fails exactly when some prefix has more parent steps than names; otherwise its normal form is made of exactly the names that no later parent step takes back, in order, joined by slashes |
| `Paths.ReadsIff` | scripts/ci/check-filesystem-v1.py:526-527 | The components are the only way to read the path between slashes, and between backslashes too under Windows |
| `Paths.SucceedsIff` | scripts/ci/check-filesystem-v1.py:523-535 | Normalization succeeds exactly when no component prefix has more parent steps than names, and the result has only proper names |
| `Paths.ResolvesIff` | scripts/ci/check-filesystem-v1.py:527-534 | The same from any starting stack, with the depth of the result |
| `Paths.Idempotent` | scripts/ci/check-filesystem-v1.py:523-535 | A normal form normalizes to itself, for both origins |
| `Paths.Compositional` | scripts/ci/check-filesystem-v1.py:523-535 | Normalizing p/q equals normalizing the normal form of p followed by /q, including failure, for both origins |
| `Paths.AppendName` | scripts/ci/check-filesystem-v1.py:527-534 | Appending a name appends it to the normal form, and a following parent step takes back exactly that name |
| `Paths.AppendNothing` | scripts/ci/check-filesystem-v1.py:527-529 | Empty and dot components change nothing |

## Left out

- Ed25519, SHA-256, canonical JSON and UTF-8 are abstract: signature validity, digests, key fingerprints and encodings are functions given as a parameter.
- TrustEvaluator.Evaluate: release selection, duplicate releases, target paths, provenance, offline-lock and field-equality checks enter only as one given set of further failures; the verdicts account for that set, but what those checks compute is not modelled. The early return for missing top-level objects and a caller-supplied reason precedence are not modelled.
- TrustConformance.TrustedIffRules: the same further failures enter as one given set.
- TrustTheorems.SignedPackageIsChecked: that the index bytes encode the generation and sequence compared with is not stated, because the encoding of the index body is abstract.
- Malformed JSON values in trust and compatibility inputs are collapsed: a field of the wrong type is a missing option value; Python exceptions on such values outside the handled cases are not modelled.
- LifecycleInterpreter.ExecuteLifecycle: lists and objects in the place of a name or a borrow identifier are not modelled; the source raises an uncaught type error on most of them.
- Error messages are values of a datatype that keep the offending identifier or cycle, not the exact text.
- SemVer.SemverOrder: versions are ASCII; Unicode digits and letters that Python also accepts are left out.
- SemVer.VersionRoundTrip: the same restriction to ASCII texts.
- SemVer.CompareMeans: the same restriction to ASCII texts.
- SemVer.ParsesIff: the same restriction to ASCII texts.
- SemVer.RenderedParses: the same restriction to ASCII texts.
- KeySupersession.SupersessionInvalid: lists and objects among the superseded identifiers, on which the source raises an uncaught type error, are not modelled.
- SemanticMir.SafeIffNoRunFaults: values carry a type name and an opaque payload; what an operation computes is arbitrary, and runs may start at any block because the source fixes no entry block.
- CompatibilityChecker.IndexSurfaces: identifier patterns, the source list of a surface and the rejection of implementation words are left out; they concern one text at a time.
- CompatibilityChecker.ValidateContract: the same text checks on identifiers, editions and migrations are left out.
- CompatibilityRules.ContractSoundIff: the same text checks are left out.
- CompatibilityChecker.CompatibilityReport: the report holds the changes and their counts; the copied contract, compiler, edition and policy versions and the description texts are left out.
- Compatibility policies keep the deprecation rules, versions, editions and transition; the remaining policy text is one opaque value compared for equality, and schema validation of policies is left out.
- Dates are day numbers; parsing of calendar dates is left out.
- The order key of filesystem entries is a tuple comparison and would only add an easy member.
- JSON Schema validators, snapshot and constant comparison checkers, the process lifecycle table, the snapshot bootstrap chain and the readiness row validators are left out: constant or finite comparisons.
- File reading, subprocesses, compiler builds, benchmark timing, documentation scans and issue-state queries are left out.
