# Verified models

A Dafny 4.11 project beside the repository. Each module models one part of it and proves what that part
promises, for every input, every run or every interleaving. `dafny verify dfyconfig.toml` checks all of it.

- **Analytic reducer** (`Analytic*.dfy`, `Rationals`, `DecimalScales`, `Decimals`, `Numerals`, `Arithmetic`,
  `Sorting`, `Permutations`, `Sets`, `GoText`, `Seqs`, `Options`): `EvidenceAdapter.Aggregate` as an
  imperative program whose maps are visited in an arbitrary order, proved against a mathematical specification
  (`AnalyticSpec`) that has one answer; the exact decimals it prints; and `validateResult`, with the exact set
  of answers it accepts.
- **Scalar sums** (`ScalarSum`, `ScalarDecimals`, `ScalarReads`): exact coefficients and scales, one canonical text per number.
- **Addresses** (`Address`, `Octets`, `Utf8`, `Segments`, `Paging`, `LosslessPages`, `Spans`): printer and parser as
  inverses, resumable pages and character spans over UTF-8 as RFC 3629 defines it in sections 3 and 4.
- **Parser supervisor** (`Supervisor*.dfy`): the lifecycle of the two parser runs against any dispatcher. The
  class keeps a log of what it accepted and did; `SupervisorLog` says what a sound log means,
  and `SupervisorStop` interleaves `request_stop` with the signals that call it.
- **Ingestion** (`Versions`, `Reconciliation`, `Heartbeat`): version histories, absence, and the
  cancel-and-drain protocol of the heartbeat.
- **Audit and conversations** (`AuditChain`, `AuditStore`, `AuditCalls`, `ConversationArchive`,
  `ConversationPages`): interleaved transactions on the hash chain, the events of each call among them, archive
  commands, and keyset pages.
- **Catalogs and seals** (`Catalog`, `CatalogRuns`, `BindingSeal`).

How the models speak:

- A Go string is a Dafny `string` with one character per byte; words outside ASCII are written as their bytes.
  The bytes of paged originals and of seals are a `byte` type.
- A map iteration takes keys in an arbitrary order. `sort.Slice` is an insertion sort by the same order, whose
  result on distinct keys is the only sorted one. `big.Rat` is a coprime pair with a positive denominator.
- Hashes, canonical JSON and shape checks on identifiers are function parameters. A property that needs a
  collision-free digest says so in its `requires`, for the values concerned where that is enough.
- What the environment decides (status documents, clocks, signals, failing system calls, competing
  transactions) is an arbitrary choice. A supervisor run is observed for finitely many status readings and
  signals.
- Where a property the code is expected to have fails, the model keeps the code: `RequestIsAccepted`,
  `LosslessExactly`, `NeverMovesExactly` and `EventsPerCall` give the exact conditions, beside concrete inputs or
  runs that fail.
- The comment above `Read` promises that pages concatenate to the original; the code skips continuation bytes
  that belong to no rune, so for malformed originals that does not hold. The model follows the code.

## Model

| member | source | states |
|---|---|---|
| AnalyticFinish.Aggregate | internal/analytic/aggregate.go:149-361 | succeeds exactly for requests that reduce (valid, bounded, resolvable, complete, few enough tuples), and then returns the mathematical answer, whatever order its maps are visited in; else the code of the first failing check, and in the row loop Conflict only if some row carries two labels and Incomplete only if some row lacks one or there are too many tuples |
| AnalyticFinish.AnswersAgree | internal/analytic/aggregate.go:225-361 | a request has at most one answer, so map iteration order cannot show |
| AnalyticSpec.AnswerIsUnique | internal/analytic/aggregate.go:327-361 | one ranking, one bucket list, one text and one witness list per bucket |
| AnalyticResults.AnswerTellsValues | internal/analytic/aggregate.go:307-326 | every printed bucket: SUM, MIN, MAX and COUNT exactly; AVG exactly when it has finitely many digits, else within half a unit of a digit no coarser than the sixth |
| AnalyticResults.PrintTells | internal/analytic/aggregate.go:349-359 | the same for one bucket, from its exact value and print scale |
| AnalyticResults.ValueIsWhole | internal/analytic/aggregate.go:295-303 | a sum, count, minimum or maximum has no digits beyond the largest scale of its inputs |
| AnalyticResults.EveryInputIsWitnessedOnce | internal/analytic/aggregate.go:276-303 | before the limit every metric cell, or for COUNT one cell of every row, is witnessed in exactly one bucket |
| AnalyticResults.OneBucketPerTuple | internal/analytic/aggregate.go:257-275 | before the limit every distinct group tuple has exactly one bucket |
| AnalyticResults.LimitCutsTheFront | internal/analytic/aggregate.go:341-345 | a limited answer is the first limit buckets of the unlimited one |
| AnalyticResults.ValueExists | internal/analytic/aggregate.go:307-326 | every group tuple of complete rows has a value, also for MIN and MAX |
| AnalyticPlan.GroupRows | internal/analytic/aggregate.go:164-175 | accepts exactly valid cells with distinct evidence ids, groups them by row in order, and otherwise names the fault |
| AnalyticPlan.ApplyFilters | internal/analytic/aggregate.go:389-418 | keeps exactly the rows that satisfy every equality filter, in any visiting order |
| AnalyticPlan.CollectColumns | internal/analytic/aggregate.go:180-190 | the identities of the numeric and of the other columns of the rows |
| AnalyticPlan.ChooseColumn | internal/analytic/aggregate.go:448-472 | the requested column if it exists, else the only column, else none |
| AnalyticPlan.ChooseGroupColumns | internal/analytic/aggregate.go:474-516 | all requested columns, or the single context column for a single unresolved request, or none |
| AnalyticPlan.ValidateSpec | internal/analytic/aggregate.go:420-446 | accepts exactly well-formed specifications with pairwise different group terms, and says which error otherwise |
| AnalyticPlan.ResolvePlan | internal/analytic/aggregate.go:191-214 | resolves exactly when a plan exists, with the SUM to COUNT fallback only without any numeric column |
| AnalyticPlan.ResolutionIsUnique | internal/analytic/aggregate.go:191-214 | a request resolves to at most one plan |
| AnalyticRows.ReadRow | internal/analytic/aggregate.go:228-256 | the labels, witnesses and numbers of a row; refused exactly when a label is missing or contradicted or the metric is missing |
| AnalyticBuckets.AddRow | internal/analytic/aggregate.go:276-303 | one more row: value, count, scale, witnesses and filter proofs extend by exactly its cells |
| AnalyticBuckets.AppendFilterEvidence | internal/analytic/aggregate.go:364-387 | appends every cell that satisfies an equality filter once, and nothing else |
| AnalyticBuckets.MergeGroupEvidence | internal/analytic/aggregate.go:267-275 | keeps per dimension the witness with the smaller id |
| AnalyticBuckets.LeastGroupRefAdd | internal/analytic/aggregate.go:267-275 | the kept witness is the least among all rows so far |
| AnalyticReducer.ReduceRows | internal/analytic/aggregate.go:225-306 | succeeds exactly on complete rows with at most 128 tuples, with one bucket per tuple describing exactly its rows |
| AnalyticFinish.ChooseExtremum | internal/analytic/aggregate.go:546-566 | the best of the metric cells whose evidence is listed, and nothing only if there is none |
| AnalyticFinish.FinishAverage | internal/analytic/aggregate.go:311-320 | the exact quotient, and its scale: the least exact one or at least six |
| AnalyticFinish.Finish | internal/analytic/aggregate.go:307-326 | a reduced bucket gets the exact value and print scale of its function |
| AnalyticFinish.RenderAll | internal/analytic/aggregate.go:327-361 | the buckets in value and key order, cut to the limit and printed |
| AnalyticOrder.AnswerIsOrdered | internal/analytic/aggregate.go:329-340 | of two shown buckets the earlier has the larger value under DESC and the smaller under ASC; ties, and any other order, go by the bytes of the bucket key |
| AnalyticOrder.OmittedStandBehind | internal/analytic/aggregate.go:341-347 | no tuple that a limit leaves out belongs before one it shows |
| AnalyticOrder.EvidenceAscends | internal/analytic/aggregate.go:353-356 | witnesses and filter proofs of a bucket ascend by the bytes of their ids |
| AnalyticOrder.CountWitnessIsLeast | internal/analytic/aggregate.go:278-286 | a counted row is witnessed by its cell with the least id |
| AnalyticOrder.FilterInputs | internal/analytic/aggregate.go:364-387 | a cell proves a filter exactly when some equality filter names its column, in any spelling, and its value, in any case |
| AnalyticOrder.MetricInputs | internal/analytic/aggregate.go:231-234 | the numbers of a row are its numeric cells under the metric in any spelling |
| AnalyticOrder.GroupInputs | internal/analytic/aggregate.go:235-247 | the labels of a row under a group are its other cells in that column in any spelling |
| DecimalScales.TerminatingDecimalScale | internal/analytic/aggregate.go:586-608 | exact if and only if the value has a finite decimal expansion, and then the least k with value * 10^k an integer |
| DecimalScales.IntegralScales | internal/analytic/aggregate.go:586-608 | the scales at which a fraction is integral, from the twos and fives of its denominator |
| DecimalScales.FloatStringExact | internal/analytic/aggregate.go:359 | at a scale where the value is integral the text denotes the value |
| DecimalScales.FloatStringNearest | internal/analytic/aggregate.go:359 | at any scale the text is a decimal at most half a unit of its last digit away |
| Decimals.DecimalScale | internal/analytic/aggregate.go:579-584 | the digits after the point of a decimal text |
| AnalyticCells.TermIdentityIsIdempotent | internal/analytic/aggregate.go:642-648 | a column identity is its own identity |
| GoText.TrimmedParts | internal/analytic/aggregate.go:643 | trimming takes white space off both ends and nothing else |
| GoText.IsSpaceExactly | internal/analytic/aggregate.go:643 | on ASCII white space is tab to carriage return and space |
| GoText.EqualFoldExactly | internal/analytic/aggregate.go:375 | on ASCII two values are equal under folding exactly when their letters agree up to case |
| GoText.IsSha256Exactly | internal/analytic/aggregate.go:654-667 | a content digest is sha256 and 64 lowercase hexadecimal digits |
| AnalyticCells.CompositeKeyIsInjective | internal/analytic/aggregate.go:518-527 | two lists of strings with one key are one list, whatever characters they hold |
| AnalyticCells.CompositeKeyOfSum | internal/analytic/aggregate.go:518-527 | the key of a list is the keys of its parts one behind the other |
| AnalyticCells.CompositeKeyOfOne | internal/analytic/aggregate.go:518-527 | the key of one value is its length, a colon, the value and a bar |
| AnalyticCells.BucketKeyIsInjective | internal/analytic/aggregate.go:257-260 | the bucket key names the tuple, and no composite key is __all__ |
| AnalyticCells.TermIdentityExactly | internal/analytic/aggregate.go:640-648 | a term is its column without surrounding white space in lower case, and its JSON pointer as it stands |
| AnalyticCells.TemporalExactly | internal/analytic/aggregate.go:539-544 | a column is temporal exactly when it names a date or a time or ends in _at or _on, in any case |
| AnalyticCells.KeyedDigestParts | internal/analytic/aggregate.go:147 | a keyed digest is hmac-sha256, a key version of up to nine digits, and 64 hexadecimal digits |
| AnalyticCells.KeyedDigestOf | internal/analytic/aggregate.go:147 | and every such text is one |
| AnalyticCells.ValidCellExactly | internal/analytic/aggregate.go:615-638 | which fields of a valid cell are opaque names, which are keyed digests, and that a number is a decimal |
| AnalyticCells.JoinOfSum | internal/analytic/aggregate.go:529-537 | joined parts are parts joined |
| AnalyticCells.GroupLabelExactly | internal/analytic/aggregate.go:529-537 | the label of no group is __all__, of one value the value, of more their labels behind a slash between spaces |
| AnalyticRegistry.ValidateResult | internal/analytic/registry.go:304-378 | accepts exactly the results with matching header, labels and arity, decimal values, known and non-duplicate witnesses, group witnesses disjoint from numeric ones |
| AnalyticRegistry.CheckRefs | internal/analytic/registry.go:344-352 | one witness loop: every reference known and no id seen before |
| AnalyticRegistry.IndexEvidence | internal/analytic/registry.go:317-320 | the known evidence of an id is that of the last cell with it |
| AnalyticRegistry.AcceptedMeans | internal/analytic/registry.go:321-375 | every bucket of an accepted result has a decimal value, a positive count, witnesses that are cells of the request, and the label its values join to |
| AnalyticAgreement.RequestIsAccepted | internal/analytic/registry.go:304-378 | from the request alone and for any limit: the answer is accepted if and only if the function is not replaced by COUNT, the joined labels of the leading tuples fit 256 bytes, and none of them shares its witness with a counted row; for a limit that cuts nothing that is so of all tuples |
| AnalyticAgreement.OrdinaryRequestIsAccepted | internal/analytic/registry.go:304-378 | for an ungrouped COUNT or a resolved SUM, AVG, MIN or MAX: if and only if the labels of the leading tuples fit |
| AnalyticAgreement.AnswerIsAccepted | internal/analytic/registry.go:304-378 | for any limit, validateResult accepts an answer if and only if the function was not replaced by COUNT and the shown labels fit and share no witness with a counted row |
| AnalyticAgreement.OrdinaryAnswerIsAccepted | internal/analytic/registry.go:304-378 | for an ungrouped COUNT or a resolved SUM, AVG, MIN or MAX only the length of the shown labels remains |
| AnalyticRefusals.GroupedCountIsRefused | internal/analytic/registry.go:371-375 | a grouped COUNT of one labelled cell reduces, and every answer to it is refused |
| AnalyticRefusals.FallbackIsRefused | internal/analytic/registry.go:305-308 | a SUM of one text cell reduces, and every answer to it is refused |
| ScalarSum.Reduce | internal/analyticsource/scalar_sum.go:47-178 | succeeds exactly on reducible reads (all grains distinct, one column) and prints the exact sum of the measure cells canonically |
| ScalarSum.ReducibleInAnyOrder | internal/source/postgresqlquery/identity.go:61-75 | if the snapshot hash depends only on the multiset of row hashes, a reordered read reduces exactly when the original does |
| ScalarSum.SameRowsSameSum | internal/analyticsource/scalar_sum.go:85-171 | a reordered read of a reducible one reduces, and exactly to the same text, hash and row count |
| ScalarSum.AddedOfPermutation | internal/analyticsource/scalar_sum.go:85-171 | the exact sum does not depend on row order |
| ScalarSum.CheckOrdinals | internal/analyticsource/scalar_sum.go:48-61 | accepts exactly positive, distinct identity ordinals other than the measure |
| ScalarSum.CheckSnapshot | internal/analyticsource/scalar_sum.go:63-83 | accepts exactly complete, counted, sized and hashed snapshots |
| ScalarSum.CheckRow | internal/analyticsource/scalar_sum.go:93-158 | accepts exactly rows with their own bytes and hash, unique ordinals, a numeric measure and non-null identities |
| ScalarSum.MeasureIsExact | internal/analyticsource/scalar_sum.go:139-158 | the coefficient and scale of a measure are its text's value and scale |
| ScalarReads.MeasureExactly | internal/analyticsource/scalar_sum.go:127-158 | an INT carries a number exactly for a decimal without a point that is not -0, a NUMERIC exactly for a decimal that is no negative zero, nothing else ever does |
| ScalarReads.RowExactly | internal/analyticsource/scalar_sum.go:93-158 | the check on a row accepts exactly the rows of their own bytes and hash with positive different ordinals, a number under the measure and an entry that is not NULL under each identity |
| ScalarReads.GrainExactly | internal/analyticsource/scalar_sum.go:119-128 | the grain is the identity entries in ascending order of their ordinals |
| ScalarReads.ColumnsExactly | internal/analyticsource/scalar_sum.go:159-170 | two measures are of one column exactly when type, tag, fingerprint and scale agree |
| ScalarReads.OneRowReduces | internal/analyticsource/scalar_sum.go:47-178 | a sealed snapshot of one sound row reduces to the number of its measure |
| ScalarDecimals.NumericCoefficientIsExact | internal/analyticsource/scalar_sum.go:186-205 | coefficient and scale denote the text; only a negative zero is refused |
| ScalarDecimals.ScalarSumDecimalIsCanonical | internal/analyticsource/scalar_sum.go:210-232 | no leading zeros, no trailing fractional zeros, no negative zero, and the value is coefficient / 10^scale |
| ScalarDecimals.CanonicalIsUnique | internal/analyticsource/scalar_sum.go:207-209 | two canonical decimals of one value are one text |
| ScalarDecimals.PrintsAlikeIffEqual | internal/analyticsource/scalar_sum.go:210-232 | two sums print alike if and only if c * 10^t equals d * 10^s |
| ScalarDecimals.PrintedReparses | internal/analyticsource/scalar_sum.go:186-232 | a printed sum re-parses to the same number at the least scale |
| Address.ParseOfText | internal/address/address.go:133-154 | Parse undoes String on every well-formed address |
| Address.TextOfParse | internal/address/address.go:159-226 | what parses is the text of a well-formed address |
| Address.OneTextPerAddress | internal/address/address.go:133-226 | exactly the texts of well-formed addresses parse, each to its one address |
| Address.SpanParses | internal/address/address.go:143-154 | the span field is colon-free and parses back to kind and coordinates |
| Address.ParsedRange | internal/address/address.go:257-274 | a range that parses is the canonical text of ordered, unsigned machine integers |
| Address.ParsedAux | internal/address/address.go:247-253 | a locator that parses splits at its only separator |
| Address.ValidHash16 | internal/address/address.go:290-300 | accepts exactly sixteen lowercase hexadecimal characters |
| Address.AtoiOf | internal/address/address.go:515-527 | an optional sign and digits denote their number if it fits 64 bits |
| Address.AtoiTakes | internal/address/address.go:515-527 | and nothing else parses |
| Utf8.DecodeOfEncode | internal/address/address.go:545-556 | decoding undoes encoding of scalar values, and encodings are valid |
| Utf8.EncodeOfDecode | internal/address/address.go:545-556 | encoding undoes decoding of valid UTF-8 |
| Utf8.BoundaryIsStart | internal/address/address.go:473-475 | in valid UTF-8 the boundaries are the rune starts and the end |
| Paging.Read | internal/address/address.go:458-490 | one page from a cursor, or the refusal |
| Paging.PageEnd | internal/address/address.go:496-513 | the end of a page |
| Paging.PageFromBoundary | internal/address/address.go:496-513 | a page from a boundary is valid UTF-8 and over its limit only as one longer rune |
| Paging.CursorContinues | internal/address/address.go:484-487 | a page with more leaves a cursor further on, from which every limit that fits the machine integer beside the length reads on |
| Paging.WalkTerminates | internal/address/address.go:458-490 | a walk has at most as many pages as the original has bytes |
| Paging.WalkContinues | internal/address/address.go:458-490 | an unfinished walk can be continued with any limit |
| Paging.WalkReproduces | internal/address/address.go:427-429 | for any limits the pages of an original without stray continuation bytes concatenate to it; on valid UTF-8 each page is valid and only the last complete |
| LosslessPages.LosslessExactly | internal/address/address.go:473-475 | every finished walk, whatever its limits, gives the original back if and only if no continuation byte stands outside a rune |
| LosslessPages.OneByteWalkEnds | internal/address/address.go:458-490 | a walk in pages of limit one can be read on to its end |
| LosslessPages.StrayTailsAreLost | internal/address/address.go:473-475 | FF 80 80 in pages of limit one comes back as FF |
| Spans.RuneByteOffsets | internal/address/address.go:545-556 | the offset table of the original |
| Spans.OffsetsIncrease | internal/address/address.go:545-556 | for any bytes the table is strictly increasing from zero to the length |
| Spans.OffsetsTile | internal/address/address.go:545-556 | from one entry to the next is one rune or malformed byte |
| Spans.TextSpan | internal/address/address.go:531-540 | the bytes between two table entries, or the refusal |
| Spans.SpanIsEncodedSlice | internal/address/address.go:531-540 | on valid UTF-8 a span succeeds exactly within the text and encodes the code points between its bounds |
| Spans.SpansConcatenate | internal/address/address.go:531-540 | adjacent spans concatenate |
| SupervisorStatus.RedIsGlobal | deploy/supervisor/native_ingest_supervisor.py:218-249 | in an acceptable document the dispatcher, some role and every role are red together |
| SupervisorStatus.AcceptedIsFresh | deploy/supervisor/native_ingest_supervisor.py:219-223 | an acceptable document is at most one second ahead and under five behind its reader |
| SupervisorStatus.AcceptableExactly | deploy/supervisor/native_ingest_supervisor.py:193-249 | exactly these documents are acceptable: schema, epoch, sequence, state, validity of five seconds, two sound roles, red together |
| SupervisorStatus.HandoffIdExactly | deploy/supervisor/native_ingest_supervisor.py:52 | a handoff id is 32 to 128 letters, digits or one of . _ -, beginning with a letter or digit |
| SupervisorStatus.StatusSequence.Accept | deploy/supervisor/native_ingest_supervisor.py:260-270 | accepts exactly the same epoch, no older sequence and no rewritten number |
| SupervisorLog.StartIsAuthorized | deploy/supervisor/native_ingest_supervisor.py:546-554 | every runc start follows its registration, its ACK and then a handed_off status of the same id and epoch above the baseline |
| SupervisorLog.StartedOnce | deploy/supervisor/native_ingest_supervisor.py:1597-1601 | a handoff is started once |
| SupervisorLog.DeleteIsAuthorized | deploy/supervisor/native_ingest_supervisor.py:1658-1677 | every runc delete of an owned run follows two accepted reaped statuses of its epoch and handoff, each with process exited and cgroup empty |
| SupervisorLog.RegistrationFindsRoleFree | deploy/supervisor/native_ingest_supervisor.py:1530-1557 | a run is registered only above the sequence of an accepted status of a running dispatcher that shows its role empty or reaped |
| SupervisorLog.OneOwnedRun | deploy/supervisor/native_ingest_supervisor.py:1526-1557 | a role owns at most one run at every moment |
| SupervisorLog.NoLaunchAfterStop | deploy/supervisor/native_ingest_supervisor.py:1526-1529 | no launch begins after stop was requested |
| SupervisorLog.OneRegistrationAfterStop | deploy/supervisor/native_ingest_supervisor.py:1526-1557 | after stop only the launch in flight can still register its run |
| SupervisorLog.ReapDeadlineNeverMoves | deploy/supervisor/native_ingest_supervisor.py:1690-1694 | the reap deadline of a handoff is set at most once |
| SupervisorLog.DeadlineSettles | deploy/supervisor/native_ingest_supervisor.py:1722-1725 | once a request_stop has returned with no other in progress, the shutdown deadline is set and never moves |
| SupervisorStop.NeverMovesExactly | deploy/supervisor/native_ingest_supervisor.py:1722-1725 | a deadline that is set stays for good, under every nesting of calls and every clock, if and only if no call in progress is past its test, except one that holds that very deadline |
| SupervisorStop.RequestMovesExactly | deploy/supervisor/native_ingest_supervisor.py:1722-1725 | a request handled before any deadline is set can have its deadline replaced if and only if it is handled between another's test and store |
| SupervisorStop.InterruptedCanMove | deploy/supervisor/native_ingest_supervisor.py:1722-1725 | every run with such an interruption can go on to set a deadline and then move it |
| SupervisorStop.ReturnedNeverMoves | deploy/supervisor/native_ingest_supervisor.py:1722-1725 | in every run of nested calls, after a return with no other in progress the deadline is set and never moves |
| SupervisorStop.UninterruptedNeverMoves | deploy/supervisor/native_ingest_supervisor.py:1722-1725 | if no request is handled between another's test and store, the deadline is set at most once |
| SupervisorStop.SignalMovesDeadline | deploy/supervisor/native_ingest_supervisor.py:1722-1725 | a signal handled after the clock was read sets a deadline that the interrupted call replaces |
| SupervisorLog.OneDocumentPerSequence | deploy/supervisor/native_ingest_supervisor.py:252-270 | one epoch, sequences never fall, and a number names one document |
| SupervisorLog.OwnedUnlessReleased | deploy/supervisor/native_ingest_supervisor.py:1666-1677 | a registered run is owned until it was released |
| Supervisor.NativeSupervisor.ReadCurrentStatus | deploy/supervisor/native_ingest_supervisor.py:1290-1299 | the next acceptable document enters the log; red is refused and the epoch stays pinned |
| Supervisor.NativeSupervisor.Judge | deploy/supervisor/native_ingest_supervisor.py:1290-1299 | a document is taken exactly when it is acceptable, continues the sequence, is not red, and, as the first, is of a running dispatcher; a refused one leaves no trace unless it is red |
| Supervisor.NativeSupervisor.WaitForDispatcher | deploy/supervisor/native_ingest_supervisor.py:1301-1319 | returns only after a running status, not once stop was requested, and gives up on an error that is not fatal only after its time |
| Supervisor.NativeSupervisor.WaitStatusRole | deploy/supervisor/native_ingest_supervisor.py:1498-1524 | returns only the last accepted document, for this handoff and epoch, in the expected state, above the sequence; never once stop was requested; times out only after its time |
| Supervisor.NativeSupervisor.PollRole | deploy/supervisor/native_ingest_supervisor.py:1505-1523 | one reading is the document waited for exactly when it shows the handoff above the sequence in the expected state, or busy or reaped for ready |
| Supervisor.NativeSupervisor.LaunchRole | deploy/supervisor/native_ingest_supervisor.py:1526-1611 | keeps the log sound; with stop requested it refuses and changes nothing; a launch succeeds only with the run started and shown ready |
| Supervisor.NativeSupervisor.ReleaseExecAfterHandoff | deploy/supervisor/native_ingest_supervisor.py:1580-1603 | starts only behind ACK and fresh status, and never if stop preceded it |
| Supervisor.NativeSupervisor.CurrentRoleStatus | deploy/supervisor/native_ingest_supervisor.py:1613-1618 | passes exactly a non-red status of the run's epoch and handoff |
| Supervisor.NativeSupervisor.Authorize | deploy/supervisor/native_ingest_supervisor.py:1659-1663 | authorizes exactly when the document shows the run reaped under its epoch and handoff, is not red, and the process is gone and the cgroup empty |
| Supervisor.NativeSupervisor.CleanupReapedRun | deploy/supervisor/native_ingest_supervisor.py:1658-1677 | releases the run exactly on success, behind two reap proofs; a run shown reaped is kept only for a process seen alive or a populated cgroup |
| Supervisor.NativeSupervisor.AdvanceRun | deploy/supervisor/native_ingest_supervisor.py:1679-1698 | another epoch or handoff, or a state that cannot follow, fails with its code; a ready or busy run goes on, or fails only past its reap deadline, which is set once, five seconds ahead; a run shown reaped is cleaned up |
| Supervisor.NativeSupervisor.AdvanceAll | deploy/supervisor/native_ingest_supervisor.py:1764-1767 | after a turn every run still owned that the snapshot shows reaped was seen alive or populated |
| Supervisor.NativeSupervisor.Relaunch | deploy/supervisor/native_ingest_supervisor.py:1775-1780 | afterwards every role owns a run, unless a status showed it neither empty nor reaped |
| Supervisor.NativeSupervisor.RequestStop | deploy/supervisor/native_ingest_supervisor.py:1722-1725 | with signals handled inside it: a first deadline lies 120 seconds after a moment of the call, and no call changes it once one has returned with no other in progress |
| Supervisor.NativeSupervisor.DrainReaped | deploy/supervisor/native_ingest_supervisor.py:1731-1739 | of the owned runs a reading shows reaped only those seen alive or populated stay |
| Supervisor.NativeSupervisor.DrainAfterStop | deploy/supervisor/native_ingest_supervisor.py:1727-1741 | succeeds only with no run owned, and gives up for time only past the shutdown deadline |
| Supervisor.NativeSupervisor.LaunchAll | deploy/supervisor/native_ingest_supervisor.py:1753-1756 | start-up ends with one run per role |
| Supervisor.NativeSupervisor.WatchOnce | deploy/supervisor/native_ingest_supervisor.py:1754-1781 | a turn that reads stopping, or was stopped before, stops and ends; a turn that goes on under a running dispatcher leaves every role owned unless a status showed it neither empty nor reaped |
| Supervisor.NativeSupervisor.Run | deploy/supervisor/native_ingest_supervisor.py:1743-1788 | the log is sound however the run ends; a run that ends well was stopped, owns nothing and released everything it registered |
| Versions.SourceObject.Observe | internal/ingestion/pipeline.go:512-586 | refused exactly when its key is malformed, its key came with another hash, or it returns to a version closed or not writable; otherwise the history stays the stream with consecutive repeats removed, and no version loses its identity |
| Versions.WholeStreamIsHistory | internal/ingestion/pipeline.go:512-586 | the versions a whole consistent stream leaves over open retention are the stream with consecutive repeats removed |
| Versions.WholeStreamIsAccepted | internal/ingestion/pipeline.go:512-586 | no observation of such a stream is refused |
| Versions.SourceObject.EnsureVersion | internal/ingestion/pipeline.go:512-586 | the current version again, or one new PENDING row, or the exact fault |
| Versions.SourceObject.Publish | internal/ingestion/pipeline.go:1138-1147 | the prior current is superseded and the new version becomes current |
| Versions.SourceObject.CloseRetention | internal/ingestion/pipeline.go:546-549 | retention may close between observations without disturbing the history |
| Versions.CreatedTells | internal/ingestion/pipeline.go:512-586 | the created row extends the history by exactly the observation |
| Versions.RepeatTells | internal/ingestion/pipeline.go:523-529 | repeating the current observation creates nothing |
| Versions.ConflictIsInconsistency | internal/ingestion/pipeline.go:523-545 | an identity conflict is exactly an inconsistent hash |
| Versions.RowNames | internal/ingestion/pipeline.go:522-524 | a row is found under exactly the connector key of its observation |
| Versions.KeysDiffer | internal/ingestion/pipeline.go:512-586 | all keys of a history differ |
| Versions.MintedIsFresh | internal/ingestion/pipeline.go:558-562 | the key minted for a return is not in use |
| Versions.MintedIsNoConnectorKey | internal/ingestion/pipeline.go:588-608 | a minted key is no connector key |
| Versions.MintedIsInjective | internal/ingestion/pipeline.go:522 | minted keys determine the connector key and the version they follow |
| Versions.CheckVersionKey | internal/ingestion/pipeline.go:588-608 | accepts exactly the hash key of the content and clean native names |
| Versions.ControlsExactly | internal/ingestion/pipeline.go:602-606 | the refused bytes are those of the Unicode control characters U+0000 to U+001F and U+007F to U+009F |
| Reconciliation.Handler.ReconcileCoverage | internal/ingestion/handler.go:495-515 | a partial or empty scan, a lost lease or a superseded revision changes nothing; otherwise the scan is reconciled |
| Reconciliation.Handler.Reconcile | internal/ingestion/handler.go:987-1098 | both updates or neither, and the ids returned are exactly the objects that turned MISSING |
| Reconciliation.Handler.CloseOrphans | internal/ingestion/handler.go:1058-1082 | the second update, which sees the memberships the first one left |
| Reconciliation.SeenDigests | internal/ingestion/handler.go:990-1021 | the digests of exactly the listed identities |
| Reconciliation.ReconciledExactly | internal/ingestion/handler.go:1033-1072 | exactly the unseen ACTIVE memberships of this scope revision, connection and key version turn MISSING under this run, exactly the ACTIVE objects left without an ACTIVE membership turn MISSING, and no other field changes |
| Reconciliation.IdentityTells | internal/ingestion/handler.go:990-1012 | which identity a listed object is compared under, and that different ones stay different |
| Reconciliation.KeepsEveryActiveIsMember | internal/ingestion/handler.go:984-986 | every ACTIVE object keeps an ACTIVE membership |
| Reconciliation.Idempotent | internal/ingestion/handler.go:987-1098 | the same scan again changes nothing |
| Reconciliation.ScansCommute | internal/ingestion/handler.go:987-1098 | scans of different scopes commute |
| Heartbeat.NoBeatAfterStop | internal/ingestion/handler.go:1268-1281 | once stop returned no beat runs or will run |
| Heartbeat.StopReturnsOneValue | internal/ingestion/handler.go:1268-1281 | every call of stop returns the same value |
| Heartbeat.StopReportsRealFailures | internal/ingestion/handler.go:1250-1264 | stop reports a failed beat exactly unless its error was the cancellation of a context already done |
| Heartbeat.ReportsComeFromBeats | internal/ingestion/handler.go:1250-1264 | what stop reports is the error of a judged beat |
| Heartbeat.FailureCancelsContext | internal/ingestion/handler.go:1262-1264 | a failed beat cancels the child context before the goroutine leaves |
| Heartbeat.FailureStands | internal/ingestion/handler.go:1250-1264 | at most one beat fails and its judgement stands |
| Heartbeat.StopMakesProgress | internal/ingestion/handler.go:1268-1275 | a caller inside stop is never stuck |
| Heartbeat.TicksAreBeats | internal/ingestion/handler.go:1245-1252 | every tick taken starts one beat, and nothing else does |
| Heartbeat.CancelledBeatIsNoFailure | internal/ingestion/handler.go:1250-1264 | a beat that fails with the cancellation of a context already done is not reported |
| AuditChain.BuildExtends | internal/audit/audit.go:289-316 | what Build makes of the head extends the chain |
| AuditChain.ExtensionIsBuilt | internal/audit/audit.go:289-316 | a chain is extended only by what Build makes of its head |
| AuditChain.SameHeadSameLog | internal/audit/audit.go:471-519 | two logs with one head are one log unless the hash collided on them |
| AuditChain.StepKeepsInv | internal/audit/audit.go:391-445 | every step of interleaved locking transactions keeps chains, head rows and locks consistent |
| AuditChain.EveryLogIsAChain | internal/audit/audit.go:391-445 | in every interleaving sequences are 1 to n and each event names its predecessor's hash |
| AuditChain.BuildExactly | internal/audit/audit.go:289-316 | Build refuses exactly a malformed organization or input, or a head that is none |
| AuditChain.AppendGoes | internal/audit/audit.go:391-445 | a transaction that may lock can append a valid input on the spot and then commit |
| AuditChain.TurnsExactly | internal/audit/audit.go:391-399 | the lock is to be had exactly between appends while no other transaction holds it; commits come only between appends |
| AuditChain.LogsOnlyGrow | internal/audit/audit.go:391-445 | committed events are never changed |
| AuditStore.Store.Append | internal/audit/audit.go:333-359 | success adds exactly one event of this call, failure none unless the reply to its commit was lost, and then AppendFailed; refused as invalid only for a foreign request or actor or by Build; at most three transactions |
| AuditStore.Store.Attempt | internal/audit/audit.go:340-347 | one transaction adds its event or nothing, also when the reply to its commit is lost |
| AuditCalls.EventsPerCall | internal/audit/audit.go:333-359 | in every interleaving of the statements of any calls and transactions: a call that returned an event added exactly it, one that failed added none unless the reply to its commit was lost, an unfinished one none |
| AuditCalls.AttemptsAreBounded | internal/audit/audit.go:338-358 | at most three transactions a call, and AppendContended only after the third |
| AuditCalls.LossDecides | internal/audit/audit.go:338-358 | a rolled-back transaction ends its call unless the failure was one of serialization and the budget is not used up |
| AuditCalls.RefusalNeedsFault | internal/audit/audit.go:351-353 | a call is refused only for its organization or input |
| AuditCalls.OthersAreFree | internal/audit/audit.go:391-399 | a transaction that no call runs does whatever the tables and locks let it |
| AuditCalls.ReturnStands | internal/audit/audit.go:333-359 | what a call returned stands, whatever follows |
| AuditCalls.LogsAreChains | internal/audit/audit.go:391-445 | the logs these calls share stay chains, every event with one author |
| AuditCalls.LostReply | internal/audit/audit.go:340-359 | a call whose commit took effect but was reported as failed returns AppendFailed and leaves its event |
| ConversationArchive.OneEventIfArchived | internal/conversation/service.go:375-484 | in every interleaving one archived event if archived and none otherwise |
| ConversationArchive.ReceiptsPointToTheEvent | internal/conversation/service.go:653-663 | for every committed receipt the archived event exists, is the only one of its conversation, and is the one the receipt names |
| ConversationArchive.ArchivedForGood | internal/conversation/service.go:421-431 | archived_at never returns to null or moves; receipts and events never change |
| ConversationArchive.ReplayAddsNothing | internal/conversation/service.go:396-414 | a used key goes on exactly for the same conversation, workspace and revision, and then changes no table |
| ConversationArchive.ReplayedIsDone | internal/conversation/service.go:396-414 | in every run a command that found its key used has its own conversation archived, and its receipt names that event |
| ConversationArchive.CommittedIsDone | internal/conversation/service.go:375-484 | every command that commits leaves its conversation archived, with its receipt and event, for good |
| ConversationArchive.UncontendedArchives | internal/conversation/service.go:375-484 | an uncontended command can run to its commit and then has archived its conversation with one event and its receipt |
| ConversationArchive.OneWinner | internal/conversation/service.go:415-431 | at most one command in flight has changed the row |
| ConversationArchive.LoserCompletes | internal/conversation/service.go:432-458 | a command that did not change the row always finds the event, so the unavailable branch is not reached |
| ConversationArchive.StepKeepsInv | internal/conversation/service.go:383-478 | every step keeps conversations, receipts, events and locks consistent |
| ConversationPages.ListPage | internal/conversation/service.go:233-351 | one page of the table its transaction sees, or the refusal |
| ConversationPages.PageFromQuery | internal/conversation/service.go:279-323 | a page is in order, within bounds, and omits only rows after its last one, and then says so |
| ConversationPages.PageIsNewest | internal/conversation/service.go:279-323 | a page is the newest of the rows its cursor admits: newest first, as many as the limit allows, and all it leaves out is older |
| ConversationPages.PageIsRefused | internal/conversation/service.go:248-275 | a page is refused exactly for a cursor that is malformed, not visible, or not in the table |
| ConversationPages.WalkDecreases | internal/conversation/service.go:222-226 | the rows of a walk strictly decrease, so none comes twice |
| ConversationPages.WalkIsNewestFirst | internal/conversation/service.go:280-290 | along a walk every later row was created earlier, or at the same time under a smaller id |
| ConversationPages.FinishedWalkReturnsOnce | internal/conversation/service.go:222-226 | a finished walk returns every conversation that stayed throughout exactly once |
| ConversationPages.FixedWalkIsTheList | internal/conversation/service.go:279-298 | on a fixed table a finished walk is the full ordered list |
| ConversationPages.FixedListIsNewestFirst | internal/conversation/service.go:279-298 | reading a fixed table to the end lists exactly its rows, newest first |
| ConversationPages.FixedWalkTerminates | internal/conversation/service.go:279-323 | on a fixed table a walk ends |
| ConversationPages.FixedWalkFinishes | internal/conversation/service.go:279-323 | on a fixed table every walk can be read on, with any limit, to the full ordered list |
| Catalog.Normalize | internal/analytic/dataset_profile_catalog.go:54-74 | accepts exactly valid entries with distinct keys, and returns them in key order |
| Catalog.CheckValid | internal/analytic/dataset_profile_catalog.go:76-86 | valid exactly when entries are valid, strictly ordered and hashed |
| Catalog.VersionsAscend | internal/analytic/dataset_profile_catalog.go:65-71 | in a sealed catalog the versions of one dataset ascend, and datasets stand in the order of their bytes |
| Catalog.Inspect | internal/analytic/dataset_profile_catalog.go:113-124 | finds exactly the one entry of a key in a valid snapshot |
| Catalog.ResolveActive | internal/analytic/dataset_profile_catalog.go:126-136 | resolves exactly an ACTIVE entry under its hash |
| Catalog.Search | internal/analytic/dataset_profile_catalog.go:117-119 | the first entry whose key is not below |
| Catalog.ValidateTransition | internal/analytic/dataset_profile_catalog_transition.go:7-65 | accepts exactly adjacent revisions that keep every entry, revive none, add only newer active versions and change something |
| CatalogRuns.EntriesSurvive | internal/analytic/dataset_profile_catalog_transition.go:39-51 | no key disappears, no hash changes, RETIRED is never left |
| CatalogRuns.NewLieAbove | internal/analytic/dataset_profile_catalog_transition.go:53-62 | what appears later lies above every earlier version of its dataset |
| CatalogRuns.RevisionCountsSteps | internal/analytic/dataset_profile_catalog_transition.go:8-13 | the revision grows by the number of steps |
| CatalogRuns.RoomShrinks | internal/analytic/dataset_profile_catalog_transition.go:38-65 | each accepted transition strictly lowers 2 * (64 - entries) + active |
| CatalogRuns.RunsAreShort | internal/analytic/dataset_profile_catalog.go:5 | no run has more than 127 transitions |
| BindingSeal.SealPreimage | internal/analyticsource/eligibility_binding.go:145-170 | the appended bytes are the domain and the codes of the fields in order |
| BindingSeal.UnsignedIsOnto | internal/analyticsource/eligibility_binding.go:181-183 | every 64-bit pattern is the two's complement of exactly one revision |
| BindingSeal.CodeIsPrefixFree | internal/analyticsource/eligibility_binding.go:174-183 | a field's code determines the field and what follows |
| BindingSeal.PreimageDetermines | internal/analyticsource/eligibility_binding.go:134-170 | the preimage determines profile key and hash, the binding and the execution fields |
| BindingSeal.EqualIffSameSeal | internal/analyticsource/eligibility_binding.go:125-135 | for valid bindings equality agrees with equality of seals unless the digest collided on the two |

## Left out

- AnalyticFinish.Aggregate: does not say which of several failing rows gives the code, because the code depends on map order there. Workspace id and plan hash, context, and the shape of the filters are one boolean each.
- AnalyticPlan.ChooseColumn: compares case on ASCII letters only, and white space and UTF-8 validity of identifiers on bytes; Unicode case folding and Unicode white space are not part of this model.
- AnalyticRegistry.ValidateResult: the request limits, the timeout and the receipts of the registry around it are not part of this model.
- AnalyticFinish.RenderAll: `sort.Slice` as a function, not the in-place algorithm of the Go library.
- ScalarSum.Reduce: the canonical JSON of a row and the snapshot hash are parameters; that the snapshot hash sorts the row hashes is a hypothesis of the two lemmas about reordering.
- Address.OneTextPerAddress: keyed span digests, line spans and `VerifySpan` are not part of this model.
- Paging.WalkReproduces: assumes that the length of the original plus the limit fits the machine integer, as `start + limit` in the code needs; so do `CursorContinues` and `WalkContinues`, and `Read` and `PageEnd` add without wrap-around.
- SupervisorStatus.StatusSequence.Accept: the JSON shape of a document is taken as parsed, and the moments of its time stamps as given beside their texts.
- Supervisor.NativeSupervisor.Run: descriptors, sockets, cgroup files, OCI bundles and the offline image are single fallible steps; `OwnedRun` is a value in `active`, so sharing of the run object between a local variable and the map is not captured; handoff ids come from a list of distinct ids; the closing of descriptors at the end is left out. A run is cut when its budget of status readings ends.
- Supervisor.NativeSupervisor.LaunchRole: does not bound when a launch in flight at the stop request ends beyond its timeouts.
- Versions.SourceObject.Observe: creation and publication are one transaction, so the branch that finds an unpublished PENDING version is not reached; extraction, evidence rows and search projections are left out.
- Versions.CheckVersionKey: `strings.TrimSpace` on ASCII white space only.
- Reconciliation.Handler.Reconcile: time stamps, audit events of closed objects and the reactivation of returning objects are left out; locator errors of malformed paths are left out.
- Heartbeat.StopReturnsOneValue: the ticker's period is left out; a tick may come at any moment.
- AuditChain.StepKeepsInv: lock collisions between organizations, which only cost waiting, and isolation levels above READ COMMITTED are left out.
- AuditCalls.EventsPerCall: the action-specific projections of an event are one shape check; a cancelled context is one of the failures.
- ConversationArchive.StepKeepsInv: the retention guard, row-level visibility and turns are left out; receipts are keyed by the idempotency key itself, as if its hash did not collide.
- ConversationPages.ListPage: conversations by id and creation time only; ids are ordered by their bytes; turns and the legacy list are left out.
- Catalog.ValidateTransition: the contents of a profile are opaque; constructors and JSON decoding are left out.
- BindingSeal.EqualIffSameSeal: the match against source and exposure facts is one boolean of a binding.
- HTTP handlers, model gateways, connectors, command entry points, SQL text, cryptography, the governed-question resolver and the scalar executor: input and output, foreign calls, or straight-line checks that would add only easy members.
