# Verified models of a self-speculative inference engine

This project models, in Dafny, the parts of the inference engine whose correctness is hardest to
see from the code, and proves what they are for. `dafny verify dfyconfig.toml` checks all of it.

**Speculative decoding** (`RejectionSampler`, `OutputParsing`, `SpeculativeDecoding`, `Residuals`,
`RandomDecoding`, `RandomStreams`, `NgramProposer`). Draft tokens are proposed by a cheap drafter and
verified against the target model. The greedy and random verification kernels are modelled as loops
that write the output buffer. The main results are the losslessness claims of the repository: over
any number of rounds and for every drafter, greedy output equals dense greedy decoding token for
token, and sampled output has exactly the distribution of the target model. A sampled round is an
expectation over drafts, tests, substitutes and the bonus token of what follows the kernel's own
verified row; the drafter may choose its length, its stopping and its law from the text, its drafts
and everything that happened in earlier rounds. The n-gram proposer's one-pass
failure-function scan over the reversed text is proved to find the longest repeated n-gram at its
earliest position.

**Graph partitioning** (`OrderedSets`, `GraphPartition`, `GraphMeaning`, `GraphLiveness`,
`GraphRefinement`). A backward pass decides what each partition of a compiled graph takes in,
returns and frees. Nodes are records of names read, written, produced and freed; their computation
is an arbitrary function. Executing the partitions one by one, each seeing only its declared inputs
and dropping what it frees, gives the graph outputs that the unpartitioned program gives. The
liveness sets are characterised exactly.

**Build-time report** (`BuildSweep`, `BuildSummary`, `NinjaLog`). A sweep over start and stop
events shares elapsed time among running tasks. Shares add up to the time during which something
runs, lie between the duration divided by the number of tasks and the duration, and do not depend
on any order. The log reader isolates the last build.

**Chunked allocator** (`ChunkPlan`, `ChunkMapping`). 64-bit chunk arithmetic tiles the reserved
range exactly when no sum wraps and the host provides what is asked for. Creating and mapping against a driver that may fail at any call
either completes or leaves exactly what could not be cleaned up; sleep and wake cycles restore the
same layout.

**Containers and addressing** (`LogprobRows`, `FlatLogprobs`, `OutputMerge`, `OutputStream`,
`SlotMapping`, `LockstepChunks`, `BadWords`). Flat log-probability columns refine a list of
dictionaries under every sequence of calls with forward slices; streamed outputs merge into in-order
concatenations, and both ways of bracketing agree wherever both work; paged slots never collide; lockstep chunks conserve tokens; masked generation never
contains a bad word and loses nothing else.

**Types and printing** (`Basics`, `Bits`, `ScalarTypeId`, `FloatFormats`, `IndexRanges`). Type ids are
injective over in-range fields and read back through the registry; the constructed maximum of a
floating-point format is its largest finite value exactly under a condition on its flags and widths;
printed index ranges read back.

Where a property does not hold for all inputs, the model keeps the code as it is, shows an input
and proves the exact condition: a renamed graph output stays unmet after the liveness pass
(`LeftUnmetExactly`), chunk sums that wrap (`SoundIff`) or chunks beyond the counter
(`PlanAllocation`), a task that ends before it starts or an empty list (`SummarizeEntries`), an
infinite logit of a banned token (`MaskedIff`), a bias cached for another vocabulary size (`Process`),
type fields out of range (`SameIdIff`), log probabilities that arrive where there is no room
(`CanAddAllIff`), completions that add up from the left but not from the right (`MergeAssociative`), an
output object that is listed twice (`AddCompletion`), slices that go backward (`GetSlice`), and formats
whose flags or widths the maximum does not allow for (`MaxIsLargestIff`).

Where code and documentation disagree the model follows the code: the log reader's documentation
says that its result is sorted by duration, the code returns insertion order. The decoder kernels
read flattened tensors; the model keeps the flattening (`cu`, the cumulative draft counts) and one
row of the output buffer per request.

Modelling choices: times, probabilities and logits are exact reals (logits with both infinities and
NaN); integers are unbounded except where the source uses 64-bit sums or bit fields, which are
written out; dictionaries are sequences of entries in insertion order; exceptions and failed
assertions are result values; the driver, the drafter, the model, the sampler and the noise are
parameters.

## Model

| member | source | states |
|---|---|---|
| RejectionSampler.VerifiedRow | vllm/v1/sample/rejection_sampler.py:721-744 | the verified row is the accepted draft prefix followed by the substitute at the first rejection, or by the bonus token when nothing is rejected |
| RejectionSampler.RowUnique | vllm/v1/sample/rejection_sampler.py:721-744 | those promises determine the row: any row that keeps them is the verified row |
| RejectionSampler.GreedyKernel | vllm/v1/sample/rejection_sampler.py:704-744 | writes the verified row of its request and placeholders after it, touches no other row, and leaves random requests alone |
| RejectionSampler.RandomKernel | vllm/v1/sample/rejection_sampler.py:749-806 | the same for random requests, with the ratio test against the uniform draw and the recovered token as substitute |
| RejectionSampler.GreedyPass | vllm/v1/sample/rejection_sampler.py:385-398 | after the greedy launch every greedy row is done and every other row is still blank |
| RejectionSampler.RandomPass | vllm/v1/sample/rejection_sampler.py:426-441 | after the random launch every random row is done and no greedy row has changed |
| RejectionSampler.RejectionSample | vllm/v1/sample/rejection_sampler.py:343-441 | for every mix of greedy and random requests, and with the all-greedy and all-random shortcuts, each request has exactly its own verified row, with substitutes recovered from its residuals and noise |
| RejectionSampler.SampleRecovered | vllm/v1/sample/rejection_sampler.py:597-640 | at every draft position of every request the recovered token is the first maximiser of residual over that request's noise, with the masked target as residual where drafts have no probabilities |
| RejectionSampler.OthersIrrelevant | vllm/v1/sample/rejection_sampler.py:606-614 | of the substitutes only the one at the first rejection matters, so sharing one noise row between the positions of a request does not change the row |
| RejectionSampler.PartsTile | vllm/v1/sample/rejection_sampler.py:721-723 | the requests share the flattened draft tokens out: their parts in a row are the flat list up to the last bound |
| RejectionSampler.RecoveredInBatch | vllm/v1/sample/rejection_sampler.py:845-884 | for every request, position and token, the recovered token has at least the residual that the noise of that request asks for, without dividing |
| OutputParsing.ParseTokens | vllm/v1/sample/rejection_sampler.py:236-251 | parsing a verified row drops the placeholders and returns exactly its tokens and the log probabilities that go with them |
| OutputParsing.ParseOne | vllm/v1/sample/rejection_sampler.py:236-239 | a cell is dropped exactly if it is -1 or not below the vocabulary size, and its log probabilities with it |
| OutputParsing.ParseJoin | vllm/v1/sample/rejection_sampler.py:240-251 | what is left of two stretches of cells is what is left of each, in order |
| OutputParsing.ParseOutput | vllm/v1/sample/rejection_sampler.py:217-251 | tokens of every row, none for discarded rows; log probabilities are filtered before discarding, and the running counts bound each row's part |
| SpeculativeDecoding.RoundIsDense | vllm/v1/sample/rejection_sampler.py:704-744 | one propose-and-verify round, whatever was drafted, extends the text exactly as some number of dense greedy steps would, between one and the number of drafts plus one |
| SpeculativeDecoding.AcceptedExactly | vllm/v1/sample/rejection_sampler.py:725-744 | a round emits more than k tokens if and only if the first k drafts are what dense decoding would produce |
| SpeculativeDecoding.RunsAreDense | notes/DrafterGoesBurrrr.md:196-198 | any run of rounds with any drafts yields a dense greedy decoding, token for token, with progress in every round |
| RandomDecoding.AcceptProbIsMeasure | vllm/v1/sample/rejection_sampler.py:789-795 | uniform draws below the ratio, capped at one, pass the acceptance test and draws above it fail, so that is the probability of acceptance |
| RandomDecoding.RejectIsResidual | vllm/v1/sample/rejection_sampler.py:863-874 | the probability of rejecting at a position equals the mass of the residual |
| RandomDecoding.EmittedIsTarget | vllm/v1/sample/rejection_sampler.py:749-806 | accepted mass plus rejected mass times the substitute's law is, token by token, the target probability, for every draft distribution |
| RandomDecoding.SubstituteIsDist | vllm/v1/sample/rejection_sampler.py:874-884 | the normalised residual is a distribution, with the first token where nothing is left |
| RandomDecoding.NoDraftProbsIsPointMass | vllm/v1/sample/rejection_sampler.py:856-862 | without draft probabilities the kernel's masked residual is the residual against a point mass |
| RandomDecoding.PointMassIsDist | vllm/v1/sample/rejection_sampler.py:777-778 | a draft without probabilities is a draft from a distribution, so the same law applies |
| RandomDecoding.RejectedNotRecovered | vllm/v1/sample/rejection_sampler.py:874-884 | a rejected draft token is never the recovered token, whatever the noise |
| RandomDecoding.KernelAcceptsIff | vllm/v1/sample/rejection_sampler.py:776-795 | the kernel accepts a draft token if and only if its law gives it probability and its target probability is at least the uniform draw times that |
| RandomDecoding.KernelAcceptProb | vllm/v1/sample/rejection_sampler.py:776-795 | over draws from [0, 1) the kernel accepts with the probability that the law of a round counts with, drafts without probabilities included |
| RandomDecoding.KernelResidual | vllm/v1/sample/rejection_sampler.py:855-874 | what the kernel recovers from is the excess of the target over the law of the draft token, a point mass where drafts have no probabilities |
| Residuals.RecoverToken | vllm/v1/sample/rejection_sampler.py:878-884 | the recovered token is the first maximiser of residual over noise |
| Residuals.RecoveredFromResidual | vllm/v1/sample/rejection_sampler.py:878-884 | a token outside the residual is recovered only when the residual is empty, and then it is the first one |
| Residuals.RecoveredWinsRace | vllm/v1/sample/rejection_sampler.py:883-884 | no token has more residual for its noise than the recovered one |
| RandomStreams.MixIsTarget | vllm/v1/sample/rejection_sampler.py:773-798 | one position: drafting from any distribution, testing and substituting has the mean of the target's own draw, for every value of what follows |
| RandomStreams.RowAtEnd | vllm/v1/sample/rejection_sampler.py:773-806 | the verified row of a round's draws is the accepted drafts and the bonus token, or the row decided at the first rejection |
| RandomStreams.EmittedIsRow | vllm/v1/sample/rejection_sampler.py:749-806 | a finished round is worth its verified row followed by a stream of its own |
| RandomStreams.KernelRowIsTrial | vllm/v1/sample/rejection_sampler.py:749-806 | the row that the random kernel writes is the verified row of its draws, with the results of the test taken from target and draft law |
| RandomStreams.RoundIsTarget | vllm/v1/sample/rejection_sampler.py:749-806 | the expectation over the remaining draws of a round, from any position in it, of emitting the verified row and going on equals the target model's probability |
| RandomStreams.StreamIsTarget | README.md:14-14 | over whole runs the probability of every continuation is the target model's, for drafters whose law, length and stopping depend in any way on the text, the drafts so far and all earlier rounds |
| NgramProposer.BestMatchUnique | vllm/v1/spec_decode/ngram_proposer.py:206-211 | the longest repeated n-gram at its earliest occurrence is unique |
| NgramProposer.Scan | vllm/v1/spec_decode/ngram_proposer.py:233-273 | the one-pass failure-function scan, with links capped at the longest n-gram wanted, finds the longest border and its last position |
| NgramProposer.BorderIsOccurrence | vllm/v1/spec_decode/ngram_proposer.py:222-229 | borders of the reversed text are exactly earlier occurrences of the text's end |
| NgramProposer.BestBorderIsBestMatch | vllm/v1/spec_decode/ngram_proposer.py:222-273 | the best border of the reversed text is the longest repeated n-gram at its earliest occurrence |
| NgramProposer.ProposeTokens | vllm/v1/spec_decode/ngram_proposer.py:199-285 | a draft is never longer than k nor than the model length allows; with a best match of at least the minimum length it repeats the text after that match and ends only at k tokens, at the model length or at the end of the text; without one it is empty |
| GraphPartition.RealNames | vllm/env_override.py:168-170 | the real names of a list, each once, no others |
| GraphPartition.CollectNames | vllm/env_override.py:142-178 | the sets of produced, accessed and freed names of a partition |
| GraphPartition.SignPartition | vllm/env_override.py:142-238 | one turn of the reverse loop builds the signature that the partition is owed and the unmet set before it |
| GraphPartition.SignFromEnd | vllm/env_override.py:139-146 | partitions are taken from the end together with their skip flags |
| GraphPartition.GetSignatures | vllm/env_override.py:102-240 | every partition is signed against what later partitions and the caller want, with its own flag and the symbols for its inputs; lists of unequal length are zipped from their ends |
| GraphPartition.LayoutWithoutRenaming | vllm/env_override.py:119-137 | a name without a buffer or with a layout has storage; a buffer without a layout that is no mutation of another has none |
| GraphPartition.EndlessRenaming | vllm/env_override.py:129-133 | a mutation output that is its own real name is asked about for ever |
| GraphMeaning.RealNamesAreFixed | vllm/env_override.py:119-137 | in a well-placed schedule renaming ends after one step, so the layout recursion is defined |
| GraphMeaning.LayoutExactly | vllm/env_override.py:119-137 | on a well-formed schedule a name has no storage if and only if the buffer under its real name has no layout |
| GraphMeaning.InputExists | vllm/env_override.py:155-183 | every declared input is storage that exists before the partition, under its real name |
| GraphMeaning.ProducedOnce | vllm/env_override.py:142-146 | nothing a slice produces exists before it |
| GraphMeaning.MutatedIsInput | vllm/env_override.py:168-170 | a partition that rewrites storage it did not produce declares that storage as an input |
| GraphLiveness.UnmetExactly | vllm/env_override.py:147-147 | a produced name is unmet after its partition if and only if it is a graph output or an input of a later partition |
| GraphLiveness.AllocatedReturnedExactly | vllm/env_override.py:147-217 | a partition returns what it allocates if and only if it is wanted later or stands behind a renamed graph output |
| GraphLiveness.OthersReturnedExactly | vllm/env_override.py:197-217 | anything else a partition returns is an input it does not free, and all of those are returned |
| GraphLiveness.UnallocatedNeverPassed | vllm/env_override.py:117-122 | a buffer that is never allocated is neither input nor output of any partition |
| GraphLiveness.AccessedIsPassed | vllm/env_override.py:149-169 | what a partition accesses, does not produce and may have storage is among its inputs or constants |
| GraphLiveness.FreedIsTakenIn | vllm/env_override.py:171-194 | what a partition frees and does not produce is an input that it frees and does not return |
| GraphLiveness.FreedIsOutOfUse | vllm/env_override.py:172-184 | what a partition frees is neither a graph output nor an input of a later partition |
| GraphLiveness.LeftUnmetExactly | vllm/env_override.py:236-240 | a produced name is still unmet after the whole pass if and only if it is a renamed graph output |
| GraphLiveness.RenamedOutputLeftUnmet | vllm/env_override.py:236-240 | a concrete graph whose renamed output is left unmet |
| GraphRefinement.PassNeverFails | vllm/env_override.py:119-217 | on well-placed schedules the layout recursion ends and every lookup finds its key |
| GraphRefinement.PassSignsAll | vllm/env_override.py:139-240 | the signatures returned by the pass sign every partition |
| GraphRefinement.PartitionSelfContained | vllm/env_override.py:155-183 | a partition needs nothing but its declared inputs and what it produces |
| GraphRefinement.CallAgrees | vllm/env_override.py:186-232 | calling a partition on its declared inputs alone computes what running its nodes in place computes |
| GraphRefinement.StaysFaithful | vllm/env_override.py:139-240 | after each call everything still demanded is there with the value of the unpartitioned run |
| GraphRefinement.PartitioningPreservesMeaning | vllm/env_override.py:102-240 | executing the partitions through their signatures never misses an input and ends with the graph outputs of the unpartitioned program, for every kernel, input and partitioning |
| GraphRefinement.SignAll | vllm/env_override.py:102-240 | on a well-formed schedule the pass meets no failing lookup and signs every partition with its own flag |
| GraphRefinement.SignAndPreserve | vllm/env_override.py:102-240 | on a well-formed schedule the pass ends with a signature for every partition, none of them naming a buffer that is never allocated, and calling the partitions by them gives the outputs of the unpartitioned program |
| BuildSweep.WeightedBounds | tools/report_build_time_ninja.py:84-89 | a task's weighted duration lies between its duration divided by the number of tasks and its duration |
| BuildSweep.WeightedTaken | tools/report_build_time_ninja.py:238-255 | the same without division |
| BuildSweep.TotalIsBusy | tools/report_build_time_ninja.py:242-254 | shares of fairly divided gaps add up to the time during which at least one task runs |
| BuildSweep.BusyIffNeverIdle | tools/report_build_time_ninja.py:221-222 | that time is at most the extent of the schedule, with equality if and only if there is no idle moment |
| BuildSummary.Tick | tools/report_build_time_ninja.py:241-245 | the clock advances by the gap shared among running tasks and stands still when nothing runs |
| BuildSummary.StopTask | tools/report_build_time_ninja.py:249-255 | a stop event finds its task running if and only if the task does not end before it starts, and gives it its share |
| BuildSummary.HandleEvent | tools/report_build_time_ninja.py:239-256 | one event keeps the running tasks, the clocks, the finished shares and their total as the schedule says |
| BuildSummary.Sweep | tools/report_build_time_ninja.py:230-257 | the event loop succeeds if and only if no task ends before it starts; then every task has its share, the total is the busy time and nothing is left running |
| BuildSummary.AllDone | tools/report_build_time_ninja.py:257-257 | after the last event no task is left running |
| BuildSummary.TimesUnique | tools/report_build_time_ninja.py:224-225 | all sorted event lists of the same tasks have the same times |
| BuildSummary.SortedIsSchedule | tools/report_build_time_ninja.py:213-225 | sorting the collected events gives a schedule of the entries |
| BuildSummary.Scan | tools/report_build_time_ninja.py:208-220 | the scan finds the earliest start, the latest end, the total duration and two events per entry |
| BuildSummary.DurationsAddUp | tools/report_build_time_ninja.py:217-217 | one entry counts its end minus its start, and stretches of entries add up |
| BuildSummary.OrderIrrelevant | tools/report_build_time_ninja.py:224-255 | how the sort orders events with equal keys does not matter |
| BuildSummary.EntriesOrderIrrelevant | tools/report_build_time_ninja.py:213-255 | the order of the entries does not matter for any weighted duration |
| BuildSummary.SummarizeEntries | tools/report_build_time_ninja.py:198-257 | crashes if and only if there are no entries or a task ends before it starts; otherwise weighted durations, totals and their comparison with the length of the build are as proved |
| BuildSummary.CrashingInputs | tools/report_build_time_ninja.py:233-251 | an empty list and a task from 2 to 1 crash the summary |
| NinjaLog.LastBuildConsistent | tools/report_build_time_ninja.py:124-143 | within the last build end times never decrease and equal hashes have equal times |
| NinjaLog.LastBuildStartsAtConflict | tools/report_build_time_ninja.py:124-143 | the last build is a suffix of the log and begins where a record conflicts with the build before it |
| NinjaLog.JoinsBuildIff | tools/report_build_time_ninja.py:124-143 | a record joins the last build if and only if it ends no earlier than the record before it and repeats commands at equal times only |
| NinjaLog.WrittenIsRead | tools/report_build_time_ninja.py:113-121 | the five fields that ninja writes for a record are read back as it |
| NinjaLog.CorruptIff | tools/report_build_time_ninja.py:114-121 | a line is skipped if and only if it has not five fields, and fails if and only if one of its two times is no integer |
| NinjaLog.MustReset | tools/report_build_time_ninja.py:124-143 | the two tests together detect exactly the records that conflict with the current build |
| NinjaLog.ReadRecord | tools/report_build_time_ninja.py:120-147 | one record keeps the dictionary equal to the grouping of the covered records |
| NinjaLog.ReadTargets | tools/report_build_time_ninja.py:104-148 | fails exactly on a foreign header and on times that are no integers; otherwise the targets are the well-formed lines of the last build, or of the whole log, grouped by command hash in order of first appearance, and other lines are skipped |
| NinjaLog.NamesConserved | tools/report_build_time_ninja.py:144-148 | grouping loses no output name and repeats none |
| ChunkPlan.BaseChunk | csrc/cumem_allocator.cpp:24-42 | a positive multiple of one megabyte: the setting when its product with a megabyte fits 64 bits and is not zero, the default otherwise |
| ChunkPlan.ChunkSettings | csrc/cumem_allocator.cpp:24-42 | the default chunk is 256 megabytes, and a setting of one means one |
| ChunkPlan.AlignUpExact | csrc/cumem_allocator.cpp:317-317 | rounding up gives the least multiple that is large enough, or zero exactly when the sum wraps |
| ChunkPlan.ChunksTile | csrc/cumem_allocator.cpp:345-367 | chunk sizes are positive multiples of the granularity, at most a chunk, and add up to the aligned size |
| ChunkPlan.SoundIff | csrc/cumem_allocator.cpp:317-367 | the plan is right if and only if none of the 64-bit sums wraps |
| ChunkPlan.PlanAllocation | csrc/cumem_allocator.cpp:317-367 | divides by zero if and only if rounding the chunk size wraps; gives a plan if and only if the host provides the arrays and handles and the chunks are not more than the 32-bit counter can count; that plan is right if and only if no sum wraps |
| ChunkPlan.ManyChunksOverflow | csrc/cumem_allocator.cpp:353-353 | a size without any wrapping sum that has more chunks than the counter can count |
| ChunkPlan.LargeSettingDividesByZero | csrc/cumem_allocator.cpp:342-346 | an accepted setting for which the chunk size is rounded to zero |
| ChunkMapping.ChunksSideBySide | csrc/cumem_allocator.cpp:158-176 | the running offsets place chunks side by side, without gap or overlap |
| ChunkMapping.CreateAll | csrc/cumem_allocator.cpp:148-157 | creates every handle, or tries to release the ones created and reports the failure; what is left is exactly what could not be released |
| ChunkMapping.MapAll | csrc/cumem_allocator.cpp:158-177 | maps every chunk, or tries to undo the mapped ones and to release all handles, and reports the failure; what is left is exactly what could not be undone |
| ChunkMapping.CreateAndMap | csrc/cumem_allocator.cpp:148-177 | for every pattern of answers all chunks are created and mapped, or exactly the handles and chunks whose cleanup call failed are left, which is nothing when those calls succeed; no call is invalid, so no handle is released twice |
| ChunkMapping.UnmapEach | csrc/cumem_allocator.cpp:214-224 | unmaps exactly the chunks that the driver lets go and remembers the first failure |
| ChunkMapping.ReleaseEach | csrc/cumem_allocator.cpp:226-231 | the same for handles |
| ChunkMapping.UnmapAndRelease | csrc/cumem_allocator.cpp:214-236 | for every pattern of failures each chunk and handle is tried once, what remains is exactly what failed, and the error code is the first failure |
| ChunkMapping.Sleep | csrc/cumem_allocator.cpp:214-236 | reports no error if and only if no cleanup call fails, and then exactly the allocation is gone |
| ChunkMapping.Cycle | csrc/cumem_allocator.cpp:148-236 | after any number of sleep and wake cycles without a reported error the same addresses carry chunks of the same sizes; with cleanup calls that succeed, a failed wake leaves the allocation cleanly gone |
| LogprobRows.DictOfDict | vllm/logprobs.py:67-71 | writing out a dictionary and building it again gives it back |
| LogprobRows.LastWins | vllm/logprobs.py:186-188 | of entries with the same token id the last one is in the dictionary |
| LogprobRows.OnlyLast | vllm/logprobs.py:113-120 | a dictionary holds nothing but last entries |
| LogprobRows.FirstEntriesInOrder | vllm/logprobs.py:113-120 | the tokens of a dictionary stand in the order of their first entries |
| LogprobRows.PickRows | vllm/logprobs.py:121-133 | picking rows, shifting them and cutting the columns keeps every picked row, gaps included |
| LogprobRows.IndicesAt | vllm/logprobs.py:122-128 | which positions a slice with a positive step picks |
| LogprobRows.IndicesDownAt | vllm/logprobs.py:122-128 | which positions a slice with a negative step picks |
| LogprobRows.NegativeBounds | vllm/logprobs.py:122-128 | a negative bound counts from the end, for steps of either sign |
| LogprobRows.BoundsBeyond | vllm/logprobs.py:122-128 | going forward, bounds beyond the list mean its ends |
| LogprobRows.BoundsBeyondDown | vllm/logprobs.py:122-128 | the same going backward |
| LogprobRows.PickedStretch | vllm/logprobs.py:122-128 | between bounds within the list a slice is that stretch of it |
| LogprobRows.PickedFromEnd | vllm/logprobs.py:122-128 | the slice from -j is the last j positions, the slice up to -j what comes before them |
| LogprobRows.PickedReversed | vllm/logprobs.py:122-128 | the slice with step -1 picks the reversed list |
| LogprobRows.BackwardReadsIff | vllm/logprobs.py:121-133 | the copy that a backward slice over two positions or more makes reads like the picked rows if and only if all of them are empty |
| LogprobRows.ReverseIsGarbled | vllm/logprobs.py:121-133 | reversing two positions with an entry each gives rows that cannot be read |
| FlatLogprobs.Container.Append | vllm/logprobs.py:63-72 | appends the dictionary, with None read as the empty one, and keeps all earlier positions |
| FlatLogprobs.Container.AppendFast | vllm/logprobs.py:74-93 | appends the dictionary of the zipped columns, the shortest column deciding |
| FlatLogprobs.Container.Extend | vllm/logprobs.py:95-98 | appends all given positions in order |
| FlatLogprobs.Container.ExtendBySelf | vllm/logprobs.py:95-98 | extending by itself doubles the container and ends |
| FlatLogprobs.Container.GetItem | vllm/logprobs.py:110-120 | reads the position, counted from the end when negative, and fails exactly out of range |
| FlatLogprobs.Container.Items | vllm/logprobs.py:146-152 | iteration yields the list of dictionaries |
| FlatLogprobs.Container.GetSlice | vllm/logprobs.py:121-133 | fails exactly on a zero step and on an empty slice; a slice that goes forward or picks one position is well formed and reads like the slice of the list, the one from -j being the last j positions; a backward slice of more positions reads like it if and only if all that it picks is empty |
| FlatLogprobs.AppendSample | vllm/logprobs.py:175-206 | the flat branch appends the dictionary that the list branch appends |
| FlatLogprobs.SampleEntryIs | vllm/logprobs.py:184-206 | the first entry is the sampled token with its rank, the ones after it have the ranks 1, 2, and so on |
| FlatLogprobs.SampleEntriesCount | vllm/logprobs.py:184-206 | there are as many as the shortest of ids, values, decoded tokens and requested ranks, with -1 requesting all |
| FlatLogprobs.Apply | vllm/logprobs.py:63-206 | each call does to the flat form what it does to the list |
| FlatLogprobs.Replay | vllm/logprobs.py:30-206 | after any sequence of calls, with slices that go forward, the flat form reads like the list fed the same calls |
| BadWords.BannedIff | vllm/logits_process.py:66-83 | the two biases together mark exactly the tokens that complete a bad word |
| BadWords.MaskedIff | vllm/logits_process.py:85-85 | an entry is -inf after the call if and only if it was before or is banned and finite; entries that are not banned are unchanged |
| BadWords.InfiniteLogitEscapes | vllm/logits_process.py:85-85 | a banned token with logit +inf comes out as NaN |
| BadWords.InvalidEmpty | vllm/logits_process.py:106-121 | the list of offending ids is empty if and only if all ids are in the vocabulary |
| BadWords.InBoundsIff | vllm/logits_process.py:111-113 | ids are in bounds if and only if every token of every word is from 0 to below the vocabulary size |
| BadWords.InvalidInJoin | vllm/logits_process.py:109-113 | of one word, exactly the tokens outside the vocabulary are listed, in order |
| BadWords.InvalidJoin | vllm/logits_process.py:109-113 | and word by word |
| BadWords.Processor.CheckTokenIdsBounds | vllm/logits_process.py:106-121 | collects exactly the offending ids, in order |
| BadWords.Processor.InitWordBias | vllm/logits_process.py:89-104 | caches the bias of one-token words, or nothing when an id is out of bounds |
| BadWords.Processor.LastTokenBias | vllm/logits_process.py:64-83 | marks exactly the last tokens of longer words whose prefix ends the past; fails exactly on an empty word or a last token beyond the logits |
| BadWords.Processor.Process | vllm/logits_process.py:56-87 | raises each exception exactly when the source does, later calls with another vocabulary size included; the result masks exactly the banned tokens if and only if the cached bias fits: always for its own size, and by broadcasting for a bias of one token that bans nothing it should not |
| BadWords.SumIsMaskIff | vllm/logits_process.py:85-85 | the broadcast sum of logits and biases is the mask if and only if the bias fits |
| BadWords.OneTokenBiasMisfits | vllm/logits_process.py:61-85 | a bias cached for one banned token does not fit two finite logits |
| BadWords.FaultyIffEmpty | vllm/logits_process.py:66-76 | with ids in bounds only an empty word makes the call fail |
| BadWords.CleanSnoc | vllm/logits_process.py:66-83 | a text stays free of bad words if and only if the new token is not banned |
| BadWords.AllowedIsClean | vllm/logits_process.py:56-87 | the runs that the mask allows are exactly those that bring in no bad word |
| BadWords.Generate | vllm/logits_process.py:56-87 | for every model and sampler each token is the sampler's choice from the masked logits, the run stops early only at a masked or out-of-vocabulary choice, and no bad word comes in |
| SlotMapping.IdsDistinct | benchmarks/attention_benchmarks/mla_runner.py:284-288 | different used cells of the block table hold different ids |
| SlotMapping.IdIsUsed | benchmarks/attention_benchmarks/mla_runner.py:284-288 | every block id below the number of blocks is in a used cell |
| SlotMapping.InUsedBlock | benchmarks/attention_benchmarks/mla_runner.py:280-302 | a cached token lies in a block of its request, so no padded cell is consulted |
| SlotMapping.SlotInBounds | benchmarks/attention_benchmarks/mla_runner.py:298-304 | slots are below the number of blocks times the block size |
| SlotMapping.SlotsDistinct | benchmarks/attention_benchmarks/mla_runner.py:298-304 | different cached tokens have different slots |
| SlotMapping.BuildBlockTable | benchmarks/attention_benchmarks/mla_runner.py:279-288 | used cells hold the request's blocks side by side, all others stay zero, and the counter ends at the number of blocks |
| SlotMapping.SlotOfToken | benchmarks/attention_benchmarks/mla_runner.py:292-304 | a query token's slot is found at its place in the batch: first block times block size plus its cache position |
| SlotMapping.LookUp | benchmarks/attention_benchmarks/mla_runner.py:299-303 | the table cell of the token's block times the block size plus the offset in the block is the slot of the token |
| SlotMapping.BuildSlots | benchmarks/attention_benchmarks/mla_runner.py:292-304 | the slot list of the batch, from used cells only |
| SlotMapping.BatchInBounds | benchmarks/attention_benchmarks/mla_runner.py:292-304 | every slot of a batch is in bounds |
| SlotMapping.BatchDistinct | benchmarks/attention_benchmarks/mla_runner.py:292-304 | no two slots of a batch are equal |
| SlotMapping.BuildQueryStarts | benchmarks/attention_benchmarks/mla_runner.py:264-268 | query starts are the prefix sums of the query lengths |
| SlotMapping.BuildMetadata | benchmarks/attention_benchmarks/mla_runner.py:259-306 | fails exactly on an empty batch; otherwise table, slots, starts and number of blocks fit together |
| OutputMerge.IndicesOfAll | vllm/outputs.py:154-176 | indices stay distinct and in order of first appearance, merging or replacing |
| OutputMerge.DigestOfAll | vllm/outputs.py:157-170 | where no assertion fails, merging loses, repeats and reorders nothing: per index texts, tokens and log probabilities are concatenated in order, with the last finish data and the first origin |
| OutputMerge.CanAddAllIff | vllm/outputs.py:163-165 | no assertion fails if and only if log probabilities come only for indices whose first piece has them |
| OutputMerge.NoRoomFails | vllm/outputs.py:163-165 | log probabilities added to a completion without any make the assertion fail |
| OutputMerge.MergeAssociative | vllm/outputs.py:148-176 | adding from the left works if and only if log probabilities come only where the first piece has room; merging the last two first works if and only if that works and they have room by themselves; where both work the results are equal |
| OutputMerge.OnlyLeftWorks | vllm/outputs.py:163-165 | three completions that add up from the left and not from the right |
| OutputMerge.RunIsConcatenation | vllm/outputs.py:148-176 | after any run of deltas that does not fail each output is the concatenation of all pieces of its index |
| OutputMerge.FoldIsAddAll | vllm/outputs.py:154-176 | how the stream was cut into deltas does not matter |
| OutputMerge.CanFoldIff | vllm/outputs.py:154-176 | nor does it matter for whether an assertion fails |
| OutputMerge.ReplacedByLatest | vllm/outputs.py:171-173 | without aggregation each output is the last piece of its index |
| OutputStream.CompletionOutput.Absorb | vllm/outputs.py:157-170 | merges a delta into the object, failing exactly when log probabilities arrive and there is nowhere to put them |
| OutputStream.RequestOutput.AddCompletion | vllm/outputs.py:155-176 | one delta completion is merged, replaces, or is appended, failing exactly where the assertion does; the list then holds the specified values if and only if the object merged into is listed once or does not change |
| OutputStream.ListedTwice | vllm/outputs.py:155-176 | an object that is listed twice takes the delta at both places |
| OutputStream.RequestOutput.Add | vllm/outputs.py:148-176 | the objects after the call hold the merged values; finished is or-ed and transfer parameters are the last ones |
| OutputStream.AddRun | vllm/outputs.py:148-176 | adding a run of outputs in place gives the fold of the values they held at the start, although appended objects are changed by later calls |
| Bits.OrDisjoint | vllm/scalar_type.py:150-150 | bits that do not meet add up under bitwise or |
| Bits.OrBits | vllm/scalar_type.py:150-150 | bitwise or, bit by bit |
| ScalarTypeId.SamePackedIff | vllm/scalar_type.py:146-158 | packings of any fields are equal if and only if all fields agree in the bits that are kept |
| ScalarTypeId.OrAndAdvance | vllm/scalar_type.py:146-151 | a field is placed above everything packed before it |
| ScalarTypeId.ComputeId | vllm/scalar_type.py:136-164 | the id is the six fields side by side and fits into 58 bits |
| ScalarTypeId.IdLayout | vllm/scalar_type.py:144-158 | exponent from bit 0, mantissa from 8, sign at 16, bias from 17, the finite flag at 49, the NaN representation from 50 |
| ScalarTypeId.SameIdIff | vllm/scalar_type.py:143-158 | two types share an id if and only if their fields are congruent modulo their widths |
| ScalarTypeId.IdInjective | vllm/scalar_type.py:143-158 | in-range types with the same id are equal |
| ScalarTypeId.WideFieldsCollide | vllm/scalar_type.py:143-158 | out of range, different types can share an id |
| ScalarTypeId.Registry.ReadId | vllm/scalar_type.py:136-164 | the first read enters the type under its id, a cached read changes nothing |
| ScalarTypeId.Registry.FromId | vllm/scalar_type.py:308-312 | returns a registered type with that id, or fails exactly when there is none |
| ScalarTypeId.Registry.RoundTrip | vllm/scalar_type.py:266-312 | reading back the id of a registered type gives a registered type that agrees with it in the bits kept, and that very type while all are in range |
| ScalarTypeId.Registry.Register | vllm/scalar_type.py:162-162 | entering a type never changes what an entry agrees with, and changes no entry while all are in range |
| ScalarTypeId.Registry.Run | vllm/scalar_type.py:266-306 | over any run of constructions no id comes to stand for a type that disagrees, and while all are in range for another type |
| ScalarTypeId.MadeInteger | vllm/scalar_type.py:266-278 | integer types have the size in bits, the sign and the bias that they are made with |
| ScalarTypeId.MadeFloat | vllm/scalar_type.py:280-306 | floating-point types are signed and have the widths and flags asked for; they fail exactly without exponent or mantissa bits, or for an IEEE type made the general way |
| FloatFormats.LargestFields | vllm/scalar_type.py:71-85 | the assertions hold exactly for formats that a double can hold, and the fields are the ones the construction is after |
| FloatFormats.ReadDouble | vllm/scalar_type.py:103-105 | reading assembled bits gives the value of their fields, negated below a set sign bit |
| FloatFormats.FloatingPointMax | vllm/scalar_type.py:71-105 | the bits are those of a normal finite double; packing fails exactly for an extended-range format without mantissa bits |
| FloatFormats.FloatingPointMin | vllm/scalar_type.py:116-125 | the minimum reads as the negated maximum, for signed formats only |
| FloatFormats.MaxValueRegrouped | vllm/scalar_type.py:94-101 | that double has the value of the format's own significand at the format's own exponent |
| FloatFormats.EncodingOfTwo | vllm/scalar_type.py:91-95 | half-way up the exponents of any format lies the value two |
| FloatFormats.EncodingOfOne | vllm/scalar_type.py:91-95 | with two exponent bits or more, one lies an exponent below |
| FloatFormats.HalfPrecisionMax | vllm/scalar_type.py:71-101 | the maximum of the half-precision format is 65504 |
| FloatFormats.DoubleMax | vllm/scalar_type.py:71-101 | the maximum of the double format has the largest normal fields |
| FloatFormats.TopIsLargest | vllm/scalar_type.py:76-85 | no finite value of the format is larger, unless an IEEE format has no infinities |
| FloatFormats.MaxIsLargestIff | vllm/scalar_type.py:71-105 | the result is the format's largest finite value if and only if: an IEEE format has two exponent bits and infinities; a format without NaN is finite-only or has a mantissa bit; an extended-range format has a mantissa bit, and two unless it is finite-only |
| FloatFormats.OneExponentBit | vllm/scalar_type.py:80-97 | for an IEEE format with infinities and one exponent bit the result exceeds every finite value |
| FloatFormats.PlaceOfInfinity | vllm/scalar_type.py:76-85 | in an IEEE format without infinities the encoding in their place is finite and larger than the result |
| FloatFormats.WrongFormats | vllm/scalar_type.py:71-105 | a format of each kind for which the result is wrong or cannot be packed |
| LockstepChunks.ShardTokens | vllm/forward_context.py:76-81 | each shard of a rank gets that rank's tokens divided by the shards, rounded up |
| LockstepChunks.SizeInChunk | vllm/forward_context.py:96-98 | every round has between one token and a chunk |
| LockstepChunks.RoundSize | vllm/forward_context.py:96-98 | busy rounds take a chunk or the rest, all later rounds exactly one |
| LockstepChunks.WorkedInAll | vllm/forward_context.py:94-98 | the busy rounds do exactly the shard's tokens and every further round adds one |
| LockstepChunks.ChunkedLocalNumTokens | vllm/forward_context.py:84-99 | the sizes of all shards in a round |
| LockstepChunks.DPMetadata.EnterChunkedSizes | vllm/forward_context.py:130-163 | entering the context sets the sizes of the chunk |
| LockstepChunks.DPMetadata.Forward | vllm/forward_context.py:130-185 | over all rounds a shard works the sum of its sizes, and no sizes are left set |
| LockstepChunks.CuTokensAcrossSp | vllm/forward_context.py:191-196 | prefix sums of the shard counts |
| LockstepChunks.TotalOvershoot | vllm/forward_context.py:191-196 | the total is at least the true total and exceeds it by at most the number of shards less one per rank |
| IndexRanges.SortBySorts | vllm/model_inspection.py:46-46 | the stable sort is sorted and loses nothing |
| IndexRanges.CollectRanges | vllm/model_inspection.py:47-57 | the ranges stand for the list in order, and none goes on where the one before ends |
| IndexRanges.RangesMaximal | vllm/model_inspection.py:50-55 | for distinct indices at least one index is missing between two ranges |
| IndexRanges.ReadBack | vllm/model_inspection.py:54-58 | reading the printed ranges gives them back |
| IndexRanges.DashIff | vllm/model_inspection.py:54-57 | a dash is printed exactly for a range of more than one index |
| IndexRanges.TextOfTwo | vllm/model_inspection.py:45-58 | two ranges are printed as in the documentation |
| IndexRanges.FormatIndexRanges | vllm/model_inspection.py:44-58 | fails exactly on an empty list; for indices that are not negative the text reads back as the sorted list; for distinct indices at least one is missing between two printed ranges |
| IndexRanges.GroupBySignature | vllm/model_inspection.py:103-107 | the groups are the children of equal signature, one group per signature |
| IndexRanges.GroupChildren | vllm/model_inspection.py:103-110 | the same, ordered by the index of the child that came first in each group |
| IndexRanges.MembersExactly | vllm/model_inspection.py:105-107 | a group holds each child of its signature as often as it is there, and no other |
| IndexRanges.InExactlyOneGroup | vllm/model_inspection.py:103-110 | every numbered child is in exactly one group, the one of its signature |

## Left out

- RejectionSampler.RandomKernel: floating-point rounding of the ratio test is not modelled; probabilities are exact reals.
- RandomDecoding.EmittedIsTarget: the substitute is drawn from the normalised residual; that the maximiser of residual over exponential noise has this law is a fact about continuous distributions and is taken over.
- NgramProposer.ProposeTokens: batching over requests and threads is not modelled.
- Sparse attention, cache selection and quantised drafting decide only which tokens are drafted; the losslessness results hold for every draft.
- The schedulers, the block pool and the attention kernels are not part of this model.
- The compiler's choice of symbol inputs for a signature is a parameter; the order of names within a signature is not modelled.
- GraphRefinement.PartitioningPreservesMeaning: schedules are assumed to assign each name once, in topological order, and to free a name only after its last use; the compiler's node classes are not modelled.
- BuildSummary.SummarizeEntries: the printed report, the grouping by file extension and the floating-point warning threshold are not modelled.
- ChunkMapping.CreateAndMap: a failing access-rights call, the single-handle branch of other platforms and calls entered with an error code already set are not modelled.
- ChunkPlan.PlanAllocation: the environment variable is given parsed.
- FlatLogprobs.Replay: calls that follow a backward slice are not modelled.
- BadWords.Processor.Process: tokenising the words is not modelled.
- SlotMapping.BuildMetadata: block ids and slots are unbounded; since every slot is below the number of blocks times the block size, no 32-bit or 64-bit product wraps while that bound fits.
- OutputMerge.MergeAssociative: outputs that list an index twice are not described; the engine gives one completion per index.
- OutputStream.RequestOutput.Add: outputs that share completion objects with each other, and the partly updated state after a failed assertion, are not described.
- OutputStream.AddRun: the same, for the outputs of a run.
- ScalarTypeId.Registry.Run: type names, sizes in bits, integer ranges and the flag queries of a type are not modelled.
- LockstepChunks.DPMetadata.Forward: the context without chunking, which sets the shard counts themselves, is not modelled.
- IndexRanges.GroupChildren: rendering of the module tree around the groups is not modelled.
