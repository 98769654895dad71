# AUV sonar gateway: model and proofs

This project models the parts of the gateway that turn raw bytes and soundings into a depth surface, in the form the
Go code gives them (classes that update a buffer, a heap, a flat matrix or grid cells in place), and proves what they
are for.

## What is modelled

**Sonar framing.** `SonarStream.Parse` reads a whole byte stream at once: try every position, reject a header with a
length out of range, claim a frame once it is complete. `LeftmostReading` shows that this is the one reading that
claims, from left to right, every sync word it is not already inside; `StreamLaws` is about clean streams. `Assembler.SlidingWindowAssembler` is the machine with
its compacting buffer, four states and remembered scan offset; its invariant ties the buffer to a `History` of the
bytes fed, the frames claimed and the streams given up at resets. `ChunkedReading` says from the chunks alone where the
resets fall and what is delivered; `AssemblerRuns`, `ByteAccounting` and `HandlerErrors` state what whole runs of the
machine guarantee, `ResetLaws`, `ResetFrames`, `ManyResets` and `ResetRuns` what resets cost.

**Kriging.** `Elimination` is Gauss-Jordan elimination on matrices, `GaussJordan` the same in place on the flat augmented
array, `QuickSelect` partitions in place,
`Kriging.OrdinaryKriging` selects neighbours, fills the matrix, solves, and falls back on inverse distances.
`KrigingLaws` holds what any solution of the kriging equations promises, `KrigingError` what the variance means. `Variogram` has the three variogram models,
`VariogramFit` the empirical variogram and the fit.

**Reorganizer.** `FrameHeap` is the timestamp heap with Go's `container/heap` sifting, including removal from the
middle; `Reorganizer` keeps it, a map by ping counter and a list of counters together.

**Decoding.** `BitReader` reads bit fields with shifts and masks, `SonarPacket` decodes packets with it, `FrameCheck`
has the checks between assembler and decoder.

**Void filling.** `Grid` bins points into cells and classifies them. `FillRun` says what a filling run is, one decision
after another on the grid the ones before left, and what every run does; `VoidFiller` is the program that makes one.
`Soundings` says where samples and published points lie.

**INS.** `InsStream.Scan` reads a stretch of bytes into records, resynchronising on timestamps;
`InsProcessor.INSSafeProcessor` is the buffered processor, `InsRecords` says which bytes a delivered record comes from.
**Beam geometry** is in `Transform`.

## What the proofs found

- Independence of the chunking is not unconditional. After a chunk the buffer is emptied exactly when writing has gone
  past half of it and the stream is barren: at least four bytes lie behind the last thing read of it, and no complete
  sync word is among them (assembler.go:224-230, `Assembler.SlidingWindowAssembler.Feed`). How many bytes are pending
  does not matter: frames already delivered count towards the half, and four pending bytes are enough
  (`ResetRuns.FewPending`). The first one to three bytes of a sync word may be at the end of what is thrown away.
- Where the resets fall is determined by the chunks (`ChunkedReading.Reads`), and so is whether they cost anything:
  which stretches are delivered as frames is the same as for all the bytes read at once, whatever follows, if and only
  if no frame lies across a reset, that is, no sync word with a length that is let through
  (`ChunkedReading.ChunksDoNotMatterIff`, `ManyResets.RunDeliveriesAgreeIff`). Up to half the buffer in total nothing
  is ever reset (`ChunkedReading.WithinHalf`).
- At one reset: what is read, refused headers included, stays the same exactly when no sync word lies across the cut
  (`ResetLaws.SplitHarmlessIff`). A frame across the cut is lost, and it alone, unless other sync words start in it
  (`ResetFrames.FrameIsLost`, `ResetRuns.FedInTwo`). If they do, a frame read from one of them can have the same
  bytes, so that a comparison of contents does not show the loss (`ResetFrames.LossUnnoticed`).
- `uint16(a.maxSize)` wraps: the longest length accepted is `maxSize % 65536`, and the model says so for every size.
- A handler error ends the run with complete frames possibly still pending. If the handler accepts them, the next feed
  delivers them exactly when its bytes fit behind them; if they do not fit, all of them are lost
  (`HandlerErrors.FeedOn`, `HandlerErrors.OwedFramesAreLost`).
- The validator counts 20 header bytes and 10 bytes a beam, the decoder 32 and 8. Delivered frames that pass all
  checks and do not decode exist exactly for two to five beams; delivered frames that decode and that the validator
  refuses exist exactly for seven beams or more. Packets of exactly their own size pass with one to six beams
  (`FrameCheck.OwnSizePackets`). Also, `NewSafeSonarProcessor` replaces the frame handler that would have called the
  validator, so `HandleValidFrame` makes its own checks.
- A frame that does not decode is counted twice, once where it fails and once when the failure is reported back, so
  the sixth in a row is the first to ask for a reset (`FrameCheck.SixthAsksForReset`), not the eleventh.
- A ping counter that returns while it is cached leaves the frame it replaces in the heap: the heap holds exactly the
  cached frames if and only if no counter returned within N submissions (`Reorganizer.HeapMirrorsCacheIff`,
  `Reorganizer.StaleFrameStays`).
- The solver's tolerance is absolute: a system with one solution is refused exactly when one of its pivots lies
  between 0 and 1e-12 (`Elimination.SolvableButRefusedIff`), as in 1e-13 x = 1 (`Elimination.SmallPivotIsRefused`).
- The grid is kept when all points lie within it or on its edges, and then drops exactly those on its upper edges
  (`VoidFiller.VoidFiller.ProcessAndFill`, `VoidFiller.ReuseDrops`). A fresh one drops none, given a search radius that
  is not negative, and drops some otherwise.
- The range of a fitted variogram is always a third of the greatest distance, since no lag can reach the target; and
  fitting leaves the anisotropy ratio at 0, by which no anisotropic distance can be computed. The one caller of the
  fit therefore has to overwrite the ratio, and does (filler.go:139-146).
- The second pass of `ComputeStatistics`, over voids next to data, changes nothing (`Grid.SpatialGrid.MarkVoids`).
- Filled points carry the first neighbour's X and Y as latitude and longitude (`FillRun.PointFor`).
- The INS buffer is 1024 bytes: portions of up to 993 bytes never overrun on a clean stream, while the reader's own
  buffer lets datagrams of up to 4096 bytes through.

## Conventions

Bytes are integers below 256; 16-, 32- and 64-bit wrap-around is written out; counters of events are unbounded.
Floating-point numbers are exact reals, and `sqrt`, `exp`, `sin`, `cos` are parameters known by their laws
(`SqrtLaw`, `ExpLaw`, `ExpSums`, `CircleLaw`). `Usable` parameters are those for which no division by zero happens. A missing
variance (NaN) is `None`. The clock is an argument. The frame handler is a function from call number and frame to
success; frames, records and pings handed on are recorded in order. A `ghost` result of a method says how a result
came about and is not returned by the program.

## Model

| member | source | states |
|---|---|---|
| LeftmostReading.ParseIsLeftmost | internal/framing/assembler.go:201-311 | The reference parser's trace is justified by the bytes, claims disjoint ranges in order, and leaves no sync word unaccounted for |
| LeftmostReading.LeftmostIsParse | internal/framing/assembler.go:201-311 | Any trace with those properties is the parser's: there is one leftmost reading |
| StreamLaws.CleanParse | internal/framing/assembler.go:238-311 | Well-formed frames laid end to end are parsed back one by one, whatever sync-like bytes the payloads hold |
| StreamLaws.CleanNeverBarren | internal/framing/assembler.go:210-233 | In a clean stream the scan never runs over the whole buffer without a sync word |
| SonarStream.ParseSkip | internal/framing/assembler.go:207-233 | Skipping positions where no sync word starts does not change the parse: why the remembered scan offset is sound |
| SonarStream.SettledSkip | internal/framing/assembler.go:207-233 | Passing bytes without a sync word settles them, whatever follows in later chunks |
| SonarStream.SettledReject | internal/framing/assembler.go:254-265 | A length out of range settles one rejected header, whatever follows |
| SonarStream.SettledAccept | internal/framing/assembler.go:281-311 | A complete frame is settled, whatever follows |
| SonarStream.ParseResumes | internal/framing/assembler.go:172-199 | Reading goes on where any read part of the trace ends |
| SonarStream.SettledByParse | internal/framing/assembler.go:172-199 | What a stream holds is settled up to its last event, whatever follows |
| SonarStream.ParseGrows | internal/framing/assembler.go:201-311 | What is read of a stream is read of every longer one |
| AssemblerHistory.HistorySync | internal/framing/assembler.go:210-221 | Jumping to the first sync word keeps stream, trace and counters in agreement |
| AssemblerHistory.HistoryReject | internal/framing/assembler.go:254-265 | So does rejecting a header |
| AssemblerHistory.HistoryAccept | internal/framing/assembler.go:287-299 | So does delivering a frame, which is well-formed: sync word first, length field equal to its length |
| AssemblerHistory.HistoryBarren | internal/framing/assembler.go:224-230 | The sync-not-found reset closes a stream that holds no complete sync word behind what was read of it |
| AssemblerHistory.HistoryOverrun | internal/framing/assembler.go:153-163 | An overrun closes the stream and is counted |
| AssemblerHistory.StuckIsCaughtUp | internal/framing/assembler.go:172-199 | A machine that waits has claimed everything the bytes decide |
| AssemblerHistory.StuckStands | internal/framing/assembler.go:172-236 | Where it stands is decided by the bytes, and it would give the stream up exactly when that is barren |
| AssemblerHistory.DeliveredAndOwed | internal/framing/assembler.go:172-199 | Frames delivered and complete frames pending are the frames of the stream |
| AssemblerHistory.CloseBalance | internal/framing/assembler.go:121-128 | A reset keeps the account of bytes handed on, skipped and discarded |
| Assembler.SlidingWindowAssembler.constructor | internal/framing/assembler.go:79-91 | A new machine is valid and waits; a size of 0 or less becomes the maximum |
| Assembler.SlidingWindowAssembler.ResetLocked | internal/framing/assembler.go:121-128 | Empties the buffer and closes the current stream |
| Assembler.SlidingWindowAssembler.CompactIfNeeded | internal/framing/assembler.go:134-142 | Moves pending bytes to the front exactly when they fill less than a quarter; no byte changes and the invariant holds |
| Assembler.SlidingWindowAssembler.FindSync | internal/framing/assembler.go:207-222 | The first place in the scan range where a sync word starts, or the place behind the range |
| Assembler.SlidingWindowAssembler.HandleWaitSync | internal/framing/assembler.go:201-236 | Finds a sync word, waits, or resets; resets exactly when writing is past half of the capacity and the stream is barren |
| Assembler.SlidingWindowAssembler.HandleReadHeader | internal/framing/assembler.go:238-279 | Accepts a length in range, else gives up one byte, else waits |
| Assembler.SlidingWindowAssembler.HandleReadPayload | internal/framing/assembler.go:281-311 | Hands on exactly the stated bytes once they are there and reports the handler's verdict |
| Assembler.SlidingWindowAssembler.RunStateMachine | internal/framing/assembler.go:172-199 | Terminates; ends waiting with every handler call successful, or at the first failing call; whether it ends with a reset |
| Assembler.SlidingWindowAssembler.Append | internal/framing/assembler.go:165-167 | Copies a chunk behind the pending bytes |
| Assembler.SlidingWindowAssembler.Overrun | internal/framing/assembler.go:153-163 | Gives up the buffered bytes and every complete frame among them, keeps what was delivered |
| Assembler.SlidingWindowAssembler.Feed | internal/framing/assembler.go:144-170 | For any bytes: overruns exactly when the chunk does not fit after compaction; otherwise frames delivered plus complete frames still pending are those the parse finds, and nothing is pending unless the handler failed; the stream is given up exactly when writing is past half of the capacity and the stream is barren; positions after a failure |
| AssemblerRuns.DeliveredIsParsed | internal/framing/assembler.go:144-311 | Whenever the machine waits without an overrun, the frames delivered are the parses of the streams between resets |
| AssemblerRuns.DeliveredIsWhole | internal/framing/assembler.go:144-311 | With no frame across a reset, they are one parse of all the bytes fed |
| AssemblerRuns.RoomForHalf | internal/framing/assembler.go:144-163 | A waiting machine has room for any chunk of up to twice the frame size |
| AssemblerRuns.Receive | internal/tcp/server.go:170-203 | For any chunks: frames are only appended; with a handler that never fails and chunks of up to twice the frame size there is never an overrun; as long as the handler accepts the frames, resets, overruns, buffer position and delivered frames are what the chunks alone determine |
| AssemblerRuns.FeedChunk | internal/framing/assembler.go:144-170 | The same for one chunk |
| AssemblerRuns.ReceiveFresh | internal/tcp/server.go:170-203 | From a new machine, for any chunks: the frames are those the chunks determine, overruns or not; without an overrun and a frame across a reset, those of all the bytes read at once |
| ChunkedReading.NextGrows | internal/framing/assembler.go:144-236 | No chunk, reset or overrun takes a delivered frame back |
| ChunkedReading.ReadsAll | internal/framing/assembler.go:144-236 | Without an overrun every byte is in a stream, and every stream given up is barren |
| ChunkedReading.ChunksDoNotMatter | internal/framing/assembler.go:144-236 | If reading the chunks overruns nothing and leaves no frame across a reset, the frames are those of all the bytes read at once |
| ChunkedReading.ChunksDoNotMatterIff | internal/framing/assembler.go:144-236 | Which stretches are delivered is then the same whatever follows, and only then |
| ChunkedReading.PendingSmall | internal/framing/assembler.go:201-285 | A stream that is not barren leaves less than a frame or header pending |
| ChunkedReading.HalfNeverOverruns | internal/framing/assembler.go:144-163 | Chunks of up to twice the frame size never overrun the buffer |
| ChunkedReading.WithinHalf | internal/framing/assembler.go:144-236 | Up to twice the frame size in total nothing is reset or lost, whatever the chunks |
| AssemblerRuns.CleanOutcome | internal/framing/assembler.go:144-311 | A machine fed exactly a clean stream has delivered its frames, with nothing pending and every counter as expected |
| AssemblerRuns.FeedClean | internal/framing/assembler.go:144-170 | One chunk of up to three frame sizes of a clean stream: no reset, no overrun |
| AssemblerRuns.ReceiveClean | internal/multicast/receiver.go:127-160 | Clean-stream reassembly: every chunking gives exactly the frames back, in order, without resync, invalid length or overrun |
| HandlerErrors.FeedOn | internal/framing/assembler.go:152-167 | From any reachable state, also behind a handler error: if the handler accepts the complete frames left pending, they are delivered if and only if the new bytes fit; if not, they are lost; and if it accepts all that is due, all of that is delivered |
| HandlerErrors.OwedFramesAreLost | internal/framing/assembler.go:299-307 | A run on four frames in one chunk: the handler fails on the first, leaves three complete frames behind, and the next chunk loses them |
| ResetLaws.ParseShift | internal/framing/assembler.go:201-311 | Parsing does not look back: bytes before the start only move the positions |
| ResetLaws.SplitIsHarmless | internal/framing/assembler.go:224-230 | Without a sync word across the cut the two halves may be read apart |
| ResetLaws.SplitLosesSync | internal/framing/assembler.go:224-230 | With a sync word across the cut, an event of the whole stream is missing |
| ResetLaws.SplitHarmlessIff | internal/framing/assembler.go:224-230 | What is read, refused headers included, does not change for any continuation if and only if no sync word lies across the cut |
| ManyResets.ResetsAreHarmless | internal/framing/assembler.go:224-230 | Over any number of resets with no frame across any, the frames are those of the whole stream |
| ManyResets.RunDeliveriesAgreeIff | internal/framing/assembler.go:224-230 | Over any number of resets, which stretches are delivered does not change for any continuation if and only if no frame lies across any of them |
| ResetFrames.NoFrameIsLost | internal/framing/assembler.go:224-230 | Without a sync word across the cut whose length is let through, no continuation loses a frame |
| ResetFrames.FrameIsLost | internal/framing/assembler.go:224-230 | With one, and no other sync word in its frame, exactly that frame is lost and nothing else |
| ResetFrames.DeliveriesAgreeIff | internal/framing/assembler.go:224-230 | Which stretches of the stream are delivered does not change for any continuation if and only if no frame lies across the cut |
| ResetFrames.FramesAgreeIff | internal/framing/assembler.go:224-230 | The same for the frames themselves, when no other sync word starts in the frame across the cut |
| ResetFrames.LossUnnoticed | internal/framing/assembler.go:224-230 | Without that proviso it fails: a stream in which the lost frame is made up for by another of the same bytes, whatever follows |
| ResetRuns.WaitsForSomething | internal/framing/assembler.go:201-236 | A machine that waits with more than half its capacity written has seen a sync word |
| ResetRuns.FedAtOnce | internal/framing/assembler.go:144-236 | A run of 120 bytes fed at once delivers the frame at their end |
| ResetRuns.FedInTwo | internal/framing/assembler.go:144-236 | The same bytes in two chunks, with the reset between, deliver nothing |
| ResetRuns.FewPending | internal/framing/assembler.go:201-236 | A run in which two frames are delivered, only four bytes are pending, and the reset costs the third frame |
| StreamBytes.FramesAndGaps | internal/framing/assembler.go:201-311 | Frames claimed in order share no byte: their lengths and the skipped positions add up |
| ByteAccounting.EveryByteAccounted | internal/framing/assembler.go:144-311 | In every reachable state, overruns and resets included: bytes fed equal bytes handed on plus skipped plus discarded while pending plus pending |
| LinearSystem.SwapKeeps | internal/kriging/solver.go:227-231 | Exchanging rows keeps the solution set |
| LinearSystem.ScaleKeeps | internal/kriging/solver.go:233-236 | Dividing a row by its pivot keeps the solution set |
| LinearSystem.MinusKeeps | internal/kriging/solver.go:238-246 | Subtracting a multiple of another row keeps the solution set |
| LinearSystem.ReducedIsSolved | internal/kriging/solver.go:249-254 | With the identity on the left, the last column is the one solution |
| GaussJordan.FindPivot | internal/kriging/solver.go:213-221 | The first row at or below the diagonal with the entry largest in magnitude, and that magnitude |
| GaussJordan.SwapRowsInPlace | internal/kriging/solver.go:227-231 | The flat array afterwards holds the matrix with the two rows exchanged |
| GaussJordan.ScaleRowInPlace | internal/kriging/solver.go:233-236 | The flat array afterwards holds the matrix with the pivot row scaled |
| GaussJordan.EliminateRowInPlace | internal/kriging/solver.go:242-245 | The flat array afterwards holds the matrix with one row reduced |
| GaussJordan.EliminateColumn | internal/kriging/solver.go:238-246 | The flat array afterwards holds the matrix with the column cleared, row by row |
| GaussJordan.Augment | internal/kriging/solver.go:206-210 | The flat augmented array holds coefficients and right-hand side |
| Elimination.StepReduces | internal/kriging/solver.go:212-247 | A column with a pivot becomes that of the identity, and the solutions stay |
| Elimination.EliminatedIsReduced | internal/kriging/solver.go:212-247 | So after every column |
| Elimination.ZeroPivotIsSingular | internal/kriging/solver.go:223-225 | Without a pivot there is never exactly one solution |
| Elimination.UniqueIffPivots | internal/kriging/solver.go:205-255 | A system has exactly one solution if and only if no pivot is zero: the solver refuses a solvable system only for a pivot between 0 and the tolerance |
| Elimination.SolvableButRefusedIff | internal/kriging/solver.go:223-225 | A system with exactly one solution is refused if and only if no pivot is zero and one is below the tolerance |
| Elimination.SmallPivotIsRefused | internal/kriging/solver.go:223-225 | One such system |
| Elimination.OneEquation | internal/kriging/solver.go:223-225 | One equation in one unknown is accepted exactly with a coefficient of at least 1e-12 in magnitude |
| GaussJordan.EliminateStepInPlace | internal/kriging/solver.go:227-246 | Swap, scale and eliminate are one step of the elimination |
| GaussJordan.SolveLinearSystem | internal/kriging/solver.go:205-255 | For every n: succeeds if and only if no pivot is below the tolerance; a returned x solves the system and is its only solution; a refusal names the first column that fails and its pivot |
| QuickSelect.PartitionItems | internal/kriging/solver.go:192-203 | Rearranges only the range, and splits it around the distance of its last item |
| QuickSelect.QuickSelectItems | internal/kriging/solver.go:179-190 | Terminates with a rearrangement in which nothing before place k is farther than anything from k on |
| Kriging.OrdinaryKriging.SelectNeighbors | internal/kriging/solver.go:157-172 | As many candidates as asked for, none farther from the target than any left out; kept and dropped make up the candidates |
| Kriging.OrdinaryKriging.FallbackIDW | internal/kriging/solver.go:122-155 | The first coincident sample, or positive weights that sum to 1 and fall with the squared distance |
| Kriging.OrdinaryKriging.FillRow | internal/kriging/solver.go:67-80 | One row and one border entry of the coefficient matrix, nothing else |
| Kriging.OrdinaryKriging.BuildCoefficients | internal/kriging/solver.go:63-81 | The flat array holds the kriging coefficient matrix |
| Kriging.OrdinaryKriging.BuildTargets | internal/kriging/solver.go:83-89 | The right-hand side holds the variogram values towards the target and a 1 |
| Kriging.OrdinaryKriging.Combine | internal/kriging/solver.go:96-105 | Value and variance as weighted sums |
| Kriging.OrdinaryKriging.Interpolate | internal/kriging/solver.go:53-120 | Refuses fewer than four neighbours; otherwise estimates from the nearest 24, by the unique solution of the kriging equations, with the mean squared error as variance, or by inverse distances |
| KrigingError.VarianceIsError | internal/kriging/solver.go:99-109 | Of every solution of the equations the variance is the mean squared error of the estimate: twice the weighted variogram to the target less that among the samples |
| KrigingError.KrigingIsBest | internal/kriging/solver.go:64-109 | Of all weights that add up to one: the error of others differs from the kriging variance by the negated variogram of the weights' differences, so no unbiased estimate is better |
| KrigingLaws.WeightsSumToOne | internal/kriging/solver.go:63-89 | The last equation makes the weights sum to 1 |
| KrigingLaws.UnitSolves | internal/kriging/solver.go:63-89 | With the target on a sample a unit vector solves the equations |
| KrigingLaws.SolvedMeansDistinct | internal/kriging/solver.go:63-89 | Two samples at one place exclude a unique solution |
| KrigingLaws.ExactAtSample | internal/kriging/solver.go:91-107 | With the target on a sample the estimate is the sample, with variance 0 |
| KrigingLaws.TargetSampleKept | internal/kriging/solver.go:157-172 | If the equations could be solved, a sample on the target was not dropped by the selection |
| Kriging.EstimateWeightsSumToOne | internal/kriging/solver.go:91-155 | Unbiasedness of every estimate, solved or not |
| Kriging.EstimateKeepsConstants | internal/kriging/solver.go:91-155 | A constant field is reproduced, solved or not |
| Kriging.WeightedBetween | internal/kriging/solver.go:122-155 | The fallback lies between the least and the greatest sample |
| Kriging.KrigedIsExact | internal/kriging/solver.go:53-120 | Exact interpolation among any number of candidates: value of the sample, variance 0 |
| Kriging.WeightedIsNearlyExact | internal/kriging/solver.go:122-155 | The fallback takes over a sample within the coincidence distance |
| Kriging.TakenOver | internal/kriging/solver.go:122-155 | It takes over the first sample less than 1e-12 away, with variance 0 and weight 1 |
| Variogram.GammaAtZero | internal/kriging/variogram.go:35-76 | Distance and variogram of a point to itself are 0 |
| Variogram.GammaMonotone | internal/kriging/variogram.go:35-59 | In every model the variogram never falls with distance and stays within 0 and nugget plus sill |
| Variogram.SphericalSlope | internal/kriging/variogram.go:40-47 | How steep the spherical model is: between two distances it rises between the slopes 1.5 (1 - b^2) and 1.5 (1 - a^2), a and b the shares of the range |
| Variogram.SphericalEnds | internal/kriging/variogram.go:40-47 | It starts at the nugget and stays at nugget plus sill from the range on |
| Variogram.ExponentialShares | internal/kriging/variogram.go:49-51 | In the exponential model missing shares of the sill multiply when distances add; at the range exp(-3) is missing |
| Variogram.GaussianShares | internal/kriging/variogram.go:53-55 | In the Gaussian model they multiply when squared distances add |
| Variogram.GammaElse | internal/kriging/variogram.go:35-59 | Nothing at distance 0 or less, nugget plus sill under an unknown model |
| Variogram.AnisotropyAcross | internal/kriging/variogram.go:61-77 | The law of Pythagoras for steps along the axis of anisotropy and across it, those across divided by the ratio |
| Variogram.EuclidIsLength | internal/kriging/solver.go:122-155 | The law of Pythagoras for plain distances |
| VariogramFit.LagOf | internal/kriging/variogram.go:102-111 | Truncating distance over width gives the one lag that holds the distance |
| VariogramFit.EmpiricalVariogram.constructor | internal/kriging/variogram.go:87-100 | Empty lags, centred |
| VariogramFit.EmpiricalVariogram.AddPair | internal/kriging/variogram.go:102-112 | Counts and sums stay those of the pairs added, lag by lag; pairs at 0 or too far have no lag |
| VariogramFit.EmpiricalVariogram.Finalize | internal/kriging/variogram.go:114-120 | Every populated lag holds half the mean squared difference of its pairs |
| VariogramFit.EstimateOfEqual | internal/kriging/variogram.go:114-120 | Where all squared differences of a lag are D its estimate is half of D |
| VariogramFit.CentreIsHalfway | internal/kriging/variogram.go:96-98 | A lag's centre is halfway between its ends |
| VariogramFit.EstimateNugget | internal/kriging/variogram.go:210-217 | Half the estimate of the first populated lag, or 0.01 when there is none |
| VariogramFit.EstimateRange | internal/kriging/variogram.go:219-227 | The centre of the first lag that reaches the target, or a third of the greatest distance when none does |
| VariogramFit.Survey | internal/kriging/variogram.go:174-183 | The largest estimate of a populated lag and the number of populated lags |
| VariogramFit.FitFromEmpirical | internal/kriging/variogram.go:173-208 | Nugget plus sill is 1.1 times the maximum, the nugget at most half of it, the range always a third of the greatest distance |
| VariogramFit.AddRow | internal/kriging/variogram.go:137-146 | The pairs of one sample with the later ones, by the step |
| VariogramFit.FitVariogram | internal/kriging/variogram.go:128-171 | The fit of the estimates over all pairs, or over a regular subset of them; the result leaves the anisotropy ratio at 0 |
| VariogramFit.PairIs | internal/kriging/variogram.go:139-143 | A pair is as far apart as its samples and has the square of their difference |
| VariogramFit.StepIs | internal/kriging/variogram.go:130-154 | Fewer than 400 samples are all used, of more 200 to 399 |
| VariogramFit.EveryPairOnce | internal/kriging/variogram.go:137-146 | With step one every two samples make a pair, and there are no others |
| FrameHeap.Up | internal/pointcloud/reorganizer.go:12-16 | Sifting up restores heap order and keeps the frames |
| FrameHeap.Down | internal/pointcloud/reorganizer.go:12-16 | Sifting down restores heap order below a place and reports whether anything moved |
| FrameHeap.FrontIsFirst | internal/pointcloud/reorganizer.go:12-16 | The front of a heap is the earliest frame |
| FrameHeap.Push | internal/pointcloud/reorganizer.go:18-20 | Heap order and one frame more |
| FrameHeap.Pop | internal/pointcloud/reorganizer.go:22-29 | The earliest frame, and a heap of the others |
| FrameHeap.Remove | internal/pointcloud/reorganizer.go:199-207 | Removing any place keeps heap order and takes exactly that frame out |
| FrameHeap.Drain | internal/pointcloud/reorganizer.go:220-226 | Popping a copy empty gives the frames in time order |
| Reorganizer.CollisionIsRepeat | internal/pointcloud/reorganizer.go:88-94 | A counter is found cached exactly when it came up among the last N submissions |
| Reorganizer.EvictKeeps | internal/pointcloud/reorganizer.go:193-208 | Evicting keeps heap, cache and order linked |
| Reorganizer.InsertKeeps | internal/pointcloud/reorganizer.go:88-98 | So does inserting; a replaced frame goes stale |
| Reorganizer.Reorganizer.constructor | internal/pointcloud/reorganizer.go:52-61 | Starts empty and linked |
| Reorganizer.Reorganizer.EvictOldest | internal/pointcloud/reorganizer.go:193-208 | Drops the oldest counter and its frame from cache and heap |
| Reorganizer.Reorganizer.SubmitFrame | internal/pointcloud/reorganizer.go:84-107 | Ignores empty frames; otherwise terminates for every N with at most N frames cached and everything linked |
| Reorganizer.Reorganizer.GetOrderedFrames | internal/pointcloud/reorganizer.go:216-228 | Changes nothing and returns, in time order, the cached frames plus stale ones; with no early return of a counter exactly the last N submissions |
| Reorganizer.Reorganizer.Flush | internal/pointcloud/reorganizer.go:230-250 | Returns everything in time order and leaves nothing |
| Reorganizer.HeapMirrorsCacheIff | internal/pointcloud/reorganizer.go:84-98 | The heap holds exactly the cached frames if and only if no counter returned within N submissions; the cached ones are always in it |
| Reorganizer.CacheIsWindow | internal/pointcloud/reorganizer.go:84-98 | Until then the cache is the window of the last N submissions |
| Reorganizer.StaleFrameStays | internal/pointcloud/reorganizer.go:84-98 | A run in which a counter comes back: one frame is cached, two stay in the heap and are read out |
| Bits.BitsCompose | internal/uper/decoder.go:32-62 | The value of a then b bits is the value of a + b bits |
| Bits.BitsInjective | internal/uper/decoder.go:32-62 | Equal values of n bits mean equal bits |
| Bits.ByteChunk | internal/uper/decoder.go:32-62 | Shifting and masking one byte gives the value of the bits in it |
| Bits.ShiftIn | internal/uper/decoder.go:32-62 | Shifting the accumulator and or-ing a chunk in extends its value, kept to 64 bits |
| BitReader.BitLen | internal/uper/decoder.go:120-127 | The least width that holds the number |
| BitReader.BitReader.ReadBits | internal/uper/decoder.go:32-62 | The big-endian value of exactly the next n bits; the offset stays on failure |
| BitReader.BitReader.ReadUint | internal/uper/decoder.go:64-66 | The same, without wrap-around for up to 64 bits |
| BitReader.BitReader.ReadInt | internal/uper/decoder.go:68-77 | Their two's complement; of more than 64 bits the last 64 count |
| BitReader.BitReader.ReadConstrainedWholeNumber | internal/uper/decoder.go:79-90 | Minimum plus the bits of the least width, as in clause 11.5 of ITU-T X.691; the minimum alone when it equals the maximum |
| BitReader.BitReader.ReadBitField | internal/uper/decoder.go:92-107 | The same bits left-aligned in bytes, padded with zeros |
| BitReader.ConstrainedRoundTrip | internal/uper/decoder.go:79-90 | Every number in range is recovered from its encoding, and a result is in range exactly when the bits are an encoding |
| BitReader.SignExtended | internal/uper/decoder.go:68-77 | Filling the upper bits of a word with the sign bit gives the two's complement of n bits |
| BitReader.OrBitSets | internal/uper/decoder.go:97-105 | Or-ing a bit into a zero place changes that bit and no other |
| SonarPacket.BitsAre64 | internal/uper/decoder.go:32-66 | Bit fields at byte boundaries are big-endian words |
| SonarPacket.SonarPacketDecoder.DecodeBeam | internal/uper/decoder.go:226-267 | The beam in the next eight bytes, or a failure at the field the first missing byte is in |
| SonarPacket.SonarPacketDecoder.DecodeBeams | internal/uper/decoder.go:212-221 | All the beams, or a failure at the field the first missing byte is in |
| SonarPacket.SonarPacketDecoder.Decode | internal/uper/decoder.go:139-224 | Succeeds exactly when the sync word matches, there are at most 512 beams and at least 32 + 8n bytes; otherwise which error, and for a packet cut off the field it is cut off in |
| SonarPacket.EncodeDecoded | internal/uper/decoder.go:139-267 | Writing a decoded ping gives the packet's bytes back |
| SonarPacket.DecodeInjective | internal/uper/decoder.go:139-267 | Packets that decode alike have the same bytes |
| SonarPacket.DecodeEncoded | internal/uper/decoder.go:139-267 | Every ping within the field ranges decodes from its bytes, whatever follows them |
| SonarPacket.DecodesIff | internal/uper/decoder.go:139-224 | Exactly which byte strings decode, in terms of their bytes |
| SonarPacket.BeamBytes | internal/uper/decoder.go:226-267 | Which byte of a packet says what of each beam |
| SonarPacket.HeaderSlices | internal/uper/decoder.go:139-210 | Which bytes say what of the header |
| FrameCheck.DeliveredFrameChecks | internal/framing/safe_processor.go:44-72 | Of a delivered frame neither length nor sync word is ever found wrong; the two checks agree up to the greatest length |
| FrameCheck.EveryDeliveredFrame | internal/framing/safe_processor.go:49-55 | In every reachable state of the assembler; every delivered frame has 40 to maxSize mod 65536 bytes |
| FrameCheck.ValidatedDecodes | internal/framing/assembler.go:371-398 | A delivered frame the validator accepts decodes if and only if it holds the decoder's 32 + 8n bytes; always with at most one beam or at least six |
| FrameCheck.CheckedButUndecodableIff | internal/framing/assembler.go:391-395 | There are delivered frames of n beams that pass the checks and do not decode if and only if n is two to five |
| FrameCheck.RefusedThoughDecodable | internal/framing/safe_processor.go:57-70 | A delivered frame decodes although it is refused exactly when 32 + 8n bytes fit and 20 + 10n do not, or, for the checks before decoding, when it is over 5140 bytes |
| FrameCheck.RefusedThoughDecodableIff | internal/framing/assembler.go:391-395 | There are delivered frames of n beams that decode and that the validator refuses if and only if n is at least seven |
| FrameCheck.OwnSizePackets | internal/framing/safe_processor.go:57-70 | A packet of exactly its own size is delivered and passes the checks if and only if it has one to six beams |
| FrameCheck.SafeFrameProcessor.HandleValidFrame | internal/framing/safe_processor.go:44-89 | Hands on the decoded ping exactly when check and decoder agree, and clears the error counter; a failed decode counts one error |
| FrameCheck.SafeFrameProcessor.HandleAssemblerError | internal/framing/safe_processor.go:91-99 | Counts one error on the same counter; the eleventh asks for a reset and clears it |
| FrameCheck.SafeFrameProcessor.HandleDelivered | internal/framing/assembler.go:301-307 | A refused frame is reported back: a failed decode makes two errors, any other refusal one |
| FrameCheck.SafeFrameProcessor.HandleAll | internal/framing/safe_processor.go:44-99 | Over any frames: the pings of those that pass and decode, in order, and the error counter of the run |
| FrameCheck.UndecodableRun | internal/framing/safe_processor.go:72-80 | A run of frames that pass and do not decode counts each of them twice |
| FrameCheck.SixthAsksForReset | internal/framing/safe_processor.go:72-99 | From a cleared counter the sixth such frame in a row is the first to ask for a reset |
| FrameCheck.ReceivePackets | internal/tcp/server.go:170-203 | Any chunking of packets that pass and decode gives exactly their pings, in order, and leaves no error |
| FrameCheck.ReceivePings | internal/tcp/server.go:170-203 | From bytes to pings: pings written out with any padding that passes the checks, in any chunking, are exactly the pings handed on |
| Grid.SpatialGrid.constructor | internal/voidfill/grid.go:48-83 | The cells tile the bounds, each at its place, all distinct and empty |
| Grid.SpatialGrid.MakeCells | internal/voidfill/grid.go:62-82 | One new empty cell at its place for every column and row |
| Grid.SpatialGrid.CellIndexIsTheBox | internal/voidfill/grid.go:99-109 | A point has a cell exactly when it is inside the bounds, and it is the one cell whose box holds the point |
| Grid.SpatialGrid.Reset | internal/voidfill/grid.go:85-97 | Every cell is empty again |
| Grid.SpatialGrid.AddPoint | internal/voidfill/grid.go:111-131 | Accepts exactly the points inside, each into its own cell |
| Grid.SpatialGrid.AddPoints | internal/voidfill/grid.go:133-141 | Adds them one by one and counts the accepted ones |
| Grid.SpatialGrid.CellGetsItsBox | internal/voidfill/grid.go:99-141 | Every cell gets exactly the points in its box, in order, with their least and greatest depth |
| Grid.SpatialGrid.TallyCells | internal/voidfill/grid.go:147-161 | Every cell is tallied: average and data with enough points, void otherwise |
| Grid.SpatialGrid.MarkVoids | internal/voidfill/grid.go:163-191 | The pass over voids next to data changes nothing |
| Grid.SpatialGrid.MarkEdges | internal/voidfill/grid.go:193-219 | Marks the data cells next to a void |
| Grid.SpatialGrid.ComputeStatistics | internal/voidfill/grid.go:143-220 | Afterwards every cell is exactly one of data and void, data exactly with enough points, edge exactly next to a void |
| Grid.SpatialGrid.EdgedIsClassified | internal/voidfill/grid.go:193-219 | Why marking one cell after another gives that classification |
| Grid.SpatialGrid.ScanAround | internal/voidfill/grid.go:193-219 | Whether one of the up to eight neighbours is of the kind asked for |
| Grid.SpatialGrid.AnalyzeVoids | internal/voidfill/grid.go:231-251 | The number of cells, data, void and edge cells, and the percentage of voids |
| Grid.SpatialGrid.GetVoidCells | internal/voidfill/grid.go:253-264 | Every void cell once, in grid order |
| Grid.SpatialGrid.GetNeighbors | internal/voidfill/grid.go:285-309 | Exactly the samples of the data cells within the radius, in order, the cell itself included: each with place and depth of a point there, in a column and a row within the radius |
| Grid.SpatialGrid.AroundIsSampled | internal/voidfill/grid.go:285-309 | A sample is returned if and only if it comes from a data cell within the radius |
| Grid.SpatialGrid.AroundIsSoundings | internal/voidfill/grid.go:285-309 | A sample is returned if and only if a point of a data cell within the radius has its place and depth |
| Grid.SpatialGrid.CentreInBox | internal/voidfill/grid.go:62-82 | A cell's centre is halfway across its box, and in it |
| Grid.CountsAddUp | internal/voidfill/grid.go:231-251 | Data and void cells are all cells, and edges are data cells |
| Grid.SpatialGrid.BoxGrows | internal/voidfill/grid.go:285-309 | Filling cells never lowers the number of samples around any cell |
| Grid.SpatialGrid.SetCellFilled | internal/voidfill/grid.go:328-342 | Changes the one cell, and refuses places outside |
| Grid.SpatialGrid.InterpolatedPoints | internal/voidfill/grid.go:363-382 | One point for every data cell with points, in order, at its centre and average depth |
| Grid.SpatialGrid.PublishedStandsFor | internal/voidfill/grid.go:363-382 | A point is published if and only if it stands for a data cell with points |
| Grid.VoidCountFilled | internal/voidfill/grid.go:328-342 | Filling a void lowers the void count by one |
| VoidFiller.FallbackIDW | internal/voidfill/filler.go:328-360 | The first sample on the spot, else the mean weighted by the inverse fourth power of the distance, else nothing |
| FillRun.IdwBetween | internal/voidfill/filler.go:328-360 | That mean lies between the least and the greatest neighbour |
| FillRun.TwoSamples | internal/voidfill/filler.go:328-360 | Of two samples each counts with the fourth power of the other's distance |
| FillRun.OnTheSpot | internal/voidfill/filler.go:334-343 | The first sample with a squared distance below 1e-12 is taken over |
| FillRun.DecidesConstant | internal/voidfill/filler.go:261-314 | Where all neighbours say the same depth, so does the point put in |
| FillRun.FilledOnce | internal/voidfill/filler.go:316-319 | A cell filled in a run is filled once, from its state before the run |
| FillRun.Untouched | internal/voidfill/filler.go:239-320 | A cell no decision fills keeps its state |
| FillRun.FillsTakeVoids | internal/voidfill/filler.go:316-319 | Every fill takes exactly one void away |
| FillRun.RunAccounts | internal/voidfill/filler.go:217-326 | Of every run: fills within a positive budget, voids lowered by the fills, cells with data unchanged, voids unchanged or filled |
| FillRun.EnoughIsFilled | internal/voidfill/filler.go:217-326 | A run that saw all voids filled every void that had enough samples around it from the start |
| FillRun.RunIsFlat | internal/voidfill/filler.go:217-326 | A flat bottom is filled flat |
| VoidFiller.DefaultBounds | internal/voidfill/filler.go:375-396 | The least and greatest coordinates |
| VoidFiller.PaddedTakes | internal/voidfill/filler.go:178-187 | A freshly made grid keeps all points if and only if the search radius is not negative |
| VoidFiller.ReusedTakes | internal/voidfill/filler.go:178-187 | A reused grid keeps all points if and only if none is on its upper edges |
| VoidFiller.CentresMapBack | internal/voidfill/filler.go:236-259 | With the grid's own cell size a void's centre leads back to its cell |
| VoidFiller.VoidFiller.Estimate | internal/voidfill/filler.go:261-293 | Takes exactly the decision the configuration asks for, with the kriging estimate or the weighted mean as its value |
| VoidFiller.VoidFiller.PlaceOfCell | internal/voidfill/filler.go:236-259 | Column and row of the cell, always inside the grid |
| VoidFiller.VoidFiller.TryFill | internal/voidfill/filler.go:246-319 | The decision is right for the grid as it stands, and changes the one cell or nothing |
| VoidFiller.VoidFiller.FillVoids | internal/voidfill/filler.go:217-326 | The decisions are a run over the voids in order, stopped only by a used-up budget; the grid is what the run leaves, and the counts and points are those of the run |
| VoidFiller.VoidFiller.PrepareGrid | internal/voidfill/filler.go:178-184 | The old grid emptied when the points fit it, else a padded new one |
| VoidFiller.VoidFiller.LoadGrid | internal/voidfill/filler.go:172-187 | When the old grid is kept and how a new one is laid out; the grid holds and classifies exactly the points; when all of them are accepted |
| VoidFiller.VoidFiller.ProcessAndFill | internal/voidfill/filler.go:163-215 | From points to surface: the grid kept or new, the points gridded and when none is dropped, filled by a run, published, with the counts of the run |
| VoidFiller.GriddedCell | internal/voidfill/grid.go:111-161 | A gridded cell holds exactly the points in its box, in order, with their least, greatest and mean depth |
| Soundings.RunSeesSoundings | internal/voidfill/filler.go:239-320 | Whatever a void is estimated from during a run is a point given, or one put in before at a cell's centre, and lies in a column and a row within the radius |
| Soundings.PublishedIsSurface | internal/voidfill/filler.go:163-215 | Every published point is in the middle of a cell, at the mean depth of the points in the cell's box or the depth the run put in, with the other fields of the cell's first point |
| Soundings.FillIsAtCentre | internal/voidfill/filler.go:300-316 | A point put in is at the cell's centre, at the depth decided on |
| Soundings.FillCarries | internal/voidfill/filler.go:300-314 | Its other fields: the first sample's x and y as latitude and longitude, intensity 128, the time |
| Soundings.EdgesTouchVoids | internal/voidfill/grid.go:193-219 | A data cell is an edge if and only if a void cell's box touches its own |
| Soundings.DataWhereSounded | internal/voidfill/filler.go:362-373 | In a grid made for its points the data cells are those with a point in their box |
| Soundings.RoomToSearch | internal/voidfill/filler.go:178-181 | Around every point it was made for, a grid has cells as far as the search radius reaches |
| VoidFiller.ReuseDrops | internal/voidfill/filler.go:178-186 | Two calls of which the second keeps the grid of the first and drops a point on its upper edge |
| VoidFiller.FlatBottomStaysFlat | internal/voidfill/filler.go:163-215 | Points all at one depth give a published surface all at that depth |
| VoidFiller.StatisticsAreFlat | internal/voidfill/grid.go:147-161 | Averages of equal depths are that depth |
| InsStream.NextCandidate | internal/framing/ins_processor.go:188-197 | The earliest believable timestamp, or that there is none |
| InsStream.CandidateStays | internal/framing/ins_processor.go:188-197 | More bytes do not change a candidate found |
| InsStream.ScanCompose | internal/framing/ins_processor.go:125-165 | Reading in two portions is reading at once |
| InsStream.ScanClockFree | internal/framing/ins_processor.go:167-186 | Once a record was accepted, the clock has no say in what is read |
| InsStream.RestIsUndecided | internal/framing/ins_processor.go:125-165 | What is kept is a tail of the input: too short, or without any believable timestamp; every jump used up a byte |
| InsStream.RecordsAreChained | internal/framing/ins_processor.go:125-186 | Every delivered record is plausible and believed after the one before it |
| InsStream.SteadyChained | internal/framing/ins_processor.go:167-186 | A whole history stays steady: each record within ten seconds before and sixty after its predecessor |
| InsStream.CleanScan | internal/framing/ins_processor.go:125-165 | Of a clean stream whole records are delivered and a part of the next is kept |
| InsRecords.FieldsSay | internal/framing/ins_processor.go:199-240 | Which byte says what of a record: time, latitude, longitude, depth, roll, pitch, least byte first |
| InsRecords.ScanSent | internal/framing/ins_processor.go:125-165 | Every delivered record was sent: in order, no byte shared, in the bytes that were read |
| InsRecords.TimestampWindow | internal/framing/ins_processor.go:167-186 | The windows in which timestamps are believed, in microseconds |
| InsProcessor.INSSafeProcessor.constructor | internal/framing/ins_processor.go:44-53 | Starts empty |
| InsProcessor.INSSafeProcessor.CompactIfNeeded | internal/framing/ins_processor.go:83-91 | Moves pending bytes to the front, exactly when they fill less than a quarter |
| InsProcessor.INSSafeProcessor.FindNextCandidate | internal/framing/ins_processor.go:188-197 | Distance to the earliest believable timestamp behind the first byte, or -1 |
| InsProcessor.INSSafeProcessor.ReadOne | internal/framing/ins_processor.go:126-162 | One turn delivers, jumps or gets stuck as the reference reading does |
| InsProcessor.INSSafeProcessor.Process | internal/framing/ins_processor.go:125-165 | Terminates with the records, rest, timestamp and counters of the reference reading; each record has its own 32 bytes in what was read |
| InsProcessor.INSSafeProcessor.Feed | internal/framing/ins_processor.go:93-123 | Refuses exactly the portions that do not fit after compaction, keeping only a suffix of the pending bytes; else reads them as the reference does; keeps the history steady |
| InsProcessor.Receive | internal/ins/reader.go:104-128 | Any bytes, portions and clocks: each record handed on has its own 32 bytes in the portions taken in, in order, and they say what it says; the history stays steady; without overrun the portions do not matter, under every clock once a record was accepted, and else under one clock up to the first record |
| InsProcessor.INSSafeProcessor.FeedClean | internal/framing/ins_processor.go:93-165 | One portion of up to 993 bytes of a clean stream: delivered as it completes, no jump, no overrun |
| InsProcessor.ReceiveRecords | internal/ins/reader.go:104-128 | Every clean stream in portions of up to 993 bytes is delivered record by record, and nothing else is counted |
| Transform.RotationIsThreeTurns | internal/coord/transform.go:25-53 | The matrix rolls, then pitches, then turns |
| Transform.RotationKeeps | internal/coord/transform.go:66-69 | For every attitude lengths, angles and handedness are kept |
| Transform.RotationIsOrthogonal | internal/coord/transform.go:25-45 | The columns are orthonormal and right-handed |
| Transform.TiltKeeps | internal/coord/transform.go:55-64 | Tilting keeps the products of the in-plane offsets |
| Transform.TiltIsTwoTurns | internal/coord/transform.go:55-64 | The offsets, out and straight down, turned about the second axis by one tilt and about the first by the other |
| Transform.TurnsOfAxes | internal/coord/transform.go:20-53 | Each turn is right-handed |
| Transform.BeamGeometry | internal/coord/transform.go:55-69 | From offsets to navigation frame products are kept: X, Y and Z squared add up to the squared slant distance, for every tilt and attitude |

## Left out

- Sockets, goroutines, Redis, JSON, logging, configuration, metrics: input and output only.
- Mutexes, and `Reset` called from inside a callback, which would wait for a lock its caller holds: `HandleValidFrame` counts the resets it asks for instead.
- The assembler's calls of its error handler for a sync word not found, a bad length and an overrun: each is one `HandleAssemblerError`, and their number is in the counters; only those for refused frames are modelled as calls.
- FrameCheck.ReceivePings: the consumer handles the delivered frames in order after the run, and not inside each delivery; it does not act on the assembler except for the resets it asks for, of which there are none here.
- `DrainTo`: it moves the read position without the state and keeps no invariant.
- The public `Reset` methods of assembler and INS processor: they set the fields the constructor sets.
- `ByteReader`: its reads are the functions `BE16` and `BE32` at the offsets used.
- Floating-point rounding, overflow and NaN; numbers are exact reals, so the clamp of a negative variance is modelled but rounding is not.
- BitReader.BitReader.ReadBits: the wrap-around of offset plus n at 2 to the 64 is not modelled.
- FrameHeap.Push: the heap is a sequence value the methods return rather than a slice behind a pointer, as are `Pop`, `Remove` and `Drain`; the pointer's aliasing is not modelled. `heap.Init` is only called on empty heaps.
- Reorganizer.Reorganizer.Flush: the filled frame appended to the result and the ready callback are not modelled, as void filling is not triggered from the reorganizer here.
- Reorganizer.Reorganizer.SubmitFrame: the count towards the next void filling is not modelled; a frame's fields are taken not to change after it was submitted.
- InsProcessor.INSSafeProcessor.Feed: the clock is read once per feed here and once per timestamp in the code, which matters only until the first record is accepted (`InsStream.ScanClockFree`); the 36- and 42-byte record fields are never read, since records are cut at 32 bytes.
- InsProcessor.ReceiveRecords: the records of a clean stream are required to be believable under each of the clock readings.
- VoidFiller.VoidFiller.ProcessAndFill: without variogram auto-fit, which locks a mutex its caller holds, without `SetGrid` and custom bounds, and without the running `FillerStats`; the skip counters are those of the patch.
- VoidFiller.VoidFiller.FillVoids: requires a grid of the filler's own cell size, which every grid it makes has.
- Grid.SpatialGrid.constructor: requires a positive cell size, as the code divides by it.
- Kriging.OrdinaryKriging.Interpolate: requires an anisotropy ratio other than 0, and a range other than 0 for the two models that divide by it whatever it is.
- VariogramFit.FitVariogram: also returns the empirical variogram, which the code drops.
- `BatchInterpolate`, `DistanceCache`, `SpatialVoxelGrid`, `GetEdgePoints`, `ByteAlign`, `DecodeINSFromBytes`, `GetFrame`: folds and reads that would add easy members.
- `NavToGeo`, `LocalENUOffset`, sound-speed profiles and ray tracing: trigonometric approximations with little to prove.
