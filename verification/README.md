# A verified model of the MONA generic agent

The agent is Telegraf with its output buffering, line listener, templating, aggregation and metric
pipeline, and a template editor that edits a graph of inputs, processors, aggregators and outputs and
compiles it to an agent configuration. The modules here model the parts of it whose correctness is not
visible from any single function, and prove what they guarantee for every input, run or interleaving.

| module | part |
|---|---|
| RingBuffer | the circular metric buffer, in place on an array |
| RunningOutputs, RunningOutputLaws, ConcurrentOutput | the two-buffer retry protocol: single flushes, whole runs, interleavings |
| LineReader, LineReaderLaws | the fixed-buffer line reader of the HTTP listener |
| Text, FilterTree, FilterNodes, Matchers | the filter tree, its node objects, and the matcher over them |
| Series, Sample, BasicStats | online statistics |
| RunningAggregators | the aggregation period loop |
| Buckets, HistogramCounts, HistogramGroups, HistogramPushes, Histograms | cumulative histograms: counting, grouping, which pushes are right, and the aggregator itself |
| TagList, Metrics | sorted tags that represent a map, and the hash input |
| Pipeline | the goroutines of the flusher |
| Lists | lists in general |
| Templates, TemplateGraphs, Editors | templates as graphs, and editing them |
| PipelineWalks, PipelineTags | compiling the graph to tag lists |

What the environment decides is a parameter that every theorem quantifies over: the outcome of each
`Output.Write`, the result of each parse, how a request body ends, the filters, the processors, the order
in which goroutines, select cases and map iterations go, the clock, `math.Sqrt` and `strconv.FormatFloat`.

Where the code does less than its purpose suggests, the model follows the code, and a theorem says for all
inputs when it does what is expected:

- `Batch` loses one metric when its copy wraps and stops short of the newest one (BatchPartitions). A flush
  is therefore first-in first-out and lossless exactly from "even" states (LosslessIffEven); others are
  reachable (ReachableLoss), but not with full batches and a limit that is a multiple of the batch size
  (FullBatchesNeverSkip).
- The end of a body, lines that fit included, is dropped unparsed exactly when a buffer ends with the body
  and has a newline but not as its last byte (AllFittingParsedIff, WholeBodyParsedIff; FragmentLost and
  LinesBehindLost are the simplest cases).
- The separator of the last filter added splits every line, so an added filter matches itself exactly when
  that still leads to the path it was added under (AddedFilterMatchesIff, LaterSeparatorHidesFilter).
- A histogram push is right in every map order exactly when no series is taken for another: an empty tag
  value or a tag named `le` can make that happen with two metrics, and then counts are lost (PushReportsIff,
  EmptyValueLosesCounts, BorderTagLosesCounts).
- `Copy` shares its Tag objects, so setting an existing tag on a copy changes both (AddTagToCopy). The hash
  input tells a series apart from every other only without tags and with at most one newline in the name;
  among series without newlines it always does (ImitatedIff, HashInputIdentifiesSeries).
- Shutdown drains the output channel exactly when nothing is sent after the output goroutine left
  (ShutdownDrainsIff, ShutdownCanStrandMetric), and hangs exactly when another goroutine then waits to send on
  the full channel (ShutdownHangsIff, ShutdownCanHang).
- The cycle check gives up after ten links (AddEdgeAcyclicIff, ClosingChainAcyclicIff); deleting an unknown
  id doubles nodes (DeleteWellFormedIff, UnknownIdDuplicates).
- A node reached over two links from one input keeps only the predecessor on the later one
  (WalkListsAllIff, DiamondLosesPredecessor); a node with an empty link list gets no entry (TagsMean).

Two places are modelled as coded although one might expect otherwise: the window of the aggregation loop
includes both its ends, which the comment there excludes, and of what the processors make of an aggregate
only their changes to the object itself go out, not the metrics they return.

## Model

| member | source | states |
|---|---|---|
| RingBuffer.Buffer.constructor | generic-agent/telegraf/internal/buffer/buffer.go:28-36 | a new buffer holds nothing and has the given size |
| RingBuffer.Buffer.IsEmpty | generic-agent/telegraf/internal/buffer/buffer.go:39-41 | true exactly when nothing is queued |
| RingBuffer.Buffer.Len | generic-agent/telegraf/internal/buffer/buffer.go:44-53 | the number of queued metrics, wherever first and last sit in the array |
| RingBuffer.Buffer.Push | generic-agent/telegraf/internal/buffer/buffer.go:55-73 | in place, the array becomes the queue with the metric appended; when full the oldest goes |
| RingBuffer.Buffer.Add | generic-agent/telegraf/internal/buffer/buffer.go:76-83 | the loop of pushes keeps exactly the newest `size` of the queue followed by the arguments |
| RingBuffer.Buffer.Batch | generic-agent/telegraf/internal/buffer/buffer.go:88-123 | returns the oldest min(Len, n) metrics in order and leaves `Rest`: the remaining suffix, less one more metric exactly when the copy wraps and stops short of the newest |
| RingBuffer.Buffer.CopyAhead | generic-agent/telegraf/internal/buffer/buffer.go:97-109 | the part of the copy up to the end of the array, with the new first and empty flag |
| RingBuffer.Buffer.CircleBack | generic-agent/telegraf/internal/buffer/buffer.go:111-121 | the wrapped part: the inclusive right index skips one metric unless the copy ends at last |
| RingBuffer.BatchPartitions | generic-agent/telegraf/internal/buffer/buffer.go:88-123 | queue == batch + skipped + rest for every ring and size, and nothing is skipped if and only if the batch does not straddle the end of the array |
| RingBuffer.AddPartitions | generic-agent/telegraf/internal/buffer/buffer.go:55-83 | queue + added == evicted + kept, and the kept length is min(size, total) |
| RingBuffer.AddedTwice | generic-agent/telegraf/internal/buffer/buffer.go:55-83 | adding in two calls is adding once: same queue, same slot of the oldest, same evictions |
| RingBuffer.ModIsWrap | generic-agent/telegraf/internal/buffer/buffer.go:55-73 | the index reduction by % is the circular step |
| RunningOutputs.RunningOutput.constructor | generic-agent/telegraf/internal/models/running_output.go:45-94 | defaults for zero sizes, two empty buffers, nothing delivered |
| RunningOutputs.RunningOutput.AddMetric | generic-agent/telegraf/internal/models/running_output.go:98-136 | nil and filtered metrics change nothing; others are `Accept`ed: stored, and written as a full batch or moved to failMetrics |
| RunningOutputs.RunningOutput.Write | generic-agent/telegraf/internal/models/running_output.go:139-189 | both buffers, the deliveries and the returned error are those of `Flush` |
| RunningOutputs.RunningOutput.RetryFailed | generic-agent/telegraf/internal/models/running_output.go:148-175 | the batch loop with its last, shorter batch is the recursive rotation `Retry` |
| RunningOutputs.RunningOutput.SettleBatch | generic-agent/telegraf/internal/models/running_output.go:164-188 | a batch is attempted only if no write failed before, and goes to failMetrics if it is not delivered |
| RunningOutputs.RunningOutput.WriteBatch | generic-agent/telegraf/internal/models/running_output.go:191-208 | an empty batch never reaches the output; otherwise exactly one Output.Write decides |
| RunningOutputs.RoundsByDivision | generic-agent/telegraf/internal/models/running_output.go:153-163 | nFails / size + 1 rounds with a last one of nFails % size go through the failed metrics exactly once |
| RunningOutputLaws.FlushIsFifo | generic-agent/telegraf/internal/models/running_output.go:139-208 | from an even state: one call for each batch of failed metrics and one for the fresh ones until a call fails; exactly the batches of the successful calls are delivered, a prefix of failed ++ fresh; the newest `limit` of the rest are kept in original order; success is reported if and only if everything was delivered |
| RunningOutputLaws.FlushDelivers | generic-agent/telegraf/internal/models/running_output.go:139-208 | how many calls such a flush makes, how many metrics it delivers and whether it succeeds, as functions of the outcomes |
| RunningOutputLaws.FlushSucceedsIff | generic-agent/telegraf/internal/models/running_output.go:139-208 | from any state: a flush succeeds if and only if every call it makes does, no call follows one that failed, and none is made only when there is nothing to write |
| RunningOutputLaws.AcceptExactly | generic-agent/telegraf/internal/models/running_output.go:98-136 | AddMetric: the metric waits while the batch is not full; a full batch makes one call, which delivers it or moves it to failMetrics, the oldest there making room |
| RunningOutputLaws.RetryPhase | generic-agent/telegraf/internal/models/running_output.go:148-175 | the rotation alone: whichever batch fails first, the failed queue loses exactly a delivered prefix and keeps its order |
| RunningOutputLaws.LosslessIffEven | generic-agent/telegraf/internal/models/running_output.go:139-189 | a flush skips no metric for every behaviour of the output if and only if the state is even (no retry batch straddles the end of the array) |
| RunningOutputLaws.UnevenSkips | generic-agent/telegraf/internal/models/running_output.go:148-175 | from every uneven state a flush with a failing output skips a metric |
| RunningOutputLaws.ReachableLoss | generic-agent/telegraf/internal/models/running_output.go:98-189 | batch size 2, limit 3, output down: such a state is reached and a metric is lost |
| RunningOutputLaws.RunConserves | generic-agent/telegraf/internal/models/running_output.go:98-189 | over every run and all outcomes, accepted == delivered + fresh + failed + evicted + skipped as multisets, and nothing is delivered more often than accepted |
| RunningOutputLaws.FlushConserves | generic-agent/telegraf/internal/models/running_output.go:139-189 | one flush moves metrics between these places and loses track of none |
| RunningOutputLaws.AcceptConserves | generic-agent/telegraf/internal/models/running_output.go:98-136 | one AddMetric accounts for exactly its metric |
| RunningOutputLaws.FullBatchesNeverSkip | generic-agent/telegraf/internal/models/running_output.go:127-175 | limit a multiple of the batch size and only full batches failing: in every reachable state first is a multiple of the batch size, nothing was ever skipped, and any next flush is exactly first-in first-out |
| RunningOutputLaws.BatchOfAll | generic-agent/telegraf/internal/models/running_output.go:127-135 | a batch as large as the fresh buffer drains it and never stops short |
| ConcurrentOutput.StepConserves | generic-agent/telegraf/internal/models/running_output.go:98-189 | each atomic step of the adder or of any of the concurrent writers keeps the invariant and the multiset of all metrics, held batches included |
| ConcurrentOutput.EveryInterleavingConserves | generic-agent/telegraf/agent/agent.go:252-272 | in every interleaving of one adder with any number of writers: conservation, room in the fresh buffer at every AddMetric entry (so no eviction), and fresh batches that always drain |
| ConcurrentOutput.WriterAlone | generic-agent/telegraf/internal/models/running_output.go:139-208 | a writer that nobody interrupts does exactly what Write does |
| ConcurrentOutput.AdderAlone | generic-agent/telegraf/internal/models/running_output.go:98-136 | an adder that nobody interrupts does exactly what AddMetric does |
| ConcurrentOutput.FlushInSystem | generic-agent/telegraf/internal/models/running_output.go:139-208 | in the system: starting a flush and letting its writer go on alone changes nothing but the state, to that after Write |
| ConcurrentOutput.AddInSystem | generic-agent/telegraf/internal/models/running_output.go:98-136 | the same for AddMetric |
| ConcurrentOutput.EveryInterleavingKeepsOrder | generic-agent/telegraf/agent/agent.go:252-272 | in every interleaving: accepted metrics leave the fresh buffer in the order they came; metrics leave failMetrics in the order they were put there; what is delivered are whole batches in the order of the successful calls |
| LineReader.ReadFull | generic-agent/telegraf/plugins/inputs/http_listener/http_listener.go:271-271 | fills the buffer from the body, with the four outcomes of io.ReadFull |
| LineReader.CopyDown | generic-agent/telegraf/plugins/inputs/http_listener/http_listener.go:299-301 | the overlapping copy moves every byte down and leaves the tail |
| LineReader.Session.ServeWrite | generic-agent/telegraf/plugins/inputs/http_listener/http_listener.go:265-342 | the loop over a dirty pooled buffer terminates, stays in bounds, parses exactly the stretches of `Whole`, and replies 400 if and only if reading broke, a full buffer held no newline, or a parse failed |
| LineReader.Session.SkipToNewline | generic-agent/telegraf/plugins/inputs/http_listener/http_listener.go:289-303 | skip mode over stale bytes finds the newline of the body |
| LineReader.Session.ParseLast | generic-agent/telegraf/plugins/inputs/http_listener/http_listener.go:305-317 | the last partial buffer is parsed whole |
| LineReader.Session.ParseFull | generic-agent/telegraf/plugins/inputs/http_listener/http_listener.go:319-341 | a full buffer is parsed up to its last newline and rotated, or the line is dropped |
| LineReaderLaws.ParsesTheFittingLines | generic-agent/telegraf/plugins/inputs/http_listener/http_listener.go:265-342 | for every body and size: the chunks concatenate to exactly the lines that fit, in order, up to the point where parsing stopped; each starts and ends on a line boundary; what is left is nothing, an unterminated line, or text right behind an overlong line |
| LineReaderLaws.EachChunkFillsBuffer | generic-agent/telegraf/plugins/inputs/http_listener/http_listener.go:319-341 | each chunk parsed reaches to the last newline in the buffer that starts with it, or is less than a buffer at the end of the body |
| LineReaderLaws.BrokenParsesFullBuffers | generic-agent/telegraf/plugins/inputs/http_listener/http_listener.go:271-276 | a body that breaks off is parsed like one that ends there, but for what is left in a buffer not full |
| LineReaderLaws.OverlongIffLongLine | generic-agent/telegraf/plugins/inputs/http_listener/http_listener.go:319-330 | a full buffer without newline occurs if and only if the body has a line that does not fit |
| LineReaderLaws.ShortLinesAreAllParsed | generic-agent/telegraf/plugins/inputs/http_listener/http_listener.go:265-342 | when all terminated lines fit, the parsed text is the body or the body without its unterminated last line; a body ending in a newline is parsed completely |
| LineReaderLaws.RoomToSpare | generic-agent/telegraf/plugins/inputs/http_listener/http_listener.go:305-317 | a body shorter than the buffer is parsed whole, terminated or not |
| LineReaderLaws.FragmentLost | generic-agent/telegraf/plugins/inputs/http_listener/http_listener.go:279-341 | the shortest case: a body exactly as long as the buffer with an unterminated last line behind a newline loses that line without an overlong report |
| LineReaderLaws.LinesBehindLost | generic-agent/telegraf/plugins/inputs/http_listener/http_listener.go:289-303 | behind an overlong first line, all lines go unparsed, fit they or not, when one skipped buffer holds its newline and ends with the body |
| LineReaderLaws.StopsShortIff | generic-agent/telegraf/plugins/inputs/http_listener/http_listener.go:265-342 | from every state of the loop: it stops short of the end of the body, by less than a buffer, exactly where `Loses` says so, a condition on where newlines fall relative to whole buffers |
| LineReaderLaws.AllFittingParsedIff | generic-agent/telegraf/plugins/inputs/http_listener/http_listener.go:265-342 | for every body: every line that fits is parsed if and only if no buffer, packed with whole lines or skipped, ends exactly with the body and has a newline but not as its last byte |
| LineReaderLaws.WholeBodyParsedIff | generic-agent/telegraf/plugins/inputs/http_listener/http_listener.go:265-342 | for every body without overlong lines: it is parsed whole if and only if it ends in a newline or packing whole lines into buffers never comes to one that ends with the body |
| LineReaderLaws.Handle | generic-agent/telegraf/plugins/inputs/http_listener/http_listener.go:241-343 | the reply is 204 if and only if the body was read to its end, no line is too long and no parse failed |
| FilterTree.BeforeTotal | generic-agent/telegraf/internal/templating/node.go:106-116 | the wildcard-last order is a strict total order (with BeforeTransitive) |
| FilterTree.BeforeTransitive | generic-agent/telegraf/internal/templating/node.go:106-116 | the wildcard-last order is transitive |
| FilterTree.InsertWellFormed | generic-agent/telegraf/internal/templating/node.go:25-48 | inserting keeps children strictly sorted with the wildcard last at every level, and no dead branches |
| FilterTree.PlaceIsSort | generic-agent/telegraf/internal/templating/node.go:41-44 | any sort by that order yields the ordered insertion |
| FilterTree.GetInsert | generic-agent/telegraf/internal/templating/node.go:19-48 | insertion updates the path-to-template map at one path and nowhere else |
| FilterTree.TreeIsCanonical | generic-agent/telegraf/internal/templating/node.go:25-48 | well-formed trees with the same templates at the same paths are equal |
| FilterTree.InsertsCommute | generic-agent/telegraf/internal/templating/node.go:19-48 | inserts at different paths give the same tree in either order |
| FilterNodes.TreeNode.SearchChild | generic-agent/telegraf/internal/templating/node.go:63-79 | the binary search over the non-wildcard children finds the exact child if there is one |
| FilterNodes.TreeNode.RecursiveSearch | generic-agent/telegraf/internal/templating/node.go:57-85 | on the node objects, binary-search lookup equals the linear one: exact child, else wildcard, else the template here |
| FilterNodes.TreeNode.constructor | generic-agent/telegraf/internal/templating/node.go:42-42 | a new node without template and children |
| FilterNodes.TreeNode.FindChild | generic-agent/telegraf/internal/templating/node.go:34-39 | the loop over the children finds the child for a part |
| FilterNodes.TreeNode.AddChild | generic-agent/telegraf/internal/templating/node.go:41-44 | in place, the children become the sorted list with the new node |
| FilterNodes.TreeNode.RecursiveInsert | generic-agent/telegraf/internal/templating/node.go:25-48 | in place, the objects below this node come to stand for the tree with the path inserted; new objects are fresh and sub-trees stay apart |
| FilterNodes.InsertPlaced | generic-agent/telegraf/internal/templating/node.go:41-47 | adding an empty child first and then inserting into it is inserting at once |
| Matchers.Matcher.constructor | generic-agent/telegraf/internal/templating/matcher.go:15-20 | no filters, the given default |
| Matchers.Matcher.Add | generic-agent/telegraf/internal/templating/matcher.go:41-48 | the tree, separator and default are those of the list of additions |
| Matchers.Matcher.Match | generic-agent/telegraf/internal/templating/matcher.go:52-58 | the answer is the reference lookup over the plain list of filters, else the default |
| Matchers.TreeHolds | generic-agent/telegraf/internal/templating/matcher.go:41-48 | after any additions the tree is well-formed and holds for each path the template last added for it |
| Matchers.LookupIsReference | generic-agent/telegraf/internal/templating/matcher.go:52-58 | tree lookup equals a lookup that never builds a tree: take a part if some filter continues with it, else the wildcard, else stop |
| Matchers.AddedPathMatches | generic-agent/telegraf/internal/templating/matcher.go:52-58 | matching the parts of an added filter gives the template last added for them |
| Matchers.AddedFilterMatches | generic-agent/telegraf/internal/templating/matcher.go:41-58 | while the last separator splits every filter as its own did, matching an added filter text gives the template last added for that text |
| Matchers.OneSeparatorMatches | generic-agent/telegraf/internal/templating/matcher.go:41-58 | in particular with one separator |
| Matchers.LookupEndsThere | generic-agent/telegraf/internal/templating/matcher.go:52-58 | for any separators and wildcards: the answer is what was last added at the one path where the lookup ends |
| Matchers.MatchAnswers | generic-agent/telegraf/internal/templating/matcher.go:41-58 | the answer in full: split by the separator of the last addition, the template last added where the lookup ends; if there is none, the one last added without a filter; if there is none either, the default the matcher was made with |
| Matchers.NothingAdded | generic-agent/telegraf/internal/templating/matcher.go:52-58 | without any addition every line gets that default |
| Matchers.MatchesIff | generic-agent/telegraf/internal/templating/matcher.go:52-58 | a line gets the template of an addition if and only if the lookup ends at its path and nothing was added there later (each addition having its own template) |
| Matchers.AddedFilterMatchesIff | generic-agent/telegraf/internal/templating/matcher.go:41-58 | so an added filter matches itself if and only if, split by the last separator, the lookup ends at the path it was added under and no other filter was added there later |
| Matchers.LaterSeparatorHidesFilter | generic-agent/telegraf/internal/templating/matcher.go:41-48 | every added filter without the last separator in it matches nothing, unless a filter begins with its whole text or a wildcard |
| Matchers.SecondSeparatorHidesFirst | generic-agent/telegraf/internal/templating/matcher.go:41-58 | two additions suffice: after adding a filter with another separator, the first filter, split by its own, can no longer be matched |
| Text.JoinSplit | generic-agent/telegraf/internal/templating/node.go:19-22 | splitting loses nothing, so distinct filters have distinct paths |
| Text.PartsLackSeparator | generic-agent/telegraf/internal/templating/node.go:19-22 | no separator is left in a part |
| Text.EmptySeparator | generic-agent/telegraf/internal/templating/node.go:19-22 | an empty separator makes every character a part |
| Sample.WelfordStep | generic-agent/telegraf/plugins/aggregators/basicstats/basicstats.go:104-129 | one online update of count, min, max, sum, mean and M2 equals the batch statistics with one more value |
| Sample.WelfordIsBatch | generic-agent/telegraf/plugins/aggregators/basicstats/basicstats.go:66-133 | over any sequence: mean is sum / n, M2 the sum of squared deviations from the mean, min and max the true extremes |
| Sample.BatchPermuted | generic-agent/telegraf/plugins/aggregators/basicstats/basicstats.go:66-133 | these statistics do not depend on arrival order |
| BasicStats.Aggregator.constructor | generic-agent/telegraf/plugins/aggregators/basicstats/basicstats.go:28-32 | an empty cache describes the empty history |
| BasicStats.Aggregator.Reset | generic-agent/telegraf/plugins/aggregators/basicstats/basicstats.go:239-241 | afterwards the cache describes the empty history |
| BasicStats.Aggregator.Add | generic-agent/telegraf/plugins/aggregators/basicstats/basicstats.go:66-133 | the cache keeps describing the history: for every series the name and tags of its first metric, and for every numeric field the batch statistics of all its values |
| BasicStats.ConvertedValues | generic-agent/telegraf/plugins/aggregators/basicstats/basicstats.go:243-254 | floats, signed and unsigned integers take part |
| BasicStats.NewFields | generic-agent/telegraf/plugins/aggregators/basicstats/basicstats.go:68-87 | the loop for a new series |
| BasicStats.UpdateFields | generic-agent/telegraf/plugins/aggregators/basicstats/basicstats.go:88-132 | the loop for a known series, new and known fields |
| BasicStats.EmitsBatch | generic-agent/telegraf/plugins/aggregators/basicstats/basicstats.go:135-177 | what is emitted for each statistic is its batch definition; variance and deviation only from two values on |
| BasicStats.PushIsBatch | generic-agent/telegraf/plugins/aggregators/basicstats/basicstats.go:135-177 | a push emits, per series, field and configured statistic, exactly the batch value over the history, under the name and tags of the first metric of the series |
| BasicStats.PushOnlyThat | generic-agent/telegraf/plugins/aggregators/basicstats/basicstats.go:135-177 | and nothing else: every emitted field has the name of a configured statistic, and no emitted metric is without fields |
| BasicStats.PushByName | generic-agent/telegraf/plugins/aggregators/basicstats/basicstats.go:135-177 | with the field names written out: count, minimum, maximum, mean, sum, sample variance and its root under their suffixes |
| BasicStats.EmissionIgnoresOrder | generic-agent/telegraf/plugins/aggregators/basicstats/basicstats.go:159-168 | emitted values, the sample variance included, do not depend on arrival order |
| BasicStats.ValuesPermuted | generic-agent/telegraf/plugins/aggregators/basicstats/basicstats.go:66-133 | permuting the metrics received permutes the values of every field |
| BasicStats.PushIgnoresOrder | generic-agent/telegraf/plugins/aggregators/basicstats/basicstats.go:135-177 | so two caches that describe permuted histories push the same emissions: names, tags, fields and values |
| BasicStats.ParseStats | generic-agent/telegraf/plugins/aggregators/basicstats/basicstats.go:179-208 | the loop collects exactly the statistics named, in any order, and ignores other names |
| BasicStats.ConfiguredStats | generic-agent/telegraf/plugins/aggregators/basicstats/basicstats.go:210-237 | without configuration every statistic but the sum |
| BasicStats.NamesDiffer | generic-agent/telegraf/plugins/aggregators/basicstats/basicstats.go:141-169 | emitted field names never collide, whatever the field keys are |
| RunningAggregators.RunningAggregator.constructor | generic-agent/telegraf/internal/models/running_aggregator.go:135-139 | the start is now without its fraction of a second, which becomes the truncation |
| RunningAggregators.RunningAggregator.Handle | generic-agent/telegraf/internal/models/running_aggregator.go:144-166 | each select case is the step of the state machine; every push reports the batch statistics of the metrics pending then |
| RunningAggregators.RunningAggregator.Run | generic-agent/telegraf/internal/models/running_aggregator.go:116-168 | over any list of events the loop state is that of the machine and all pushes are right |
| RunningAggregators.RunIsPeriodic | generic-agent/telegraf/internal/models/running_aggregator.go:135-166 | in every run period k starts at start + k * period, each push holds only metrics of its own window, and the channel stays within its capacity |
| RunningAggregators.RunAccounts | generic-agent/telegraf/internal/models/running_aggregator.go:144-166 | each received metric is in exactly one push, in the running period, or skipped: none counts twice |
| RunningAggregators.PushesCoverTheirPeriod | generic-agent/telegraf/internal/models/running_aggregator.go:144-166 | over every list of events: the k-th push covers exactly the metrics received after k pushes and before the next one whose time lies between start + k * period and start + (k + 1) * period + truncation + delay, in the order received; all others received are skipped |
| RunningAggregators.ChannelIsFifo | generic-agent/telegraf/internal/models/running_aggregator.go:84-101 | what was received and what is queued are, in order, the metrics that entered the channel: those that pass the filter while there is room |
| RunningAggregators.PushReports | generic-agent/telegraf/internal/models/running_aggregator.go:106-108 | a push over a cache that describes the pending metrics reports their batch statistics under the names and tags of their series |
| Buckets.SortBuckets | generic-agent/telegraf/plugins/aggregators/histogram/histogram.go:252-261 | sorting only when two neighbours are out of order gives the sorted list |
| Buckets.SortSorts | generic-agent/telegraf/plugins/aggregators/histogram/histogram.go:252-261 | sorted, and a permutation |
| Buckets.SortOfPermuted | generic-agent/telegraf/plugins/aggregators/histogram/histogram.go:252-261 | sorting a permuted list gives the same list |
| Buckets.SearchFloat64s | generic-agent/telegraf/plugins/aggregators/histogram/histogram.go:132-135 | binary search finds the first border not below the value |
| Buckets.TallyNext | generic-agent/telegraf/plugins/aggregators/histogram/histogram.go:127-136 | one hit at the searched slot is the tally with one more value |
| Buckets.CumulatedCounts | generic-agent/telegraf/plugins/aggregators/histogram/histogram.go:165-176 | the running sum over slots up to border b is the number of values not above b; over all slots, the number of values |
| Buckets.AtMostAscends | generic-agent/telegraf/plugins/aggregators/histogram/histogram.go:165-176 | emitted counts never decrease from border to border, and never exceed the total |
| Histograms.Histogram.constructor | generic-agent/telegraf/plugins/aggregators/histogram/histogram.go:59-65 | empty cache and memo |
| Histograms.Histogram.GetBuckets | generic-agent/telegraf/plugins/aggregators/histogram/histogram.go:214-234 | with or without the memo, and after any in-place sorting, the result is the sorted list of the last config that covers metric and field |
| Histograms.Histogram.SortConfig | generic-agent/telegraf/plugins/aggregators/histogram/histogram.go:252-261 | sorting a config in place changes no borders |
| HistogramCounts.SameBordersAgree | generic-agent/telegraf/plugins/aggregators/histogram/histogram.go:214-261 | borders do not depend on which configs have been sorted in place |
| HistogramCounts.BordersAre | generic-agent/telegraf/plugins/aggregators/histogram/histogram.go:214-261 | a field has the borders of the last config that names its metric and names it or no field, sorted; none without such a config |
| HistogramCounts.CountedValues | generic-agent/telegraf/plugins/aggregators/histogram/histogram.go:264-273 | only floats and signed integers are counted |
| HistogramCounts.TalliesNext | generic-agent/telegraf/plugins/aggregators/histogram/histogram.go:127-136 | one more field of a metric, numeric or not, with borders or without, keeps the tallies those of the values received |
| HistogramCounts.DescribesAdded | generic-agent/telegraf/plugins/aggregators/histogram/histogram.go:103-140 | with the tallies of a metric added, the cache describes the longer history, name and tags of every series included |
| Histograms.Histogram.Add | generic-agent/telegraf/plugins/aggregators/histogram/histogram.go:103-140 | the cache keeps describing the history: for every series its name and tags, and for every covered field the tally of all its numeric values |
| Histograms.CountFields | generic-agent/telegraf/plugins/aggregators/histogram/histogram.go:125-137 | the counting loop: one hit per numeric value, a zero tally for a covered field without one |
| Histograms.Histogram.PushField | generic-agent/telegraf/plugins/aggregators/histogram/histogram.go:144-149 | one field of one series is emitted with the borders of the configs, whatever memo and in-place sorting have done |
| Histograms.Histogram.PushSeries | generic-agent/telegraf/plugins/aggregators/histogram/histogram.go:147-149 | the inner loop goes through the fields of a series once each, in some order |
| Histograms.Histogram.Push | generic-agent/telegraf/plugins/aggregators/histogram/histogram.go:143-155 | for any cache and format the result is that of some order of the two loops; if no series is taken for another and the borders in use have different texts, every metric received finds, under its name and tags, each border with the number of values up to it and +Inf with all, and nothing else is emitted |
| HistogramGroups.GroupFieldsByBuckets | generic-agent/telegraf/plugins/aggregators/histogram/histogram.go:158-177 | the loop over the borders and the total, as a list of groups |
| HistogramGroups.GroupField | generic-agent/telegraf/plugins/aggregators/histogram/histogram.go:180-202 | the first group taken for these tags is updated, else a new one is appended |
| HistogramGroups.GroupedGroups | generic-agent/telegraf/plugins/aggregators/histogram/histogram.go:180-202 | groupField adds a group only where none is taken for it, and takes none away |
| HistogramGroups.GroupedSets | generic-agent/telegraf/plugins/aggregators/histogram/histogram.go:180-202 | where tag sets are not confused, grouping sets one count and leaves every other alone |
| HistogramGroups.GroupedSetsTaken | generic-agent/telegraf/plugins/aggregators/histogram/histogram.go:180-202 | confused or not: grouping sets one count, under the tags of the first group taken for these, and leaves every other alone |
| HistogramGroups.FieldEmitted | generic-agent/telegraf/plugins/aggregators/histogram/histogram.go:158-177 | a field of a series that is not confused with any group: every border, the total, and no count of anything else |
| HistogramGroups.IdenticalIsEqualIff | generic-agent/telegraf/plugins/aggregators/histogram/histogram.go:286-298 | the comparison of a tag set means equality with every other if and only if it has no empty value |
| HistogramGroups.BorderedEqualIff | generic-agent/telegraf/plugins/aggregators/histogram/histogram.go:166-176 | two tag sets become the same with a border added if and only if they differ at most in the tag named like it |
| HistogramPushes.PushRightIff | generic-agent/telegraf/plugins/aggregators/histogram/histogram.go:143-202 | every order of going through the maps emits exactly the right counts if and only if the cache is clear: series of one name whose totals compare alike have the same total tags and equal tallies of the fields they share |
| HistogramPushes.PushReportsIff | generic-agent/telegraf/plugins/aggregators/histogram/histogram.go:103-202 | in terms of the metrics received: every order of going through the maps reports all of them right if and only if no two series of one name are taken for another, that is, whose total tags compare alike have the same total tags and equal tallies of the fields they share |
| HistogramPushes.ClearIffHistory | generic-agent/telegraf/plugins/aggregators/histogram/histogram.go:103-202 | the condition on the cache and the one on the metrics received are the same |
| HistogramPushes.BorderTagLosesCounts | generic-agent/telegraf/plugins/aggregators/histogram/histogram.go:103-202 | two metrics whose tags differ only in `le`, with values on both sides of a border: some order reports them wrong |
| HistogramPushes.EmptyValueLosesCounts | generic-agent/telegraf/plugins/aggregators/histogram/histogram.go:103-298 | two metrics, one with an empty tag value where the other has another tag: some order reports them wrong |
| HistogramPushes.ClearWithoutEmptyValues | generic-agent/telegraf/plugins/aggregators/histogram/histogram.go:143-202 | without empty tag values that means: two series that differ only in the tag `le` have equal tallies of the fields they share |
| HistogramPushes.TakenForAnotherIsLost | generic-agent/telegraf/plugins/aggregators/histogram/histogram.go:180-202 | a series that is taken for another one that comes first gets no total of its own for any field, whatever follows |
| HistogramPushes.SharedMustAgree | generic-agent/telegraf/plugins/aggregators/histogram/histogram.go:180-202 | two series emitted under the same tags can both be right only with equal tallies |
| HistogramPushes.TalliesTell | generic-agent/telegraf/plugins/aggregators/histogram/histogram.go:165-176 | two tallies are equal if and only if they emit the same counts |
| HistogramPushes.GoodFormatsExist | generic-agent/telegraf/plugins/aggregators/histogram/histogram.go:169-169 | whatever the configs, some format keeps their borders apart, so the condition on formats can be met |
| Metrics.Metric.constructor | generic-agent/telegraf/metric/metric.go:22-63 | whatever order the map is walked in, the tags are strictly sorted and represent it |
| Metrics.Metric.AddTag | generic-agent/telegraf/metric/metric.go:118-136 | the sorted list becomes that of the map update; an existing Tag object is overwritten in place, no other Tag changes |
| Metrics.Metric.RemoveTag | generic-agent/telegraf/metric/metric.go:156-165 | the list becomes that of the map without the key |
| Metrics.Metric.GetTag | generic-agent/telegraf/metric/metric.go:147-154 | the value in the map, if any |
| Metrics.Metric.Copy | generic-agent/telegraf/metric/metric.go:210-228 | a fresh metric with the same Tag objects |
| Metrics.AddTagToCopy | generic-agent/telegraf/metric/metric.go:210-228 | so setting an existing tag on a copy changes the original too, and setting a new one does not |
| Metrics.Metric.HashBytes | generic-agent/telegraf/metric/metric.go:238-249 | the bytes fed to the hash: name and sorted tags, each on a line |
| Metrics.AnySortAgrees | generic-agent/telegraf/metric/metric.go:44-51 | any sort of the entries gives the same list |
| Metrics.SortEntriesSorts | generic-agent/telegraf/metric/metric.go:44-51 | sorted, and the same map |
| TagList.AddedUpdates | generic-agent/telegraf/metric/metric.go:118-136 | keeps the list strictly sorted and is the map update |
| TagList.RemovedUpdates | generic-agent/telegraf/metric/metric.go:156-165 | keeps the list strictly sorted and is the map removal |
| TagList.SortedListIsCanonical | generic-agent/telegraf/metric/metric.go:44-51 | strictly sorted lists of the same map are equal |
| Metrics.EditsFollowMap | generic-agent/telegraf/metric/metric.go:118-165 | any sequence of AddTag and RemoveTag is the same sequence of map updates, on a list that stays sorted |
| Metrics.SameTagsSameHashInput | generic-agent/telegraf/metric/metric.go:238-249 | equal name and tag map give the same hash input however they were built |
| TagList.HashInputIdentifiesSeries | generic-agent/telegraf/metric/metric.go:238-249 | for newline-free strings two hash inputs are equal if and only if names and tag maps are |
| TagList.HashInputGrows | generic-agent/telegraf/metric/metric.go:238-249 | the bytes: the name on a line, then for each tag in turn its key and its value, a line each |
| TagList.ImitatedIff | generic-agent/telegraf/metric/metric.go:238-249 | a hash input is shared by no other series if and only if the series has no tags and at most one newline in its name |
| Pipeline.EveryRunKeepsInv | generic-agent/telegraf/agent/agent.go:244-349 | in every interleaving of the flusher goroutines: fan-out, processing, forwarding and semaphore invariants |
| Pipeline.StepKeepsFanOut | generic-agent/telegraf/agent/agent.go:252-272 | every step keeps each output at a prefix of what was sent |
| Pipeline.StepKeepsProcessing | generic-agent/telegraf/agent/agent.go:288-322 | every step keeps the books of the metric goroutine: what was taken, what the processors returned for it, what was offered to aggregators, dropped or sent; processors may keep state |
| Pipeline.StepKeepsForwarding | generic-agent/telegraf/agent/agent.go:275-285 | every step keeps the books of the aggregate goroutine: each aggregate is sent once and in order, as the processors left the object they were given |
| Pipeline.StepKeepsOneFlush | generic-agent/telegraf/agent/agent.go:324-348 | every step keeps the semaphore: taken if and only if one flush holds it, and never by two |
| Pipeline.OutputsFollowSent | generic-agent/telegraf/agent/agent.go:252-272 | each output has a prefix of the sequence sent; two outputs differ by at most one metric |
| Pipeline.EachProcessedMetricOnce | generic-agent/telegraf/agent/agent.go:275-322 | each metric the processors returned is sent exactly once and in order unless a drop_original aggregator accepts it, and each aggregator has got exactly what it accepts; each aggregate is sent exactly once and in order, as the processors left its object, whatever they returned |
| Pipeline.FunctionalProcessors | generic-agent/telegraf/agent/agent.go:275-322 | in particular, for processors without state: what is processed follows what was taken, and the aggregates sent are a prefix of those received with the in-place changes applied to each |
| Pipeline.FlushesExcludeEachOther | generic-agent/telegraf/agent/agent.go:324-348 | no two ticker-started flushes hold the semaphore together |
| Pipeline.SkippedIffBusy | generic-agent/telegraf/agent/agent.go:331-344 | a scheduled flush is skipped if and only if another one holds the semaphore then |
| Pipeline.WorkGoesOnIff | generic-agent/telegraf/agent/agent.go:252-322 | in every run before the shutdown signal, the goroutines can go on if and only if they are not all waiting on empty channels |
| Pipeline.ShutdownFinishesWork | generic-agent/telegraf/agent/agent.go:275-333 | when the last flush starts, everything gathered before the metric goroutine left has been processed and sent unless dropped, and every aggregate has been sent |
| Pipeline.ShutdownHangsIff | generic-agent/telegraf/agent/agent.go:252-333 | in every run after the shutdown signal, the goroutines can go on until the last flush is done if and only if it is not so that the output goroutine has left and another one waits to send on the full channel |
| Pipeline.ShutdownCanHang | generic-agent/telegraf/agent/agent.go:252-333 | a run that gets there |
| Pipeline.ShutdownCanStrandMetric | generic-agent/telegraf/agent/agent.go:252-333 | a run in which the last flush starts while a metric is still in the output channel |
| Pipeline.ShutdownDrainsIff | generic-agent/telegraf/agent/agent.go:252-333 | in every run, when the last flush starts the outputs have exactly what was sent before the output goroutine left and the channel holds exactly the rest; so it is drained if and only if nothing was sent after that |
| Editors.HasCycleIff | generic-agent/mona-template-editor/src/app/template/template-editor.component.ts:304-322 | the depth-limited search finds exactly the paths of at most ten links |
| Editors.CycleIffReached | generic-agent/mona-template-editor/src/app/template/template-editor.component.ts:279-302 | one more link on an acyclic template makes a cycle if and only if its target already reached its source |
| Editors.AddEdgeEdges | generic-agent/mona-template-editor/src/app/template/template-editor.component.ts:176-195 | an accepted link is the one new edge |
| Editors.AddEdgeExactly | generic-agent/mona-template-editor/src/app/template/template-editor.component.ts:176-195 | for every template and every pair: one more edge if the link can be drawn and its target does not reach its source over at most ten links; else the template stays as it is |
| Editors.AddEdgeNodes | generic-agent/mona-template-editor/src/app/template/template-editor.component.ts:279-302 | no node but the source changes, and the source only by the new link behind its others |
| Editors.AddEdgeAcyclicIff | generic-agent/mona-template-editor/src/app/template/template-editor.component.ts:279-322 | addEdge keeps a template acyclic if and only if it is not a link whose target reaches its source over more than ten links only |
| Editors.ShortPathsAreSafe | generic-agent/mona-template-editor/src/app/template/template-editor.component.ts:304-322 | so it does while no path has more than ten links |
| Editors.ClosingChainAcyclicIff | generic-agent/mona-template-editor/src/app/template/template-editor.component.ts:304-322 | closing a chain of processors is refused up to eleven of them, and makes a cycle from twelve on |
| Editors.AddEdgeWellFormed | generic-agent/mona-template-editor/src/app/template/template-editor.component.ts:176-195 | references keep resolving, links stay unique, inputs are never targets |
| Editors.DeleteEdgeEdges | generic-agent/mona-template-editor/src/app/template/template-editor.component.ts:211-225 | deleteEdge removes exactly that edge |
| Editors.DeleteEdgeNodes | generic-agent/mona-template-editor/src/app/template/template-editor.component.ts:211-225 | no node but the source changes |
| Editors.WithoutInOrder | generic-agent/mona-template-editor/src/app/template/template-editor.component.ts:215-215 | the links kept are all but those to the target, in their order |
| Editors.DeleteEdgeWellFormed | generic-agent/mona-template-editor/src/app/template/template-editor.component.ts:211-225 | and keeps the template well-formed |
| Editors.DeleteNodeEdges | generic-agent/mona-template-editor/src/app/template/template-editor.component.ts:202-240 | deleteNode removes the node with its links in and out, and no other link |
| Editors.DeleteNodeLists | generic-agent/mona-template-editor/src/app/template/template-editor.component.ts:202-240 | the other nodes stay in order, each without its link to the node |
| Editors.DropLinkIsWithout | generic-agent/mona-template-editor/src/app/template/template-editor.component.ts:235-240 | where links are unique, dropping the first link to an id keeps exactly the others, in their order |
| Editors.DeleteThrowsIff | generic-agent/mona-template-editor/src/app/template/template-editor.component.ts:227-245 | deleteNode goes through if and only if every input, processor and aggregator has a list of links |
| Editors.DeleteThrows | generic-agent/mona-template-editor/src/app/template/template-editor.component.ts:202-245 | if not, no node is removed, and the links to the id are gone from exactly the nodes before the first one without a list |
| Editors.DeleteWellFormedIff | generic-agent/mona-template-editor/src/app/template/template-editor.component.ts:202-209 | deleteNode keeps a template well-formed if and only if the id is known or its list has at most one node |
| Editors.UnknownIdDuplicates | generic-agent/mona-template-editor/src/app/template/template-editor.component.ts:202-209 | for an unknown id it doubles the nodes of that kind |
| Editors.RunWellFormed | generic-agent/mona-template-editor/src/app/template/template-editor.component.ts:176-240 | every run of edits with safe deletions keeps references resolving and links unique |
| Editors.RunAcyclicIff | generic-agent/mona-template-editor/src/app/template/template-editor.component.ts:176-322 | every such run is acyclic throughout if and only if the cycle check never misses a link |
| Editors.Editor.AddLink | generic-agent/mona-template-editor/src/app/template/template-editor.component.ts:176-195 | the refusals and the update |
| Editors.Editor.RemoveLink | generic-agent/mona-template-editor/src/app/template/template-editor.component.ts:211-225 | the filtered links replace the old ones |
| Editors.Editor.RemoveNode | generic-agent/mona-template-editor/src/app/template/template-editor.component.ts:202-240 | orphaned links go from all lists, then the node; if a node without a list of links makes that throw, the links before it are gone and the node stays |
| Editors.DropFrom | generic-agent/mona-template-editor/src/app/template/template-editor.component.ts:227-240 | the loop over one list drops the first link to the id from each node, up to the first node without a list of links, where it throws |
| Editors.NoneBare | generic-agent/mona-template-editor/src/app/template/template-editor.component.ts:227-240 | in a well-formed template it never throws |
| PipelineWalks.LinkResolves | generic-agent/mona-template-editor/src/app/template/config-provider.service.ts:248-271 | in a template without references that throw, findNode gives the node with the id of the reference, looked up by the type of the reference, or nothing |
| PipelineWalks.Child | generic-agent/mona-template-editor/src/app/template/config-provider.service.ts:239-243 | a node found behind a link has fewer descendants, which is why the walk terminates |
| PipelineWalks.LinkCollects | generic-agent/mona-template-editor/src/app/template/config-provider.service.ts:239-245 | one round of the reduce: the entries of the node behind the link override earlier ones, and a reference that finds no node adds none |
| PipelineWalks.WellFormedIsWalkable | generic-agent/mona-template-editor/src/app/template/config-provider.service.ts:216-271 | every acyclic template the editor keeps well-formed, without an empty id, can be walked |
| TemplateGraphs.SameGraph | generic-agent/mona-template-editor/src/app/template/config-provider.service.ts:248-271 | on such templates the links found by the type of a reference are those the editor finds by the prefix of the id |
| PipelineWalks.Descends | generic-agent/mona-template-editor/src/app/template/config-provider.service.ts:233-246 | in an acyclic template every link leads to strictly fewer descendants |
| PipelineWalks.WalkCollects | generic-agent/mona-template-editor/src/app/template/config-provider.service.ts:233-246 | the walk from a node has an entry for exactly the nodes it reaches whose link list is not empty, each holding the node before it on the path of last links |
| PipelineWalks.LastPathUnique | generic-agent/mona-template-editor/src/app/template/config-provider.service.ts:238-245 | there is exactly one such path, since later links override earlier ones |
| PipelineTags.MergeEntries | generic-agent/mona-template-editor/src/app/template/config-provider.service.ts:219-228 | merging entries one by one, in any order, is the merge of the maps |
| PipelineTags.WalkPipelines | generic-agent/mona-template-editor/src/app/template/config-provider.service.ts:216-231 | the loop over the inputs yields the tag lists of `Tags` |
| PipelineTags.TagsMean | generic-agent/mona-template-editor/src/app/template/config-provider.service.ts:216-246 | a node has an entry if and only if an input reaches it and its link list is not empty; its tags are, without duplicates, exactly the last nodes before it from some input |
| PipelineTags.TagsInOrder | generic-agent/mona-template-editor/src/app/template/config-provider.service.ts:219-228 | the tags of a node stand in the order of the inputs that give them first |
| PipelineTags.TagsArePredecessors | generic-agent/mona-template-editor/src/app/template/config-provider.service.ts:216-246 | each tag is a direct predecessor that an input reaches |
| PipelineTags.ListsAllIff | generic-agent/mona-template-editor/src/app/template/config-provider.service.ts:216-246 | whatever the inputs: all reached predecessors of a node are listed if and only if each comes last before it from some input |
| PipelineTags.OneWayListsAll | generic-agent/mona-template-editor/src/app/template/config-provider.service.ts:216-246 | when each input reaches each node by at most one path, the tags are exactly the predecessors reachable from inputs |
| PipelineTags.OneDoorwayListsAll | generic-agent/mona-template-editor/src/app/template/config-provider.service.ts:216-246 | the same when from each input at most one predecessor leads into the node |
| PipelineTags.WalkListsAllIff | generic-agent/mona-template-editor/src/app/template/config-provider.service.ts:233-246 | for one input: all its predecessors are listed if and only if there is at most one |
| PipelineTags.OneInputListsAllIff | generic-agent/mona-template-editor/src/app/template/config-provider.service.ts:216-246 | for a template with one input: all reachable predecessors are listed if and only if there is at most one |
| PipelineTags.DiamondLosesPredecessor | generic-agent/mona-template-editor/src/app/template/config-provider.service.ts:238-245 | in a diamond the output lacks one of its two predecessors |

## Left out

- Other input, processor and output plugins, configuration loading, TLS, logging and packaging: input and output over foreign libraries.
- Outputs that aggregate (the AggregatingOutput branches of AddMetric and Write): their Push can overfill the fresh buffer.
- Glob filters: a filter is any function from a metric to an optional metric.
- Floating-point rounding, NaN and infinities, int64 overflow: numbers are reals and unbounded integers.
- math.Sqrt: a function parameter of the emitted deviation.
- HashID values: series are identified by a number; that distinct hash inputs get distinct numbers is not proved. BasicStats.Aggregator.Add and Histograms.Histogram.Add work with such numbers.
- Histograms.Histogram.Add: takes metrics whose ids agree on name and tags, which the hash is taken to ensure.
- Histograms.Histogram.Push: that strconv gives the different borders in use different texts, none of them empty or `+Inf`, is a condition and not proved of strconv.
- BasicStats.ConfiguredStats: the memo of the configured statistics is left out; the configuration does not change.
- FilterNodes.TreeNode.AddChild: places the new child where sort.Sort would move it; that any sort gives this list is PlaceIsSort.
- Metrics.AnySortAgrees: sort.Slice is any sort of the entries.
- Fields of a metric (AddField, RemoveField, convertField) and setters of name, time and type: they would only add easy members.
- HTTP headers, gzip, authentication, size limits and counters around the line reader: a body is its bytes and the way it ends.
- Pipeline.EveryRunKeepsInv: what the processors do is any relation between the metric given, the metrics returned and the object left; that two goroutines may call one processor at once is not modelled. Sending on aggMetricC after it was closed, which panics in Go, is simply not possible here; a full drain on shutdown does not hold and is not claimed.
- RunningAggregators.RunningAggregator.Handle: an Add that would block on a full channel is a step that does nothing; sleeping for the delay is left out.
- ConcurrentOutput.EveryInterleavingConserves: assumes that each Buffer call is atomic, although Len and IsEmpty take no lock; Output.Write is one step.
- Editors.Editor.RemoveNode: node objects are values, so a node object shared between two lists is not modelled.
- PipelineTags.WalkPipelines: covers acyclic templates with distinct ids; on a cycle the walk does not end, and a reference without id or to an input throws.
- Rendering, routing, uploads, forms and writing the TOML text.
