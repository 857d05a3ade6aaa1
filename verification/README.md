# A verified model of CPPMon

CPPMon reads a log of timestamped databases and reports, for a formula of metric
first-order temporal logic, the satisfying assignments at every time point. It works
online: no operator ever looks at the log again, and verdicts come out as soon as they
are known. This project models its core in Dafny and proves that what comes out is what
the logic prescribes.

- **The logic** (`Formulas`, `Meaning`, `Joins`, `Layouts`): terms and formulas with de
  Bruijn variables, the declarative meaning `Sat` of a formula at a time point of a
  trace, table layouts, and `Represents`, which says that a table under a layout holds
  exactly the satisfying assignments. A trace is a sequence of timestamped databases;
  timestamps never decrease but may repeat.
- **Temporal operators** (`SinceSpec`, `SinceOperator`, `UntilSpec`, `UntilOperator`,
  `PrevNext`, `Buffers`): the classes keep the source's fields and update them in place.
  Each also has a ghost history of what it was fed; the invariant relates queues,
  timestamp maps, reference counts and buckets to that history. `OperatorRuns`,
  `ChunkRuns` and `Specialisation` state the results over whole runs.
- **The operator tree** (`Preds`, `UnaryOps`, `Reductions`, `Streams`, `StreamProgress`,
  `TemporalStreams`, `OperatorTree`, `StateInit`): compilation of formulas to states, and
  evaluation one time point at a time. Each node carries a ghost formula, layout and
  trace; the trace is arbitrary beyond what has been read. `Progress` says how many time
  points a state must have decided after reading `n` of them.
- **The monitor** (`MonitorLoop`, `Decisions`, `MonitorRuns`, `Fragment`): stepping, the
  final flush with a sentinel time point, complete runs, and the exact conditions under
  which the flush works and compilation keeps every variable.
- **Aggregation** (`AggSpec`, `TemporalAggregation`, `Aggregation`, `AggregateMeaning`,
  `AggregateRuns`, `FusedAggregation`): the incremental aggregator inside since and once,
  the one-table aggregator, what their tables mean over whole runs, and when the two
  agree.
- **The event source** (`Bytes`, `Wire`, `Replies`, `SerializerTransport`,
  `SerializerRuns`, `DatabaseReader`, `EventPipeline`, `WirePipeline`, `SPSC`): the wire
  format, the two threads of the serializer with the kernel's completions as arbitrary
  steps, the decoder, the echoed replies, and the bundled queue.

An absent optional table of the source is the empty set of rows here: the source never
keeps a present but empty table. Hash containers are sets and maps whose iteration order
is arbitrary (`:|`). The main results are closed methods, which run a component from its
construction over any inputs: `MonitorTrace`, `RunSince`, `RunUntil`, `OnceIsSince`,
`EventuallyIsUntil`, `CompareRuns`, `RunAggregate`, `RunOnceAggregate`,
`RunSinceAggregate`, `PairUp`, `RunPrev`, `RunNext`, `RunTransport`, `Drain`,
`ReadReplies`, `LogAndRead` and `RunQueue`.

Places where the code does less than one might expect are proved as such, each with the
exact condition and an input that fails it:

- the safety check: `KeepsVariablesIff` says for every formula when its compilation
  neither fails nor loses a variable; `UncheckedRight`, `DoublyNegated`, `LostColumn` and
  `LostVariable` are formulas that `is_safe_formula` accepts all the same;
- the end of a log: `FlushedIff` and `PrevFlushedIff` say when the last step reports every
  time point, and `ReachedIff` how many for any formula (`UntilNotFlushed`,
  `PrevRunsAhead`); `SentinelUnused` and `NextAtEnd` say when the reported verdicts are
  those of the log (`NextSeesSentinel`);
- the fused aggregator: `FusedIff` and `CompareRuns` say at which inputs it gives the
  table of the other one, although it is not told when an empty left table clears the
  window (`ClearingRun`; it need not show, `SameAverage`) and never emits the default
  value.

## Model

| member | source | states |
|---|---|---|
| Meaning.RepresentsUnique | src/table.h:68-79 | a formula, a layout and a time point determine the table that represents it |
| Layouts.FVIShift | src/formula.cpp:527-562 | free variables under one more binder are those without it, numbered one lower |
| Layouts.ExistsIsLayout | src/monitor.cpp:166-182 | dropping the bound variable's column and renumbering leaves a duplicate-free layout of exactly the other columns |
| Layouts.ColumnsAreFree | src/monitor.cpp:393-439 | whatever compiles has columns for free variables only |
| Layouts.MonitorableCompiles | src/monitor.cpp:393-439 | nothing throws and no assertion fails when a formula of the fragment is compiled |
| Joins.GetVar2Idx | src/table.cpp:8-18 | the map inverts a duplicate-free layout |
| Joins.GetJoinInfo | src/table.cpp:20-44 | common columns are paired in the order of the first layout, and the kept columns are exactly the variables that only the second has |
| Joins.JoinLayout | src/table.cpp:20-44 | the result layout has every variable of both sides once |
| Joins.NaturalJoin | src/table.h:198-216 | the result is exactly the combinations of rows of both tables that agree on the common columns |
| Joins.JoinMeaning | src/table.h:198-216 | an assignment's row is in the natural join iff its restrictions are in both tables |
| Joins.GetAntiJoinInfo | src/table.cpp:46-58 | common columns as for the natural join; the result has the left layout |
| Joins.AntiJoin | src/table.h:218-228 | the result is exactly the left rows that agree with no right row on the common columns |
| Joins.AntiJoinMeaning | src/table.h:218-228 | with the right variables among the left ones, an assignment's row is in the anti join iff it is in the left table and its restriction is not in the right one |
| Joins.FindPermutation | src/table.cpp:67-81 | reading a row of the second layout through the permutation gives a row of the first |
| Joins.UnionInPlace | src/table.h:267-271 | the union of the first table and the permuted second one |
| Joins.UnionMeaning | src/table.h:254-272 | an assignment's row is in the union iff it is in one of the tables under that table's own layout |
| SinceSpec.SinceSatPrefix | src/since_impl.h:203-208 | later inputs do not change a since verdict |
| SinceSpec.UnitLeftIsOnce | src/monitor.h:339-352 | without a left condition, since means the same as with the unit table on the left |
| SinceSpec.DropKeepsTin | src/since_impl.h:122-145 | evicting tables keeps in `tuple_in` the latest in-window stamp at which each row is still justified |
| SinceSpec.DropKeepsSince | src/since_impl.h:113-120 | erasing a row from `tuple_since` when its reference count reaches zero loses no retained justification |
| SinceSpec.PromotionJustified | src/since_impl.h:157-161 | the comparison by timestamp is sound with repeated timestamps: a promoted row is justified at an equal timestamp, possibly by a later occurrence |
| SinceSpec.AdvanceKeepsTin | src/since_impl.h:147-168 | moving tables into the window keeps the stamps exact |
| SinceSpec.JoinKeeps | src/since_impl.h:216-231 | filtering both maps by the left table keeps exactly the justified rows |
| SinceSpec.TinIsSat | src/since_impl.h:60-82 | with the window exact, the keys of `tuple_in` are the rows that satisfy the formula |
| SinceOperator.SinceImpl.DropTooOld | src/since_impl.h:122-145 | exactly the tables beyond the upper bound leave the two queues, with their reference counts |
| SinceOperator.SinceImpl.AddNewTs | src/since_impl.h:147-168 | afterwards the in-window queue covers exactly the positions whose distance lies in the interval |
| SinceOperator.SinceImpl.Join | src/since_impl.h:216-231 | both maps keep exactly the rows that pass the left test; an empty positive left table clears them without telling the aggregator |
| SinceOperator.SinceImpl.AddNewTable | src/since_impl.h:170-191 | the new table extends the history and the whole invariant holds again |
| SinceOperator.SinceImpl.EvalSince | src/since_impl.h:203-208 | the result is exactly the rows that satisfy since at the new time point, for bounded and unbounded intervals, both polarities and repeated timestamps |
| SinceOperator.SinceImpl.EvalOnce | src/since_impl.h:240-244 | the same without a left operand |
| SinceOperator.SinceImpl.EvalAgg | src/since_impl.h:17-55 | the fused result aggregates the satisfying rows and the rows that were cleared behind the aggregator's back, and nothing else |
| SinceOperator.SinceImpl.StampsCovered | src/since_impl.h:113-191 | `tuple_in` is covered by `tuple_since`, that by the reference counts, and each row's count is the number of retained tables that hold it |
| SinceOperator.SinceImpl.RetainedInWindow | src/since_impl.h:122-191 | nothing outside the window is retained: one queue is inside the interval, the other too recent for it |
| UntilSpec.PassesIff | src/until_impl.cpp:62-66 | a stamp passes the filter exactly for the starting points it is not too early for |
| UntilSpec.EmitExact | src/until_impl.cpp:54-71 | the filtered first bucket is exactly the rows that satisfy until at the first buffered time point |
| UntilSpec.PopSound | src/until_impl.cpp:26-34 | merging the filtered first bucket into the next with max keeps every stamp justified |
| UntilSpec.PopComplete | src/until_impl.cpp:54-71 | filtering before merging loses no witness of any later time point |
| UntilSpec.StartIff | src/until_impl.cpp:119-138 | the left map tells from which time point on the left condition has held, for both polarities |
| UntilSpec.AddSound | src/until_impl.cpp:86-117 | the stamps entered for a new right table are justified at their buckets |
| UntilSpec.AddComplete | src/until_impl.cpp:86-117 | every starting point that a new occurrence serves is covered by a bucket at or before it |
| UntilSpec.A1UpdateOk | src/until_impl.cpp:119-138 | updating the left map by a left table keeps it exact |
| UntilSpec.UntilSatStable | src/until_impl.cpp:54-60 | a table beyond the upper bound does not change a verdict |
| UntilSpec.UnitLeftIsEventually | src/monitor.h:339-352 | without a left condition, until means the same as with the unit table on the left |
| UntilOperator.UntilImpl.CombineMax | src/until_impl.cpp:26-34 | the keys of both maps, each with the larger of its values |
| UntilOperator.UntilImpl.Shift | src/until_impl.cpp:54-71 | emits, exactly and in order, the time points whose upper bound the new timestamp has passed |
| UntilOperator.UntilImpl.FindOverrideIdx | src/until_impl.cpp:99-112 | the bucket index is where the left side started to hold, and in range |
| UntilOperator.UntilImpl.UpdateA2Map | src/until_impl.cpp:86-117 | every row enters its own and its override bucket with the larger stamp, and a new bucket is opened |
| UntilOperator.UntilImpl.AddTables | src/until_impl.cpp:140-148 | the history grows by both tables and the whole invariant holds again |
| UntilOperator.UntilImpl.Eval | src/until_impl.cpp:11-16 | hands out what has not been handed out yet; all of it is exact, for exactly the time points whose upper bound has passed |
| UntilOperator.UntilImpl.AddRightTable | src/until_impl.cpp:153-177 | the same for the specialised operator without a left operand |
| OperatorRuns.RunSince | src/since_impl.h:122-231 | over any run, result `k` is exactly the rows that satisfy since at time point `k`, whatever follows |
| OperatorRuns.RunUntil | src/until_impl.cpp:11-148 | over any run, the results together are the until verdicts of the time points, in order, each once, exact for all inputs, and each emitted with the first look-ahead that passes its upper bound |
| Specialisation.OnceIsSince | src/monitor.h:339-352 | on every run once gives the results of since with the unit table on the left |
| Specialisation.EventuallyIsUntil | src/until_impl.cpp:153-177 | on every run eventually hands out, call by call, the results of until with the unit table on the left |
| Buffers.BinaryBuffer.UpdateAndReduce | src/common/buffers.h:19-55 | each call continues the pairing of both streams, and the buffer holds exactly the surplus of the side it names |
| ChunkRuns.PairUp | src/common/buffers.h:19-55 | however the inputs are chunked, the pairs are those of the concatenated streams and the buffer is their surplus |
| PrevNext.PrevState.Eval | src/monitor.cpp:566-610 | the output continues the shifted, interval-filtered sequence; buffer and timestamps are exactly what is not consumed; nothing is emitted while the child is silent |
| PrevNext.NextState.Eval | src/monitor.cpp:612-633 | the output continues the sequence shifted the other way, one table fewer than the child's |
| ChunkRuns.RunPrev | src/monitor.cpp:566-610 | however tables and timestamps are chunked, the output is a prefix of the specified one, and as long as possible after a chunk with a table |
| ChunkRuns.RunNext | src/monitor.cpp:612-633 | however tables and timestamps are chunked, the output is the specified one for all but the child's first table |
| Preds.InitPredState | src/monitor.cpp:312-337 | the compiled positions cover every argument: variables by column, constants by value |
| Preds.CompiledIsLayout | src/monitor.cpp:312-337 | the columns are the predicate's free variables, each once |
| Preds.Match | src/monitor.cpp:442-460 | an event matches with a row iff that is the row of the assignments that make the arguments equal to the event |
| Preds.MatchAll | src/monitor.cpp:493-502 | the table holds exactly the assignments under which the arguments are one of the events |
| UnaryOps.TermEvalProject | src/formula.cpp:115-140 | evaluating a term on an assignment's row is evaluating it under the assignment |
| UnaryOps.EvalTable | src/monitor.cpp:184-219 | row-by-row evaluation keeps exactly the images of the rows that no operator drops |
| UnaryOps.FusedImageCons | src/monitor.cpp:184-219 | fusing an operator in front of others composes their set-level meanings, also when a column drop merges rows |
| UnaryOps.OpMeaning | src/monitor.cpp:221-255 | one assignment, comparison or column drop turns tables of a formula into tables of the formula it adds to |
| UnaryOps.DropMeaning | src/monitor.cpp:248-255 | dropping the column of variable 0 is existential quantification, with the de Bruijn shift |
| UnaryOps.FusedMeaning | src/monitor.cpp:184-219 | the fused list computes the tables of the whole nested formula |
| Reductions.AndTable | src/monitor.cpp:543-564 | the reduction of a conjunction represents it, with and without a negated right side, including absent tables |
| Reductions.OrTable | src/monitor.cpp:530-541 | the reduction of a disjunction represents it |
| Reductions.NegMeaning | src/monitor.cpp:516-528 | negating a closed formula swaps the unit table and the absent one |
| Streams.PrevMeaning | src/monitor.cpp:566-610 | the specified output for previous represents the formula at each time point |
| Streams.NextMeaning | src/monitor.cpp:612-633 | the specified output for next represents the formula at each time point |
| Streams.SinceMeaning | src/since_impl.h:203-231 | the operator's notion of since, on rows, is the formula's on assignments |
| Streams.UntilMeaning | src/until_impl.cpp:54-148 | the same for until, when all time points not fed yet are beyond the upper bound |
| TemporalStreams.SinceTables | src/monitor.h:187-207 | each pair is fed with its own timestamp, and the outputs represent the since formula |
| TemporalStreams.UntilTables | src/monitor.cpp:635-649 | each pair is fed with its own timestamp and the right look-ahead |
| StreamProgress.UntilRound | src/monitor.cpp:635-649 | one step of until delivers exactly the time points it newly decides |
| OperatorTree.MState.Eval | src/monitor.cpp:74-88 | one time point: a valid state delivers exactly the tables, for its own formula and layout, of the time points newly decided, and stays valid |
| OperatorTree.MState.EvalPred | src/monitor.cpp:462-505 | user and built-in predicates deliver the table of the current time point |
| OperatorTree.MState.RecReduce | src/monitor.h:52-76 | the pairs handed to the reduction are those of the newly common time points of both operands |
| OperatorTree.MState.EvalAnd | src/monitor.cpp:543-564 | conjunction as a stream operator |
| OperatorTree.MState.EvalOr | src/monitor.cpp:530-541 | disjunction as a stream operator |
| OperatorTree.MState.EvalPrev | src/monitor.cpp:566-610 | previous as a stream operator |
| OperatorTree.MState.EvalNext | src/monitor.cpp:612-633 | next as a stream operator |
| OperatorTree.MState.EvalSince | src/monitor.h:180-207 | since as a stream operator |
| OperatorTree.MState.EvalOnce | src/monitor.h:209-232 | once as a stream operator |
| OperatorTree.MState.EvalUntil | src/monitor.cpp:635-649 | until as a stream operator |
| OperatorTree.MState.EvalEventually | src/monitor.cpp:651-668 | eventually as a stream operator |
| OperatorTree.MState.EvalFused | src/monitor.cpp:184-219 | the fused unary operators as a stream operator |
| StateInit.InitMState | src/monitor.cpp:393-439 | every formula of the fragment compiles to a valid state for it, with the layout that `LayoutVars` predicts |
| StateInit.InitOpenNeg | src/monitor.cpp:396-404 | a negation with free variables becomes an empty table without columns, which represents it if it is vacuous |
| StateInit.InitAnd | src/monitor.cpp:296-310 | the four cases of conjunction, chosen in the source's order |
| StateInit.InitSinceUntil | src/monitor.h:323-388 | since and until, with the specialisation for an always-true left side and the stripped negation |
| StateInit.CombineFusedState | src/monitor.h:278-295 | extending or wrapping a state yields a valid state for the extended formula |
| StateInit.InitAndSafeAssign | src/monitor.cpp:126-164 | an equation that defines one new variable becomes an assignment |
| StateInit.InitAndRel | src/monitor.cpp:90-124 | a comparison, possibly negated once, becomes a filter |
| StateInit.InitExists | src/monitor.cpp:166-182 | quantification becomes a column drop |
| StateInit.InitEq | src/monitor.cpp:257-276 | an equation with a constant compiles to its constant table |
| MonitorLoop.VerdictRows | src/table.h:187-196 | the permuted rows are the satisfying assignments to variables 0, 1, ... |
| MonitorLoop.Monitor.constructor | src/monitor.cpp:27-40 | a fresh monitor for a formula whose free variables are 0, ..., n - 1 and all have a column, as the constructor asserts |
| MonitorLoop.Monitor.Step | src/monitor.cpp:42-64 | reports the newly decided time points below the maximum timestamp, in order, each with its own timestamp and exactly its satisfying assignments |
| MonitorLoop.Monitor.LastStep | src/monitor.cpp:66-69 | the same for the sentinel time point |
| MonitorRuns.MonitorTrace | src/file_monitor_driver.cpp:41-58 | for every formula of the fragment and every log, the verdicts are correct, for successive time points; the log alone determines them unless a next takes the sentinel for a successor; the first k time points are reported iff they are reached; without previous, every time point is reported iff the formula is flushable |
| Decisions.ProgressMonotone | src/monitor.cpp:42-64 | what has been decided stays decided |
| Decisions.ReachedIff | src/monitor.cpp:566-668 | for every formula, the first k time points are decided after n iff they are reached: previous runs one ahead of its operand at the steps that bring something new, and until needs such a step whose look-ahead passes their upper bounds |
| MonitorRuns.SentinelUnused | src/monitor.cpp:66-69 | the sentinel changes no reported verdict, whatever the intervals of until, if no next admits it as the successor of the last time point |
| MonitorRuns.UntilWindow | src/until_impl.cpp:54-80 | whatever a decided until may look at is decided too and older than the newest time point |
| MonitorRuns.LastStepDecides | src/monitor.cpp:66-69 | for flushable formulas, previous included, the last step decides every time point of the log |
| MonitorRuns.FlushedIff | src/monitor.cpp:66-69 | for every formula without previous, the last step decides the whole log iff each until is bounded and keeps the sentinel out of reach, and each next has an operand without future operators |
| MonitorRuns.PrevFlushedIff | src/monitor.cpp:566-602 | previous of such a formula decides the whole log iff its operand has decided all but the last time point, and at least one |
| MonitorRuns.FutureFreeImmediate | src/monitor.cpp:42-64 | formulas about the past and present are decided at once |
| MonitorRuns.ImmediateIff | src/monitor.cpp:42-64 | without previous, no others are |
| MonitorRuns.UntilLags | src/until_impl.cpp:54-60 | an until never decides the newest time point |
| Fragment.MonitorableIsSafe | src/formula.cpp:613-682 | everything in the fragment passes the source's safety check |
| Fragment.KeepsVariablesIff | src/monitor.cpp:393-439 | for every formula, safe or not: compilation fails nowhere and every layout has all free variables iff the formula is in the fragment and no vacuous negation is compiled |
| Fragment.UncheckedRight | src/formula.cpp:654-662 | a safe since whose right operand is not checked, and whose compilation throws |
| Fragment.DoublyNegated | src/monitor.cpp:96-117 | a safe conjunction with a twice negated comparison, whose compilation throws |
| Fragment.LostColumn | src/monitor.cpp:27-40 | a safe vacuous negation fails the assertion of the constructor by itself, but is in the fragment when joined with a predicate |
| Fragment.LostVariable | src/monitor.h:362-386 | a safe since compiles to a layout under which, on some log, no table is right |
| Fragment.UntilNotFlushed | src/monitor.cpp:66-69 | a log close to the maximum timestamp for which an until with an upper bound is not reported |
| Fragment.PrevRunsAhead | src/monitor.cpp:566-602 | a log for which previous of an until that is not flushed is complete |
| Fragment.NextAtEnd | src/monitor.cpp:55-69 | the last verdict reported for next is the log's, for all assignments, iff the interval excludes the sentinel or nothing satisfies the operand there |
| Fragment.NextSeesSentinel | src/monitor.cpp:66-69 | a formula and a log of one time point for which they differ |
| AggSpec.TotalRemove | src/temporal_aggregation_impl.h:134-140 | the collected term values do not depend on the order of the rows |
| AggSpec.AggregatesUnique | src/aggregation_impl.h:29-42 | the aggregate of a bag of rows is unique |
| TemporalAggregation.Group.RemoveStores | src/temporal_aggregation_impl.h:69-101 | removing a value from a group state gives the state for the remaining values, and the counter tells when none remain |
| TemporalAggregation.RemoveKeepsGroups | src/temporal_aggregation_impl.h:134-140 | removing a row changes its own group only, and an emptied group is erased |
| TemporalAggregation.TemporalAgg.AddResult | src/temporal_aggregation_impl.cpp:50-56 | the groups stand for the rows so far and the new one |
| TemporalAggregation.TemporalAgg.RemoveResult | src/temporal_aggregation_impl.cpp:58-66 | the groups stand for the rows so far without one occurrence of the removed one |
| TemporalAggregation.TemporalAgg.FinalizeTable | src/temporal_aggregation_impl.cpp:68-71 | one result row for every non-empty group, with the CNT, SUM, MIN, MAX or AVG of its rows |
| Aggregation.AggLayout | src/aggregation_impl.cpp:22-34 | grouping columns are those of the variables that stay free, in order, renumbered, with the result variable last |
| Aggregation.GroupRows | src/formula.cpp:549-554 | the rows of a group are those of the satisfying assignments that extend the group's assignment by values for the bound variables |
| Aggregation.AggregationImpl.Eval | src/aggregation_impl.cpp:55-76 | aggregates one table, or gives the default value if there is neither a row nor a grouping variable; no state remains |
| AggregateMeaning.AggregateTable | src/aggregation_impl.cpp:6-76 | from layout to result table: an assignment to the variables that stay free has a result iff that is the aggregate over its satisfying extensions, or the default |
| AggregateMeaning.ValsOfGroup | src/aggregation_impl.h:16-60 | the values of a group are the term values of its rows |
| AggregateRuns.RunAggregate | src/monitor.cpp:670-677 | over a whole run of an aggregation above any formula of the fragment but since, the tables are the aggregates over the operand's satisfying assignments at the time points it decides |
| AggregateRuns.RunOnceAggregate | src/monitor.h:215-236 | the same for the aggregator fused into once, which gives no default value |
| AggregateRuns.RunSinceAggregate | src/monitor.h:187-212 | the same for since, if its left operand is negated or can always be satisfied, so that nothing is cleared |
| FusedAggregation.AverageIff | src/aggregation_impl.h:112-135 | further values leave an average as it is iff they have the same average |
| FusedAggregation.HiddenIff | src/temporal_aggregation_impl.h:14-141 | a group has the same result with and without stale values iff it has other values, and the stale ones add up to 0 (SUM), have the same average as the others (AVG), or are each no less (MIN) or no greater (MAX) than one of the others; never for CNT |
| FusedAggregation.DefaultIff | src/aggregation_impl.cpp:57-58 | with nothing to group and no row, the fused aggregate is the default value iff there are stale rows and they aggregate to it |
| FusedAggregation.FusedIff | src/temporal_aggregation_impl.cpp:68-71 | both ways of aggregating agree iff the stale rows do not show, for every type of aggregate |
| FusedAggregation.ClearingRun | src/since_impl.h:227-229 | a run of two inputs in which the clearing branch hits a row in the window |
| FusedAggregation.SameAverage | src/since_impl.h:227-229 | a run in which a stale row shows in a count but not in an average |
| FusedAggregation.CompareRuns | src/since_impl.h:25-51 | over any run and at every input, fused and unfused aggregates cover the satisfying rows with and without all rows cleared so far, and agree iff these do not show |
| Bytes.LittleEndianRoundTrip | src/socket_interface/serialization.h:82-87 | decoding the bytes of a number gives it back |
| Bytes.Int64RoundTrip | src/socket_interface/serialization.h:82-87 | two's complement 64-bit values survive the bytes |
| Bytes.Int64BytesBack | src/socket_interface/deserialization.h:41-47 | and every 8 bytes are those of the value they decode to |
| Bytes.CastBack | src/socket_interface/deserialization.cpp:103 | a 64-bit timestamp survives the casts to a signed value and back |
| Wire.StringParses | src/socket_interface/deserialization.cpp:19-27 | an encoded string is read back, whatever follows |
| Wire.DataParses | src/socket_interface/deserialization.cpp:29-42 | an encoded value is read back with its type |
| Wire.EventParses | src/socket_interface/deserialization.cpp:44-68 | an encoded event is recognised by its control word and read back |
| Wire.EventsParse | src/socket_interface/deserialization.cpp:70-81 | the encoded events of a database are read back up to its end |
| DatabaseReader.DecodedEvents | src/socket_interface/deserialization.cpp:48-67 | a decoded database has, for every known predicate, its events in the order they were sent, and skips the others |
| DatabaseReader.Deserializer.ReadTuple | src/socket_interface/deserialization.cpp:44-68 | reads one event and adds it to its predicate if that is known, or raises what the parser says; skipping an unknown one takes the early read through the end iterator to be harmless |
| DatabaseReader.Deserializer.ReadTupleList | src/socket_interface/deserialization.cpp:70-81 | reads exactly the events up to the end of the database, with its error cases |
| DatabaseReader.Deserializer.ReadDatabase | src/socket_interface/deserialization.cpp:94-114 | echoes the markers before the next database and returns that database, or nothing at EOF |
| EventPipeline.FramesHoldDatabases | src/socket_interface/socket_event_source.cpp:154-172 | the framed stream contains exactly the logged databases, in order |
| EventPipeline.ClosedBytes | src/socket_interface/socket_event_source.cpp:154-162 | ending the open database completes its frame |
| EventPipeline.ChunkEvent | src/socket_interface/serialization.cpp:295-302 | appends exactly the encoding of the event |
| EventPipeline.EventSource.AddDatabase | src/socket_interface/socket_event_source.cpp:154-172 | ends the previous database, inserts a marker before every hundredth one when latency is tracked, and begins the new one |
| EventPipeline.EventSource.AddEvent | src/socket_interface/socket_event_source.cpp:174-180 | the open database has one more event |
| EventPipeline.EventSource.Terminate | src/socket_interface/socket_event_source.cpp:143-152 | everything queued is the framed log followed by EOF |
| WirePipeline.NextParses | src/socket_interface/deserialization.cpp:94-114 | reading a framed stream yields the markers before the next database, that database, and the rest of the stream |
| WirePipeline.ReadAll | src/uds_monitor_driver.cpp:16-30 | the driver's loop gets every database of the stream, echoes every marker and sends EOF |
| WirePipeline.LogAndRead | src/socket_interface/socket_event_source.cpp:143-180 | with the I/O thread and the kernel running at any time, a log comes out at the monitor's side with the same timestamps and, per known predicate, the same events in order; markers are echoed in order, then EOF; and the source recognises exactly the markers it sent and the EOF, however the replies are cut |
| SerializerTransport.Serializer.PushChunk | src/socket_interface/serialization.cpp:258-268 | a chunk is queued and a signal falls due; nothing queued is lost |
| SerializerTransport.Serializer.ReadChunksFromQueue | src/socket_interface/serialization.cpp:196-208 | exactly as many chunks are collected as were signalled, in order, and only the last queued one can be the final one |
| SerializerTransport.Serializer.MaybeSubmitCppmonWrite | src/socket_interface/serialization.cpp:91-114 | submits exactly one of an eventfd read, a non-empty write and the shutdown |
| SerializerTransport.Serializer.DropWritten | src/socket_interface/serialization.cpp:116-138 | a partial write of any length removes exactly the bytes written |
| SerializerTransport.Serializer.HandleWriteDone | src/socket_interface/serialization.cpp:116-140 | after a write the next operation is submitted and all bytes are accounted for |
| SerializerTransport.Serializer.HandleNewDataEventfd | src/socket_interface/serialization.cpp:142-147 | a signal makes progress: chunks are collected and the next operation is submitted |
| SerializerTransport.Serializer.OneOutstanding | src/socket_interface/serialization.cpp:91-114 | of eventfd read, write and shutdown exactly one is outstanding; a submission finds none |
| SerializerTransport.Serializer.ShutdownAfterAllSent | src/socket_interface/serialization.cpp:47-62 | the shutdown is submitted only when everything, including the last chunk, has been sent |
| SerializerTransport.Serializer.QuiescentIsDone | src/socket_interface/serialization.cpp:91-147 | no wakeup is lost: once the producer is done, the only state without a next step is the final one |
| SerializerRuns.RunTransport | src/socket_interface/serialization.cpp:91-147 | under every interleaving and every sequence of partial writes, the bytes sent are a prefix of the bytes queued, all of them at the end, and no run gets stuck before |
| SerializerRuns.Drain | src/socket_interface/serialization.cpp:210-252 | once the producer is done, the I/O thread finishes by itself with everything sent |
| Replies.ReplyReader.ReadDone | src/socket_interface/serialization.cpp:158-194 | what has arrived is always the recognised markers and the partial reply in the buffer; EOF and errors are recognised as such |
| Replies.PrefixDetermines | src/socket_interface/deserialization.cpp:83-92 | any prefix of a reply stream determines the markers read so far |
| Replies.ReadReplies | src/socket_interface/serialization.cpp:149-194 | however a reply stream is cut into reads, exactly its markers are recognised, in order, and its EOF |
| SPSC.Queue.RoomIff | src/socket_interface/SPSCQueue.h:107-114 | the index comparison means room by the cached read index, however stale |
| SPSC.Queue.ReloadReadIdx | src/socket_interface/SPSCQueue.h:112-114 | after a reload the producer waits iff the ring is full |
| SPSC.Queue.ReloadOrGiveUp | src/socket_interface/SPSCQueue.h:130-135 | trying once fails iff the ring is full |
| SPSC.Queue.Construct | src/socket_interface/SPSCQueue.h:115 | the slot written is raw storage, and no other slot changes |
| SPSC.Queue.Publish | src/socket_interface/SPSCQueue.h:116 | the element becomes the newest one |
| SPSC.Queue.ReloadWriteIdx | src/socket_interface/SPSCQueue.h:168-177 | after a reload the queue is reported empty iff it is |
| SPSC.Queue.Peek | src/socket_interface/SPSCQueue.h:168-177 | the front element is the oldest one published and not released |
| SPSC.Queue.Release | src/socket_interface/SPSCQueue.h:179-190 | the oldest element leaves the ring |
| SPSC.RunQueue | src/socket_interface/SPSCQueue.h:105-190 | under every interleaving what is consumed is a prefix of what was enqueued successfully, waiting never fails, and the ring never holds more than its capacity |

## Left out

- Values other than integers: strings and doubles as table entries, mixed comparisons and 64-bit overflow of values; on the wire a double is eight opaque bytes.
- The term constructors `/`, `%`, and the conversions between integers and doubles.
- MED, which the temporal aggregator rejects; an average is an exact number, where the source rounds.
- `Let`, and aggregations below other operators: an aggregation is proved at the root of a formula, not as a case of `Sat`.
- AggregateRuns.RunSinceAggregate: needs a left operand that cannot clear the window; otherwise `CompareRuns` says when the result is still that of the aggregation.
- Several timestamps in one step: the drivers feed one, and the predicate operator relies on it.
- StateInit.InitMState: compiles the formulas of `Monitorable`. What happens to the others is only predicted (`LayoutVars`, `KeepsVariablesIff`): compilation fails, or some operator lacks a column that it needs.
- A failing assertion of the source counts as a failure; what a build without assertions does next is not modelled.
- Meaning that survives a missing column by accident, as when a left operand of since is unsatisfiable, is not recognised by `Monitorable`.
- MonitorLoop.Monitor.Step: a verdict's rows are a set, in no particular order.
- `StateInit.CombineFusedState` builds a new fused node around the same child where the source appends to the node in place.
- SerializerTransport.Serializer.constructor: a write buffer size of 0 is excluded; the source asserts that writes are not empty.
- DatabaseReader.Deserializer.ReadTuple: the source dereferences the end iterator of an unknown predicate before its test (src/socket_interface/deserialization.cpp:50-52), which is undefined behaviour and may abort in a checked build; the model takes the unused value to be read harmlessly.
- io_uring, sockets and eventfd appear as completions that may happen at any time with any positive byte count; clocks and latency values are parameters.
- Weak memory orderings: loads and stores of the queue are interleaved one at a time.
- JSON, trace and signature parsing, text logging and printing, the C API, and the memory management of values.
