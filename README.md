# rv-smx/utils: stream classification and loop-profile join, in Dafny

The rv-smx utilities post-process the output of an LLVM analysis that looks
for streamizable loops. For every loop, the analysis reports three things:

- its memory streams, each with address factors;
- its induction-variable streams, each with a parent;
- its memory operations.

This project models the core of those scripts and proves properties of it.

- **`StreamInfo`** (result_analysis.py). It classifies one loop:
  - which memory streams are supported, and which of those are indirect;
  - which induction variables are supported;
  - the longest chain of supported induction variables;
  - how many loads and stores go through supported and indirect streams.
- **`print_info`** (result_analysis.py). It folds the classifications of every loop of a benchmark into counters and three frequency dictionaries. It then reports, for each dictionary, the largest key and the most frequent non-zero key.
- **The loop-profile join** (prof_analysis.py). It works in these steps:
  - It derives loop IDs from debug locations.
  - It builds the loop tree and the dictionary of analysis results.
  - It finds the analysis result of a profiled loop, falling back to the loop's top-level loop.
  - It gives every profile record two tri-state answers: whether the loop is streamizable, and whether it has an indirect stream access.
- **Source-file selection** (smx_analysis.py). It covers the read-only lookups of `CompilationConfig` over the parsed configuration: the extension and directory lookups, the compile command, and `is_source`.

## Modules

| Module | File | Contents |
|---|---|---|
| `Common` | common.dfy | `Option`, `Max`, removal from a sequence, and distinctness lemmas. |
| `Text` | text.dfy | The Python string operations the scripts use, written out over `seq<char>`: `split('@[')[0]`, `strip()`, `os.path.basename`, `lower()`, `endswith` and `os.path.splitext`. |
| `Document` | document.dfy | The records of the analysis JSON: streams, factors, memory operations, loops and results. |
| `StreamSpec` | stream_spec.dfy | The specification of the classifier as functions, in the datatype `Classification` computed by `Classify`. |
| `ResultAnalysis` | stream_info.dfy | The `StreamInfo` class, with fields, a constructor and the check methods, each proved to produce `Classify`. |
| `Population` | population.dfy | `print_info` as a method that returns the printed numbers, proved equal to a fold over the classifications. |
| `ProfAnalysis` | prof_analysis.dfy | The loop-profile join, with the `ProfResult` class. |
| `SmxAnalysis` | smx_analysis.dfy | The configuration lookups and `is_source`. |

### Where the model takes the source's form

- `StreamInfo`, its checks, the `mss` dictionary (class `MsPool`) and `ProfResult` are classes whose methods update fields in place.
- The loops of `build_loop_tree`, `build_smx_dict`, `gen_prof_results`, `__updated_stream_info` and `print_info` are `while` loops. Each is proved against a function of its input.
- Everything else is a function.

### Preconditions stronger than the source needs

The classifier and the join are proved under three preconditions. Each is sufficient for the source to terminate without an exception, and each also excludes some inputs on which the source terminates normally. Those inputs are listed under "## Left out".

- `StreamSpec.Acyclic`: the memory-stream dependencies of the pool have a rank. On a cycle that the factor loop of `__check_ms` reaches, the source recurses until Python's recursion limit.
- `StreamSpec.WellFormedIvs`: induction-variable names are distinct, and every kept induction variable (referenced by a supported stream and increasing) satisfies `StreamSpec.ParentOk`. That is, its parent, and each unsupported ancestor the walk of lines 90-91 passes through, is declared before the name it was reached from. Where this fails, the source may raise `KeyError` at line 91 or 96 or loop forever at line 90, but it need not.
- `ProfAnalysis.TreeAcyclic`: following single parents terminates from every loop of the tree. `get_top_level_loop` recurses forever only when the walk from the queried loop enters a cycle.

### Calls to methods the source does not define

- prof_analysis.py:77 and :87 call `StreamInfo.is_supported_iv` and `StreamInfo.is_indirect_supported_ms`. result_analysis.py defines neither. The model gives them the meaning their names and their use imply: membership in the supported induction variables and in the indirect supported streams (`ResultAnalysis.StreamInfo.IsSupportedIv`, `ResultAnalysis.StreamInfo.IsIndirectSupportedMs`).

## Model

| member | source | states |
|---|---|---|
| ResultAnalysis.StreamInfo.constructor | result_analysis.py:14-32 | The new object's sets, chain length and counters are exactly `Classify(info)`. It is required only that the record be `StreamSpec.WellFormed`: induction variables that are not kept may have any parent (`StreamSpec.UnreferencedIvWithLaterParentExample`). |
| ResultAnalysis.StreamInfo.IsSupportedIv | prof_analysis.py:77 | The query is membership in the supported induction variables. It has no contract of its own; `ProfAnalysis.StreamizableMeansSupportedIv` states what a true answer means. |
| ResultAnalysis.StreamInfo.IsIndirectSupportedMs | prof_analysis.py:87 | The query is membership in the indirect supported streams. It has no contract of its own; `ProfAnalysis.IndirectAccessMeansMemoryFactor` states what a true answer means. |
| ResultAnalysis.MsPool.Put | result_analysis.py:38 | `mss[name] = ms`. The entry is replaced, and a new key is appended to the key order. |
| ResultAnalysis.MsPool.Delete | result_analysis.py:59-65 | `del mss[name]`. The entry is gone, and the order of the other keys is kept. |
| ResultAnalysis.MsPool.Values | result_analysis.py:39 | `list(mss.values())`: the values in key insertion order. |
| ResultAnalysis.StreamInfo.FillPool | result_analysis.py:35-38 | The pool holds exactly the read or written streams, by name, with the last declaration winning. |
| ResultAnalysis.StreamInfo.CheckMss | result_analysis.py:34-40 | Sets the three fields:<br>• supported streams: the accepted set of the pool;<br>• indirect streams: the accepted streams that have a memory factor;<br>• supported IVs: the IVs named by the factors of supported streams. |
| ResultAnalysis.StreamInfo.CheckEach | result_analysis.py:39-40 | Checking each snapshot value leaves exactly the accepted, indirect and IV sets of the pool. |
| ResultAnalysis.StreamInfo.CheckMs | result_analysis.py:42-75 | Four things:<br>• the result is true exactly when the stream is accepted;<br>• a rejected stream is deleted from the pool;<br>• a stream already supported, or already deleted, returns at once with nothing changed;<br>• streams of higher rank are untouched. |
| ResultAnalysis.StreamInfo.CheckFactors | result_analysis.py:55-67 | The factor loop accepts exactly the acceptable streams (`StreamSpec.Accepted`). The indirect flag says whether the stream has a memory factor. A rejected stream leaves the pool. |
| ResultAnalysis.StreamInfo.CheckFactor | result_analysis.py:57-66 | One factor passes exactly when `StreamSpec.FactorOk` holds. A failing factor means the stream is not acceptable. Streams of the same or higher rank keep their pool entries and support. |
| ResultAnalysis.StreamInfo.FactorsOkAccepted | result_analysis.py:55-71 | A pooled stream whose factors all pass is in the accepted set. The indirect flag the loop builds is exactly "has a memory factor". |
| ResultAnalysis.StreamInfo.Reject | result_analysis.py:59-65 | `del mss[name]` for a stream that is not acceptable: the pool loses exactly that name, and the bookkeeping invariant is kept. |
| ResultAnalysis.StreamInfo.Accept | result_analysis.py:68-74 | An acceptable stream is added to the supported set, and the bookkeeping invariant is kept. |
| ResultAnalysis.StreamInfo.AddIvRefs | result_analysis.py:72-74 | Adds exactly the names of the stream's induction-variable factors to the supported IVs. |
| ResultAnalysis.StreamInfo.CheckIvs | result_analysis.py:77-98 | The non-increasing IVs leave the supported set. The maximum chain length becomes the largest chain over the remaining IVs. It is required only that the kept IVs satisfy `StreamSpec.ParentOk` (see Left out). |
| ResultAnalysis.StreamInfo.UpdateChain | result_analysis.py:88-98 | Records the chain length of a supported IV: one more than that of its nearest supported ancestor. Updates the running maximum. |
| ResultAnalysis.StreamInfo.WalkParents | result_analysis.py:89-92 | The walk up `iv_parent` stops at the nearest supported ancestor, or at `None` when there is none. |
| ResultAnalysis.StreamInfo.CheckMemOps | result_analysis.py:100-111 | The six counters are the counts, over the memory operations, of loads and stores, stream loads and stores, and indirect ones. |
| ResultAnalysis.RecordParent | result_analysis.py:82 | After `iv_parent[name] = parent`, every declared unsupported name still maps to its declared parent. |
| ResultAnalysis.RecordChain | result_analysis.py:97 | After `iv_chain_len[name] = chain_len`, every supported name declared so far maps to its chain length. |
| ResultAnalysis.SupportedAtStep | result_analysis.py:83-87 | At each step, the supported set agrees with the final one on every earlier name. It drops the current name exactly when that IV is not increasing. |
| StreamSpec.PoolOf | result_analysis.py:35-38 | Every pool entry is a read or written stream filed under its own name. Every such stream has an entry. |
| StreamSpec.PoolOfLastWins | result_analysis.py:38 | When several streams share a name, the last read or written one is kept. |
| StreamSpec.PoolSizeBound | result_analysis.py:36-38 | The pool has at most as many entries as there are read or written streams. |
| StreamSpec.InactiveStreamLowersCount | result_analysis.py:37 | One unread, unwritten stream makes the active streams fewer than `num_mss`. |
| StreamSpec.PoolOfPermutation | result_analysis.py:35-38 | With distinct names, the pool does not depend on the order of the streams. |
| StreamSpec.Accepted | result_analysis.py:42-75 | The specification of `__check_ms`'s answer: the stream is pooled and every factor passes `FactorOk`. Its properties are `AcceptedRankIndependent`, the three `Rejects`/`Accepts` lemmas and `SupportedStreamsPass`. |
| StreamSpec.FactorOk | result_analysis.py:56-67 | The specification of one factor's check. `ResultAnalysis.StreamInfo.CheckFactor` is proved to compute it. |
| StreamSpec.AcceptedRankIndependent | result_analysis.py:42-75 | Acceptance does not depend on which rank witnesses acyclicity. |
| StreamSpec.RejectsVariantNonStream | result_analysis.py:57-60 | A `notAStream` factor that is not invariant rejects the stream. |
| StreamSpec.RejectsUnsupportedDependency | result_analysis.py:61-66 | A `memory` factor whose stream is missing from the pool, or is rejected, rejects the stream. |
| StreamSpec.AcceptsWithoutVariantOrMemoryFactor | result_analysis.py:56-69 | A stream whose factors are all induction variables or invariant non-streams is accepted. |
| StreamSpec.IvNames | result_analysis.py:72-74 | A name is collected exactly when some factor is an induction-variable factor on it. |
| StreamSpec.IvRefsAdd | result_analysis.py:72-74 | Accepting one more stream adds exactly its IV references. |
| StreamSpec.ParentOk | result_analysis.py:89-96 | The part of the precondition that makes the walk of lines 90-91 stay among earlier declarations. `StreamSpec.UnreferencedIvWithLaterParentExample` shows that it constrains only kept IVs. |
| StreamSpec.NonIncreasingPrefix | result_analysis.py:85-87 | The names removed after `i` steps are those of the earlier non-increasing IVs. On earlier names, this agrees with the final removal. |
| StreamSpec.ParentIndex | result_analysis.py:81-82 | A declared parent is found at an earlier position under its name. |
| StreamSpec.Nearest | result_analysis.py:89-91 | The nearest supported IV on the parent chain is supported and is not below its start. |
| StreamSpec.NearestAbove | result_analysis.py:89-92 | The nearest supported strict ancestor comes earlier and is supported. |
| StreamSpec.ChainLenPositive | result_analysis.py:93-96 | Every chain length is at least 1. |
| StreamSpec.ChainLenBound | result_analysis.py:93-96 | The chain length of IV `i` is at most `i + 1`. |
| StreamSpec.ChainLen | result_analysis.py:88-97 | The specification of `iv_chain_len`: 1 without a supported ancestor, otherwise one more than the nearest one's. `ChainLenPositive`, `ChainLenBound` and `ChainLenCountsSupportedAncestors` state its properties. |
| StreamSpec.MaxChain | result_analysis.py:98 | The specification of the running maximum. `MaxChainIsUpperBound`, `MaxChainAttained`, `MaxChainZeroIff` and `MaxChainBound` state its properties. |
| StreamSpec.ChainLenCountsSupportedAncestors | result_analysis.py:88-97 | The chain length is one more than the number of supported ancestors, so path compression does not change it. |
| StreamSpec.ThreeSupportedGenerations | result_analysis.py:88-97 | Three supported generations give a chain of length 3. |
| StreamSpec.UnreferencedIvWithLaterParentExample | result_analysis.py:80-98 | An IV that no supported stream references may name a parent declared after it. The record is still `WellFormed`, and the later IV is supported with chain length 1. |
| StreamSpec.UndeclaredIvExample | result_analysis.py:72-98 | A stream may reference an IV the record does not declare. That IV stays supported, and the loop's chain length is 0. |
| StreamSpec.MaxChainIsUpperBound | result_analysis.py:98 | The running maximum bounds every supported chain. |
| StreamSpec.MaxChainAttained | result_analysis.py:98 | A positive maximum is the chain length of some supported IV. |
| StreamSpec.MaxChainZeroIff | result_analysis.py:98 | The maximum is 0 exactly when no IV is supported. |
| StreamSpec.MaxChainBound | result_analysis.py:98 | The maximum is at most the number of IVs. |
| StreamSpec.CountOps | result_analysis.py:100-111 | The specification of the six counters. `CountOpsBounds` states its properties, and `ResultAnalysis.StreamInfo.CheckMemOps` is proved to compute it. |
| StreamSpec.CountOpsBounds | result_analysis.py:100-111 | Indirect ≤ stream ≤ total, for loads and for stores, and loads plus stores ≤ the number of operations. |
| StreamSpec.IndirectIsSupportedWithMemoryFactor | result_analysis.py:55-71 | The indirect set is inside the supported set. A stream is indirect exactly when it is supported and has a memory factor. |
| StreamSpec.SupportedStreamsPass | result_analysis.py:37-67 | Every supported stream is a declared stream that is read or written. Its `notAStream` factors are invariant, and its `memory` factors name supported streams. |
| StreamSpec.UnreadNeverSupported | result_analysis.py:37-38 | A stream that is neither read nor written is never supported. |
| StreamSpec.SupportedCountBound | result_analysis.py:16-38 | Supported streams ≤ `num_mss`, strictly fewer when some stream is inactive. |
| StreamSpec.SupportedIvsCharacterised | result_analysis.py:72-87 | An IV is supported exactly when a supported stream references it and none of its declarations is non-increasing. |
| StreamSpec.SupportedIvNeedsSupportedStream | result_analysis.py:72-87 | A loop with a supported IV has a supported memory stream. |
| StreamSpec.Classify | result_analysis.py:14-111 | The specification of a whole `StreamInfo`: the pool's accepted and indirect sets, the referenced increasing IVs, their maximum chain, and the counters. The constructor is proved to produce it; the lemmas of this module state its properties. |
| StreamSpec.MaxChainOfClassification | result_analysis.py:22-98 | `max_iv_chain_len` ≤ `num_ivs`. It is 0 exactly when no declared IV is supported. |
| StreamSpec.CountersOfClassification | result_analysis.py:100-111 | The six counters of a classified loop are ordered, and bounded by the number of memory operations. |
| StreamSpec.ClassificationIgnoresStreamOrder | result_analysis.py:34-40 | With distinct names, permuting the memory streams does not change the classification. |
| StreamSpec.SingleInvariantStreamExample | result_analysis.py:14-32 | A loop with one stream that is read and has an invariant factor, plus one load, is classified with that stream supported and not indirect. |
| Population.Bump | result_analysis.py:232-237 | One `setdefault` and increment: a new key goes last with count 1, an existing key gains 1 in place. `TallyCounts` and `TallyOrderIsFirstOccurrence` state what repeated bumps give. |
| Population.Tally | result_analysis.py:232-237 | The dictionary after bumping every value in turn. `TallyCounts` and `TallyOrderIsFirstOccurrence` state its properties. |
| Population.TallyCounts | result_analysis.py:232-237 | The `setdefault` tally has exactly the tallied values as keys. Each maps to its multiplicity. |
| Population.TallyOrderIsFirstOccurrence | result_analysis.py:232-237 | The dictionary's keys are in the order of first occurrence. |
| Population.Pop | result_analysis.py:261 | `pop(0, None)` removes key 0 and keeps every other key. |
| Population.WithoutKeepsOrder | result_analysis.py:261 | Popping a key keeps the other keys in first-occurrence order. |
| Population.MaxOf | result_analysis.py:260 | `max(keys)` is a key, at least as large as every key. |
| Population.FirstMaxIndex | result_analysis.py:263 | `max(items, key=count)` picks a maximal count, and the first one in insertion order. |
| Population.MostFrequent | result_analysis.py:262-263 | `None` exactly for an empty dictionary. Otherwise a key with its count, at least as frequent as every key. |
| Population.MaxItemAsWritten | result_analysis.py:263 | The call as written: it raises `ValueError` exactly on an empty dictionary, and otherwise agrees with `MostFrequent`. |
| Population.DistributionOf | result_analysis.py:260-272 | What is printed for one dictionary: its largest key and the corrected most frequent non-zero key. `MaxKeyOfTally` and `MostFrequentOfTally` state its properties. |
| Population.MaxKeyOfTally | result_analysis.py:260 | The reported largest key is the largest tallied value. |
| Population.MostFrequentOfTally | result_analysis.py:261-263 | The reported most frequent non-zero value:<br>• it is absent exactly when every value is 0;<br>• otherwise it is a non-zero tallied value with its exact multiplicity;<br>• no non-zero value is more frequent;<br>• every value first seen earlier is strictly less frequent. |
| Population.MostFrequentIsFirst | result_analysis.py:261-263 | Among equally frequent non-zero values, the reported one occurs first. |
| Population.Step | result_analysis.py:225-247 | One iteration of the loop, on the accumulators. `FullyCount`, `PartiallyCount`, `FoldFreqIsTally` and `FoldIsAdditive` state what the iterations add up to. |
| Population.Fold | result_analysis.py:224-247 | The accumulators after the whole loop. Its properties are the lemmas named for `Step`, with `TotalsOrdered` and `FoldValid`. |
| Population.AddLoop | result_analysis.py:225-247 | One step of the fold, on the loop's state. |
| Population.Accumulate | result_analysis.py:224-247 | The loop over the `StreamInfo` objects computes the fold of their states. |
| Population.FullyCount | result_analysis.py:226-228 | The fully-streamizable count is the number of loops with supported streams that are all supported. |
| Population.FullySetSnoc | result_analysis.py:226-228 | One more loop adds its position to the fully-streamizable set exactly when it is fully streamizable. |
| Population.PartiallyCount | result_analysis.py:226-230 | The partially-streamizable count is the number of loops with some, but not all, streams supported. |
| Population.PartiallySetSnoc | result_analysis.py:226-230 | One more loop adds its position to the partially-streamizable set exactly when it is partially streamizable. |
| Population.StreamizableAtMostLoops | result_analysis.py:226-257 | Streamizable loops ≤ `num_loops`. |
| Population.FoldFreqIsTally | result_analysis.py:232-237 | Each frequency dictionary is the tally of the per-loop values: supported IVs, chain length and supported streams. |
| Population.FoldIsAdditive | result_analysis.py:224-247 | The fold of a concatenation adds the counters of the two parts. |
| Population.TotalsOrdered | result_analysis.py:239-247 | Per-loop orderings (indirect ≤ stream ≤ total) survive the sums. |
| Population.ClassifiedTotalsOrdered | result_analysis.py:239-247 | The totals of classified loops are ordered. |
| Population.FoldValid | result_analysis.py:260-272 | After at least one loop, the three dictionaries are well formed and not empty, so `max(keys)` is defined. |
| Population.SummaryFrom | result_analysis.py:249-290 | The printed numbers from the loop count and the accumulators, `NoLoops` for the early return of line 252. `Percentages` and `PercentagesAtMostHundred` state its properties. |
| Population.PrintInfo | result_analysis.py:206-290 | The returned summary is `SummaryOf` the loops' states. It is `NoLoops` for an empty list: the early return. |
| Population.InactiveStreamBlocksFull | result_analysis.py:226-228 | A loop with an unread, unwritten stream is never fully streamizable. |
| Population.PopZeroOfZeros | result_analysis.py:261 | Tallying only zeros and popping 0 leaves an empty dictionary. |
| Population.PopRaisesIffAllZero | result_analysis.py:261-263 | After `pop(0, None)`, the `max` over a tally's items raises exactly when every tallied value is 0. |
| Population.IvsMaxRaisesIff | result_analysis.py:261-263 | The `max` of line 263 raises exactly when no loop has a supported IV. |
| Population.ChainMaxRaisesIff | result_analysis.py:266-268 | The `max` of line 268 raises exactly when every loop has chain length 0. |
| Population.StreamsMaxRaisesIff | result_analysis.py:270-272 | The `max` of line 272 raises exactly when no loop has a supported memory stream. |
| Population.ClassifiedIvsNeedStreams | result_analysis.py:72-74 | In every classified loop, a supported IV comes with a supported memory stream. |
| Population.NoStreamizableLoopRaises | result_analysis.py:261-263 | When no classified loop has a supported stream, none has a supported IV either, so the `max` of line 263 raises `ValueError` (see Findings). |
| Population.UndeclaredIvRaisesAtChain | result_analysis.py:261-268 | A loop with supported IVs but chain length 0 passes line 263, and alone it makes the `max` of line 268 raise (see Findings). |
| Population.StreamMaxFollowsIvs | result_analysis.py:261-272 | When every loop with a supported IV has a supported stream, line 272 raises only if line 263 does. |
| Population.StreamMaxNeverRaisesAfterIvs | result_analysis.py:261-272 | For classified loops, the `max` of line 272 never raises once line 263 has passed. |
| Population.Percentages | result_analysis.py:251-290 | Every printed percentage has a positive denominator, and none is printed without loops. |
| Population.PercentagesOfOrdered | result_analysis.py:253-290 | An ordered summary prints no percentage above 100. |
| Population.PercentagesAtMostHundred | result_analysis.py:253-290 | For classified loops, the summary is ordered, so no printed percentage exceeds 100. |
| ProfAnalysis.GetLoopId | prof_analysis.py:16-22 | The loop ID: the base name of the stripped text before the first "@[". `LoopIdHasNoSlash`, `LoopIdIgnoresInlinedAt` and `LoopIdOfPath` state its properties. |
| ProfAnalysis.LoopIdHasNoSlash | prof_analysis.py:16-22 | A loop ID holds no '/'. |
| ProfAnalysis.LoopIdIgnoresInlinedAt | prof_analysis.py:20 | The inlined-at part after "@[" never changes the loop ID. |
| ProfAnalysis.LoopIdOfPath | prof_analysis.py:16-22 | The ID of `dir/name`, with no whitespace or "@[", is `name`. |
| ProfAnalysis.ParentIds | prof_analysis.py:34 | Each `None` record stays `None`. Every other record becomes the ID of its location. |
| ProfAnalysis.LoopTreeOf | prof_analysis.py:31-34 | The tree after the entries, in file order. `LoopTreeHasEntry` and `LoopTreeLastWins` state its properties. |
| ProfAnalysis.BuildLoopTree | prof_analysis.py:25-35 | The loop computes `LoopTreeOf` of the entries. |
| ProfAnalysis.LoopTreeHasEntry | prof_analysis.py:32-34 | The tree has an entry exactly for the IDs of the locations. |
| ProfAnalysis.LoopTreeLastWins | prof_analysis.py:32-34 | For a shared ID, the records of the last location win. |
| ProfAnalysis.SmxDictOf | prof_analysis.py:45-50 | The nested dictionary after the results, in file order. `SmxDictHasEntry`, `SmxDictLastWins` and `SmxDictConsistent` state its properties. |
| ProfAnalysis.BuildSmxDict | prof_analysis.py:38-51 | The loop computes `SmxDictOf` of the results. |
| ProfAnalysis.SmxDictHasEntry | prof_analysis.py:46-50 | An `(id, func)` entry exists exactly when some result has that loop ID and function. |
| ProfAnalysis.SmxDictLastWins | prof_analysis.py:50 | The entry is the last such result. |
| ProfAnalysis.SmxDictConsistent | prof_analysis.py:46-50 | Every entry is one of the results, filed under its own loop ID and function. |
| ProfAnalysis.GetTopLevelLoop | prof_analysis.py:120-132 | A found top-level loop is in the tree with the single parent record `None`. It requires `TreeAcyclic`, which is stronger than the source needs (see Left out). |
| ProfAnalysis.TopLevelHasChain | prof_analysis.py:126-132 | A found top-level loop is reached from the loop through single parents. |
| ProfAnalysis.ChainLeadsToTopLevel | prof_analysis.py:126-132 | Conversely, such a chain ending at a top-level loop is what the function finds. |
| ProfAnalysis.TopLevelIsFixedPoint | prof_analysis.py:129-131 | The top-level loop of a top-level loop is itself. |
| ProfAnalysis.GetSmxResultOfLoop | prof_analysis.py:135-154 | A found result is the entry for `func` under some loop ID. |
| ProfAnalysis.SmxResultSource | prof_analysis.py:143-154 | A loop with results of its own never falls back. When the loop has no results, only its top-level loop's are used. |
| ProfAnalysis.FoundResultIsOfFunction | prof_analysis.py:135-154 | Over a built dictionary, a found result is one of the results, and it is of the requested function. |
| ProfAnalysis.LastMatch | prof_analysis.py:69-72 | The index of the last IV of the loop, with no later IV of that loop. |
| ProfAnalysis.LastMatchingIv | prof_analysis.py:69-72 | The name of the last IV of the loop, if any. `LastMatchingIvCharacterised` states its properties, and `ProfResult.FindIv` is proved to compute it. |
| ProfAnalysis.LastMatchingIvCharacterised | prof_analysis.py:69-72 | `None` exactly when no IV belongs to the loop. Otherwise the name of the last IV that does. |
| ProfAnalysis.HasIndirectAccess | prof_analysis.py:82-89 | Some indirect supported stream has an induction-variable factor on the IV. `ProfResult.FindIndirectAccess` is proved to compute it. |
| ProfAnalysis.TriStates | prof_analysis.py:59-89 | The two answers for a record. `TriStatesConsistent`, `StreamizableMeansSupportedIv` and `IndirectAccessMeansMemoryFactor` state its properties, and `ProfResult.UpdatedStreamInfo` is proved to compute it. |
| ProfAnalysis.TriStatesConsistent | prof_analysis.py:59-89 | Both answers are undetermined together, exactly without a result or a matching IV. Indirect access implies streamizable. |
| ProfAnalysis.StreamizableMeansSupportedIv | prof_analysis.py:76-77 | Streamizable means the loop's IV is referenced by a supported stream and is never non-increasing. |
| ProfAnalysis.IndirectAccessMeansMemoryFactor | prof_analysis.py:82-89 | An indirect access is a supported stream with an address factor on the IV and a memory factor. |
| ProfAnalysis.TriStateToString | prof_analysis.py:101-107 | "undetermined", "yes" and "no" exactly for `None`, `true` and `false`. |
| ProfAnalysis.TriStateToStringInjective | prof_analysis.py:101-107 | Distinct tri-states print as distinct words, so the CSV cell determines the tri-state. |
| ProfAnalysis.ProfResult.constructor | prof_analysis.py:59-64 | The record is kept, and the two answers are `TriStates` of the record and the result. |
| ProfAnalysis.ProfResult.UpdatedStreamInfo | prof_analysis.py:66-89 | Sets the two answers to `TriStates`, using `StreamInfo`. |
| ProfAnalysis.ProfResult.FindIv | prof_analysis.py:67-72 | The for loop finds the last IV of the loop. |
| ProfAnalysis.ProfResult.FindIndirectAccess | prof_analysis.py:82-89 | The nested loop with early return finds exactly whether an indirect access exists. |
| ProfAnalysis.GenProfResults | prof_analysis.py:157-169 | One new `ProfResult` per record, in order, each with the answers the join gives. |
| SmxAnalysis.ExtCfg | smx_analysis.py:46-47 | The config of an extension, looked up in lower case. `ExtCfgIgnoresCase` states its properties. |
| SmxAnalysis.ExtCfgIgnoresCase | smx_analysis.py:46-47 | The extension lookup is case-insensitive. It succeeds exactly when the lower-cased extension is mapped. |
| SmxAnalysis.DirConfigOf | smx_analysis.py:49-50 | The settings of a directory, empty for an unknown one. `UnknownDirectoryIsEmpty` states what an unknown one gives. |
| SmxAnalysis.UnknownDirectoryIsEmpty | smx_analysis.py:49-50 | An unknown directory has no flags and ignores nothing. |
| SmxAnalysis.GetCompileCmd | smx_analysis.py:52-60 | The command line, or the `RuntimeError` or `KeyError` raised. `CompileCmdCharacterised` states its properties. |
| SmxAnalysis.CompileCmdCharacterised | smx_analysis.py:52-60 | Three cases:<br>• unknown extension exactly when no config is mapped;<br>• `KeyError` exactly when the config has no command;<br>• otherwise the line is the bare command exactly when the directory has no flags for the config, and the command, a space and the flags when it has. |
| SmxAnalysis.EndsWithAny | smx_analysis.py:73-75 | True exactly when the file ends with some ignored name. |
| SmxAnalysis.IsSource | smx_analysis.py:62-76 | `is_source`. `IsSourceCharacterised` states its properties. |
| SmxAnalysis.IsSourceCharacterised | smx_analysis.py:62-76 | A source file has a mapped extension, a config not ignored in its directory, and a name that ends with no ignored entry. The converse holds too. |
| SmxAnalysis.EmptyIgnoredNameIgnoresAll | smx_analysis.py:73-75 | An empty ignored name rejects every file. |
| SmxAnalysis.UnknownDirectorySources | smx_analysis.py:62-76 | In an unknown directory, a file is a source file exactly when its extension is mapped. |
| SmxAnalysis.SourceHasCompileCommand | smx_analysis.py:52-69 | A source file never hits the unknown-extension error. |
| SmxAnalysis.UpperCaseExtensionIsSource | smx_analysis.py:62-76 | `main.C` is a source file when "c" is mapped. |
| Text.BeforeMarker | prof_analysis.py:20 | `split('@[')[0]`. `BeforeMarkerIsPrefix` and `BeforeMarkerOfUnmarked` state its properties. |
| Text.BeforeMarkerIsPrefix | prof_analysis.py:20 | `split('@[')[0]` is a marker-free prefix. It is the whole text, or it ends where the first "@[" starts. |
| Text.BeforeMarkerOfUnmarked | prof_analysis.py:20 | Marker-free text followed by "@[" gives back that text. |
| Text.StripStartIsSuffix | prof_analysis.py:20 | `lstrip()` is the suffix after the leading whitespace. |
| Text.StripEndIsPrefix | prof_analysis.py:20 | `rstrip()` is the prefix before the trailing whitespace. |
| Text.Strip | prof_analysis.py:20 | `strip()`. `StripIsTrimmedSlice` and `StripWithoutSpace` state its properties. |
| Text.StripIsTrimmedSlice | prof_analysis.py:20 | `strip()` is a slice surrounded only by whitespace, with no whitespace at either end. |
| Text.StripWithoutSpace | prof_analysis.py:20 | Text without whitespace is unchanged by `strip()`. |
| Text.Basename | prof_analysis.py:21 | POSIX `os.path.basename`. `BasenameIsLastSegment` and `BasenameAfterSlash` state its properties. |
| Text.BasenameIsLastSegment | prof_analysis.py:21 | `basename` is the suffix after the last '/'. |
| Text.BasenameAfterSlash | prof_analysis.py:21 | The base name of `dir/name` is `name`. |
| Text.EndsWith | smx_analysis.py:74 | `str.endswith`: the suffix is the last part of the text. An empty suffix ends every text (`SmxAnalysis.EmptyIgnoredNameIgnoresAll`). |
| Text.LowerChar | smx_analysis.py:47 | An upper-case ASCII letter maps to its own lower-case letter, 32 code points further. Nothing else changes. |
| Text.Lower | smx_analysis.py:47 | Lower-casing is character by character. |
| Text.LowerIdempotent | smx_analysis.py:47 | Lower-casing twice is lower-casing once. |
| Text.LastIndexOf | smx_analysis.py:66 | The last occurrence of a character before a bound, or -1. |
| Text.SplitExt | smx_analysis.py:66 | The extension is empty, or a suffix with no '/' that begins with the only '.' in it. |
| Text.SplitExtHasStem | smx_analysis.py:66 | A non-empty extension has a character other than '.' before it in the file name. |
| Text.SplitExtIsLastDot | smx_analysis.py:66 | When the file name has a character other than '.' before its last dot, the extension is everything from that dot on. |
| Text.ExtensionOf | smx_analysis.py:66 | `splitext(file)[-1][1:]`. `HiddenFileHasNoExtension` and `ExtensionOfSimpleName` state examples, and `SplitExtIsLastDot` the general rule. |
| Text.HiddenFileHasNoExtension | smx_analysis.py:66 | `.bashrc` has no extension. |
| Text.ExtensionOfSimpleName | smx_analysis.py:66 | `stem.ext` has extension `ext`. |

## Left out

- Reading input files is not modelled. That covers JSON reading (`get_stream_info_list`, the file parts of `build_loop_tree` and `build_smx_dict`, and `CompilationConfig.__init__`) and prof_reader.py. The model takes the parsed data.
- Output is not modelled: `print`, the CSV writers (`dump_csv_header`, `dump_csv_line`, `dump_csv`) and the `__main__` blocks.
- Population.Percentages: states only the (part, whole) pairs behind each guard, and that every whole is positive. The floating-point percentages and their formatting are not modelled.
- libprof.c, compile_loop_prof.py, `run_or_fail`, `compile`, `link`, the `analyse*` functions and `walk_files` are not modelled. They are toolchain calls, system calls, filesystem walks and process pools.
- `should_ignore_dir` is not modelled, because it depends on `os.path.abspath` normalisation.
- ResultAnalysis.StreamInfo.CheckMss: requires `StreamSpec.Acyclic`, a rank for every dependency in the pool. Some excluded inputs terminate in the source. For example, a read stream A with factors [loop-variant `notAStream`, `memory` A] is rejected at lines 57-60 before line 63 would recurse. The same holds for `CheckEach`, `CheckMs`, `CheckFactors`, `CheckFactor` and the constructor. Where the source does recurse forever, that path is not modelled.
- ResultAnalysis.StreamInfo.CheckIvs: requires `StreamSpec.WellFormedIvs`, which is stronger than the source needs in two ways. The constructor inherits both.
  - Names must be distinct. The source accepts duplicates, for example `[x(parent None), x(parent None)]`.
  - `StreamSpec.ParentOk` asks each unsupported ancestor on the walk to be declared before the name it was reached from. The source only needs it declared before the kept IV. One excluded input that terminates is `[a(parent b, unreferenced), b(parent None, unreferenced), c(parent a, referenced and increasing)]`: the walk from c goes a, b, `None`.
  - On inputs where the source raises `KeyError` at line 91 or 96, or loops forever at line 90, that path is not modelled.
- ProfAnalysis.GetTopLevelLoop: requires `TreeAcyclic`, no cycle of single parents anywhere in the tree. The source recurses forever only when the walk from the queried loop enters a cycle. A cycle the walk does not reach is excluded too, although the source terminates on it. The same requirement carries over to `GetSmxResultOfLoop`, `SmxOf` and `GenProfResults`, for loops without results of their own.
- ResultAnalysis.StreamInfo.constructor: initialises `num_ivs`, `max_iv_chain_len` and the counters before the checks rather than between them. No check reads them, so the outcome is unchanged.
- ProfAnalysis.BuildSmxDict: inserts into the inner dictionary by building a new map value. Aliasing of the inner dict objects is not modelled.
- `iv_parent` path compression is not consulted:
  - The model performs the compression.
  - The walk only passes through unsupported entries, which are never compressed.
  - The chain length therefore equals the count of supported ancestors (`StreamSpec.ChainLenCountsSupportedAncestors`).
- Dynamic JSON typing is not modelled:
  - `read`, `written`, `invariant` and `increasing` are booleans.
  - Flags and commands are strings.
  - Only the fields the code reads are kept. In particular, a profile record has only `location` and `function`, and stride, width and final-value data are absent.
- Text.Lower: ASCII letters only. Python's `str.lower` also maps non-ASCII letters.
- Text.SplitExt: POSIX `os.path.splitext` only. Leading dots of the file name are not an extension.
- Population.PrintInfo: the `ValueError` of `print_info` is kept only in `Population.MaxItemAsWritten` (see Findings). The summary itself uses the corrected `MostFrequent`, which gives `None` for an empty dictionary.
- ProfAnalysis.TriStates and `StreamSpec.Classify`: ghost specification functions. The executable path is `ProfResult.UpdatedStreamInfo` over `StreamInfo`.

## Findings

| source | as written | input that shows it | evidently intended | confidence | as-written member | corrected member |
|---|---|---|---|---|---|---|
| result_analysis.py:261-263 | After `num_ivs_freq_dist.pop(0, None)`, `max(num_ivs_freq_dist.items(), ...)` runs on an empty dict and raises `ValueError`. It raises exactly when no loop has a supported induction variable (`Population.IvsMaxRaisesIff`). | A benchmark none of whose loops has a supported memory stream, for example one loop with a single stream that is neither read nor written. A loop whose only supported stream has no induction-variable factor (`StreamSpec.SingleInvariantStreamExample`) raises too. | Report that there is no most frequent non-zero value, and go on printing the rest. | not executed | Population.NoStreamizableLoopRaises | Population.MostFrequentOfTally |
| result_analysis.py:266-268 | After `num_iv_chain_len_freq_dist.pop(0, None)`, the `max` of line 268 raises `ValueError` when every loop has chain length 0 (`Population.ChainMaxRaisesIff`). Line 263 does not prevent this. | One loop with a read stream whose induction-variable factor names an IV the record does not declare (`StreamSpec.UndeclaredIvExample`): the IV is supported, so line 263 passes, but the chain length is 0. | Report that there is no most frequent non-zero chain length, and go on printing the rest. | not executed | Population.UndeclaredIvRaisesAtChain | Population.MostFrequentOfTally |

The same `max` at line 272 cannot raise once line 263 has passed, because a loop with a supported induction variable has a supported memory stream (`Population.StreamMaxNeverRaisesAfterIvs`).
