# langid.c inference core in Dafny

This project models the language identifier of langid.c, a C port of langid.py, and proves
properties of the model. The identifier works in four stages:

- **Tokenizer.** A byte-level DFA runs over the text from state 0. Each state it enters is
  counted in the state sparse set `sv`.
- **Feature extraction.** Each visited state is expanded into the features its output slice
  lists. Every one of them is added to the feature sparse set `fv` with that state's count.
- **Naive Bayes scoring.** Each language's log-posterior is its prior plus, for every feature
  present, the count times the feature's log likelihood row. The scores are then normalized
  with a max-shifted softmax.
- **Decision.** `classify` reports the first most probable language. `rank` reports every
  language sorted by non-increasing probability.

The offline helpers of the two model-packing scripts are modelled next to the engine:

- `pack_tk_output` flattens the per-state feature lists into the three output tables the
  tokenizer indexes.
- `chunk` cuts the transition table back into rows.
- `as_c_array_init` writes a sequence as a C brace initializer.

Modules:

- `Tallies` (tallies.dfy): the abstract value of a counting sparse set. It holds the member ids
  in first-add order with their counts, together with `Add`, `AddAll` and `Count`.
- `SparseSets` (sparse_set.dfy): the sparse set as a class over the classic `dense` / `sparse` /
  `counts` arrays with a member count. `Clear` and `Add` are proved against `Tallies`.
- `LangModel` (lang_model.dfy): the read-only model and the shape facts the engine's array
  accesses rely on. The likelihood table holds `numFeats * numLangs` entries (model.h:24), and
  each state has 256 transitions (model.h:19).
- `Extraction` (extraction.dfy): the run of the DFA, the visited-state tally and the feature
  tally, all as functions of the model and the text.
- `Scoring` (scoring.dfy): log-posteriors, the softmax, the first arg-max, the comparator and
  the ranking order.
- `LibLangId` (liblangid.dfy): the `Identifier` class, which owns the model and the two sets.
  It holds `TextToFv`, `FvToLogprob`, `Classify` and `Rank`, each loop of which is an
  imperative method proved against the functions above.
- `TkOutputTable` (tk_output_table.dfy): the specification of the packed output tables, and
  the proof that they are exactly what the tokenizer needs.
- `Ldpy2Ldc` (ldpy2ldc.dfy): `pack_tk_output`, `chunk` and `as_c_array_init` of ldpy2ldc.py.
- `LdpyToProtobuf` (ldpy_to_protobuf.dfy): the separate copy of `pack_tk_output` in
  ldpy_to_protobuf.py.

How the source has been restated:

- Doubles are modelled as `real`.
- `exp` is a parameter of the operations that need it. It is required to be positive, and
  where stated, increasing.
- Text is a sequence of bytes, as the `(unsigned char)` cast reads it.
- Counts are unbounded naturals.
- The identifier takes its model as a value. Its two scratch sets are objects updated in place.
- `load_identifier` never checks the unpacked arrays' lengths against the declared counts. It
  only stops when the file cannot be opened or the message does not unpack
  (liblangid.c:57-70). The engine's shape facts are therefore a precondition (`Model.Valid`).
- Load failures call `exit(-1)` (liblangid.c:59, 69, 73) instead of returning an error.

## Model

| member | source | states |
|---|---|---|
| Tallies.AddWellFormed | liblangid.c:118 | Adding to a set keeps member ids unique. It keeps them below the capacity when the id is. The members stay the same for a present id and gain the id at the end for a new one. |
| Tallies.AddCount | liblangid.c:118 | After `add(id, delta)`, the count of `id` has grown by `delta` and every other count is unchanged. |
| Tallies.AddSum | liblangid.c:118 | Each `add` raises the total of the counts by its delta. |
| Tallies.AddAllMembers | liblangid.c:124-126 | Adding a whole sequence keeps ids unique and in range. The members afterwards are exactly the old members plus the added ids. |
| Tallies.AddAllCount | liblangid.c:124-126 | Adding a sequence with delta `d` raises each id's count by `d` times its number of occurrences. |
| Tallies.AddAllSum | liblangid.c:116-119 | Adding a sequence with delta `d` raises the total by `d` times its length. |
| Tallies.DistinctBelowLength | liblangid.c:118 | Distinct ids below a capacity number at most the capacity, so a new member always has a free slot. |
| SparseSets.SparseSet.constructor | liblangid.c:31-32 | `alloc_set(capacity)`: a fresh, valid, empty set of that capacity. |
| SparseSets.SparseSet.Clear | liblangid.c:113-114 | `clear`: the set is valid and has no members. |
| SparseSets.SparseSet.Add | liblangid.c:118 | `add`: the abstract value becomes `Tallies.Add` of the old one. A present id gets `delta` more; a new id is appended with count `delta`. |
| Extraction.StateAfter | liblangid.c:116-117 | The state after any text is a valid state. |
| Extraction.Trace | liblangid.c:116-118 | One entered state per byte, each below `num_states`. |
| Extraction.TraceIsRun | liblangid.c:111-117 | The entered states form the DFA's run: `s_0 = 0` and `s_{i+1} = tk_nextmove[s_i][text[i]]`. |
| Extraction.StateTallyFacts | liblangid.c:116-119 | The members of `sv` are exactly the states entered. Each state's count is the number of positions at which it was entered, and the counts sum to the text length. |
| Extraction.ExpandCount | liblangid.c:122-127 | After the first `k` members are expanded, each feature's count is the sum over those members of the member's count times the occurrences of the feature in its output slice. |
| Extraction.AddVisit | liblangid.c:116-127 | One more visit of a state adds exactly that state's output occurrences to the weighted contribution. |
| Extraction.FeaturesPerVisit | liblangid.c:116-127 | Each feature's final count equals the number of times the run emits it, visit by visit, whatever order the state set groups the visits in. |
| Extraction.EmptyText | liblangid.c:113-122 | An empty text leaves both sets empty. |
| Scoring.RowAt | liblangid.c:145-148 | Language `j`'s entry of a feature's likelihood row is `nb_ptc[f * num_langs + j]`, and that index lies inside the table. |
| Scoring.ScoresAt | liblangid.c:137-150 | Accumulating the rows one member at a time gives, for every language, the prior plus the sum over the members of count times likelihood. |
| Scoring.LogProbAt | liblangid.c:137-150 | `logprob[j] = nb_pc[j] + Σ_i counts[i] * nb_ptc[dense[i] * num_langs + j]`, as the per-language sum `Score`. |
| Scoring.EmptyLogProb | liblangid.c:137-139 | With no features present, `logprob` is the prior. |
| Scoring.SingleFeatureLogProb | liblangid.c:142-150 | One feature with count `c` adds `c` times its likelihood for each language, at an index inside the table. |
| Scoring.MaxLogProbFacts | liblangid.c:164-170 | The maximum search's result bounds every value, is at least `-DBL_MAX`, and is either `-DBL_MAX` (the exact largest finite double, negated) or one of the values. |
| Scoring.SoftmaxIsDistribution | liblangid.c:172-179 | For a positive `exp`, the normalized values are a probability distribution: each lies in (0, 1] and they sum to 1. |
| Scoring.SoftmaxKeepsOrder | liblangid.c:166-179 | For an increasing `exp`, normalization keeps strict order and equality between any two languages, in both directions. |
| Scoring.FirstMaxUnique | liblangid.c:184-194 | At most one index is the first maximum. |
| Scoring.ArgMax | liblangid.c:184-194 | For a non-empty sequence, the left-to-right scan that moves only on a strictly larger value ends at a maximum that is also the first one. |
| Scoring.Compare | liblangid.c:213-218 | The comparator is negative exactly when the first confidence is larger, positive exactly when it is smaller, and 0 exactly on a tie. |
| Scoring.CompareIsTotalPreorder | liblangid.c:213-218 | The comparator is antisymmetric, total and transitive, as `qsort` requires. |
| Scoring.RankConfidences | liblangid.c:228-234 | Whatever order the sort leaves, the confidences in `out` are exactly the language probabilities, each as often as it occurs. |
| Scoring.RankHeadIsBest | liblangid.c:205-234 | Any descending permutation of the pairs starts with the confidence `classify` reports. |
| LibLangId.Identifier.constructor | liblangid.c:24-48 | The identifier holds the model and two fresh sets sized to the state count and the feature count. |
| LibLangId.Identifier.TextToFv | liblangid.c:110-130 | Afterwards `sv` is the visited-state tally and `fv` is its feature expansion. Both depend only on the model and the text, because the sets are cleared first. |
| LibLangId.Scan | liblangid.c:116-119 | The scanning loop leaves `sv` equal to the visited-state tally of the text. |
| LibLangId.ExpandInto | liblangid.c:122-127 | The conversion loop leaves `fv` equal to the feature expansion of `sv`. |
| LibLangId.AddOutputs | liblangid.c:124-126 | The inner loop adds every feature of the state's output slice with the state's count. |
| LibLangId.Identifier.FvToLogprob | liblangid.c:132-153 | `logprob` ends equal to the Naive Bayes log-posteriors of the feature set. |
| LibLangId.AddFeatureRows | liblangid.c:142-150 | Starting from the prior, the outer loop leaves the log-posteriors of the feature set. |
| LibLangId.AddRow | liblangid.c:145-149 | Every language's value grows by the count times its entry in the feature's row. |
| LibLangId.LogprobToProb | liblangid.c:155-182 | The array ends as the max-shifted softmax of its old contents. |
| LibLangId.MaxOf | liblangid.c:164-170 | The first loop yields the running maximum from `-DBL_MAX`. |
| LibLangId.ExpShiftInPlace | liblangid.c:172-175 | Each value `v` becomes `exp(v - max)`, and the returned sum is their total. |
| LibLangId.DivideInPlace | liblangid.c:177-179 | Each value is divided by the sum. |
| LibLangId.Identifier.TextToProb | liblangid.c:201-203 | `text_to_fv`, `fv_to_logprob` and `logprob_to_prob` leave the softmax of the text's log-posteriors, and the two sets hold the text's state and feature tallies. |
| LibLangId.PredIdx | liblangid.c:184-194 | The result is the first maximum of `prob[..size]`, or 0 when `size` is 0. |
| LibLangId.Identifier.Classify | liblangid.c:196-211 | The result is the label and probability of the first most probable language, and the two sets hold the text's tallies. |
| LibLangId.FillPairs | liblangid.c:228-231 | `out` holds `(nb_classes[i], prob[i])` for every language. |
| LibLangId.SortDescending | liblangid.c:233-234 | Afterwards the array is a permutation of its old contents with confidences non-increasing. |
| LibLangId.Identifier.Rank | liblangid.c:220-235 | `out` is a permutation of all `(label, probability)` pairs, in non-increasing order of probability, and the two sets hold the text's tallies. |
| TkOutputTable.Counts | ldpy2ldc.py:69-82 | `tk_output_c` has one entry per state. |
| TkOutputTable.Starts | ldpy2ldc.py:69-83 | `tk_output_s` has one entry per state. |
| TkOutputTable.PackedCounts | ldpy2ldc.py:75-82 | A state with a non-empty list gets its length as count. A state that is absent or has an empty list gets 0. |
| TkOutputTable.PackedStarts | ldpy2ldc.py:83-84 | Each start is the sum of the earlier counts. The first start is 0 and the starts never decrease. |
| TkOutputTable.FlatLength | ldpy2ldc.py:82-84 | The flat table's length is the sum of the counts. |
| TkOutputTable.PackedSlices | ldpy2ldc.py:82-84 | The slice a state's start and count delimit lies inside the flat table and is that state's list, in order. |
| TkOutputTable.PackedEntriesFromStates | ldpy_to_protobuf.py:50-52 | Every entry of the flat table comes from the list of some state. |
| TkOutputTable.PackedInRange | ldpy2ldc.py:74-84 | When every listed feature is below `num_feats`, every slice lies inside the flat table and every entry is below `num_feats`. |
| TkOutputTable.PackedOutputs | ldpy2ldc.py:74-84 | A model carrying the packed tables hands `text_to_fv` exactly each state's list. |
| Ldpy2Ldc.PackTkOutput | ldpy2ldc.py:54-86 | The three lists are the per-state counts, the starts and the flat table over `len(tk_nextmove) >> 8` states. |
| LdpyToProtobuf.PackTkOutput | ldpy_to_protobuf.py:22-54 | The same three lists, built by the separate copy. |
| Ldpy2Ldc.Chunk | ldpy2ldc.py:93-102 | The chunks are the successive slices of `chunksize` elements. |
| Ldpy2Ldc.ChunksShape | ldpy2ldc.py:93-102 | For `chunksize > 0`, every chunk is non-empty and at most `chunksize` long, all but the last are exactly `chunksize` long, and their concatenation is the input. |
| Ldpy2Ldc.ChunksZero | ldpy2ldc.py:99-101 | A chunk size of 0 yields nothing. |
| Ldpy2Ldc.ChunksRows | ldpy2ldc.py:93-102 | An input of `rows * n` elements gives exactly `rows` chunks. |
| Ldpy2Ldc.ChunkAt | ldpy2ldc.py:93-102 | In such an input, chunk `i` holds elements `i * n` up to `(i + 1) * n`. |
| Ldpy2Ldc.NextMoveRows | ldpy2ldc.py:166 | Chunking a transition table whose length is a multiple of 256 yields `num_states` rows of 256. |
| Ldpy2Ldc.Map | ldpy2ldc.py:90 | `map(str, seq)` has one item per element, which is that element's `str`. |
| Ldpy2Ldc.SplitJoin | ldpy2ldc.py:90 | Cutting a comma-joined text at its commas gives back the parts, when no part holds a comma. |
| Ldpy2Ldc.JoinSplit | ldpy2ldc.py:90 | Joining the parts of a cut text gives back the text. |
| Ldpy2Ldc.AsCArrayInit | ldpy2ldc.py:89-90 | The initializer is enclosed in braces, and an empty sequence gives `{}`. |
| Ldpy2Ldc.AsCArrayInitItems | ldpy2ldc.py:89-90 | Between the braces, a non-empty sequence reads back item by item as the `str` of each element. |
| Ldpy2Ldc.Decimal | ldpy2ldc.py:90 | `str` of a non-negative integer is a non-empty string of digits with no leading zero. |
| Ldpy2Ldc.DecimalRoundTrip | ldpy2ldc.py:90 | Reading those digits gives back the number. |
| Ldpy2Ldc.UnsignedArrayRoundTrip | ldpy2ldc.py:169-171 | The initializer of an unsigned table has one item per element, and each item reads back as that element. |

## Left out

- `load_identifier` and `destroy_identifier` (liblangid.c:50-104) are left out. They are file
  I/O, `mmap`, protobuf-c unpacking and `malloc`/`free`. The identifier's constructor takes
  the model as an already valid value.
- `get_default_identifier` (liblangid.c:24-48) is modelled only as that constructor. The static
  arrays it points at are model.h's externs, whose contents are not part of this model.
- sparseset.c is not part of this model. The sparse set class states the contract liblangid.c
  relies on through the classic dense/sparse representation. An out-of-range id is excluded
  by `Add`'s precondition, because the C code has no error path for it.
- LibLangId.Identifier.Classify: requires at least one language. With none, the C code reads
  `lp[0]` and `nb_classes[0]` out of bounds.
- LibLangId.LogprobToProb: models `exp` as a positive function parameter, and division and
  addition exactly. IEEE rounding, overflow and underflow are not modelled, so the sum of
  the probabilities is exactly 1 here.
- LibLangId.SortDescending: stands for the C library's `qsort`. It promises sortedness and
  permutation only, not `qsort`'s particular order among equal confidences.
- Counts are unbounded naturals. The C `unsigned int` counts wrap at 2^32, which the model does
  not capture.
- Text length is the length of the byte sequence. The separate `text_len` argument and a
  `text` shorter than it are not modelled.
- Ldpy2Ldc.Decimal: only `str` of non-negative integers is modelled. That covers the three
  packed output tables and `tk_nextmove`. The initializers of `nb_pc`, `nb_ptc` (the `str` of
  a float) and `nb_classes` are not modelled.
- The `__main__` blocks of both scripts, their `print` diagnostics, the protobuf and header
  output paths, and `find_dict` are left out. They are argparse, file output and reflection.
- `pack_tk_output` receives `identifier.tk_nextmove` and `identifier.tk_output` as parameters
  instead of the langid.py identifier object. The state map is a `map<nat, seq<nat>>`.
- `chunk` returns the list of chunks instead of yielding them lazily. It reads its input as a
  sequence rather than an arbitrary iterable.
- Ldpy2Ldc.Chunk: `chunksize` is a `nat`, so a negative size is not modelled. On one, `islice`
  raises `ValueError` (ldpy2ldc.py:99). The script's only call passes 256.
- _langid.c, langid_pyc/default.py, test/conftest.py and setup.py are left out. They are
  Python binding glue, a wrapper, test fixtures and packaging.
- Concurrency is not modelled. Two calls sharing one identifier's sets are outside the model.
