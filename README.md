# Jackalope colorization and input-to-state mutation, in Dafny

This project models the byte-level core of two Jackalope fuzzer features.
The model is written in Dafny and its properties are proved there.

- **Sample ranges** (`range.h`): a half-open window `[from, to)` of sample
  offsets. Its `length()` is the `size_t` difference `to - from`, which wraps
  modulo 2^64 because the constructor does not check `from <= to`. Ranges are
  ordered by length first and then by start offset.
- **Colorization** (`colorizer.h`, `colorizer.cpp`): a bisection over a
  max-priority queue of ranges.
  - `CreateContext` queues the whole sample.
  - `ColorizeStep` randomizes the greatest queued range, or answers 0 for
    "done".
  - `ReportSuccess` drops that range.
  - `ReportFail` replaces it with its two halves.
- **Input-to-state mutation** (`inputtostate.h`, `inputtostate.cpp`):
  - the 64-bit key that aligns a comparison trace of the working sample with
    one of its colorized copy;
  - the filter that keeps the colorized comparisons whose operands changed
    and whose first operand is found in the sample;
  - the zero-extension encoders of widths 8, 4, 2 and 1;
  - the naive pattern search;
  - the patch loop. For each kept comparison, the first width whose encoded
    first operand occurs in the colorized sample writes the encoded second
    operand into the working sample at every such offset.

Modules:

| module | file | what it holds |
|---|---|---|
| `Types` | `types.dfy` | bytes, 64-bit values, `Option` |
| `Samples` | `samples.dfy` | the sample as a byte array, with `Replace` and `Randomize` |
| `Ranges` | `ranges.dfy` | `SampleRange` and its two orders |
| `RangeQueue` | `range_queue.dfy` | `std::priority_queue<SampleRange>` |
| `Colorizers` | `colorizer.dfy` | the colorizer classes |
| `Records` | `records.dfy` | a comparison record: offsets and two operands |
| `Encoders` | `encoders.dfy` | `ZextEncoder` and `I2SMutation` |
| `InputToState` | `inputtostate.dfy` | key, search, candidate filter, patch loop |

How the state is modelled:

- The priority queue is a sequence kept ascending under `SampleRange::operator<`.
  Its top is the last element, and only its multiset and its top are
  observable.
- A context has two ghost fields:
  - `resolved`, the ranges that `ReportSuccess` removed;
  - `size`, the size of the sample the context was made for.
  `Valid()` states that the queue and `resolved` together tile `[0, size)`:
  every offset is covered exactly once.
- Termination is measured by the potential. It is the sum over queued ranges
  of `2 * length - 1`, and 0 for an empty range.
- Each loop of the source is a method proved against a function, or against
  a quantified statement:

  | method | source loop | proved against |
  |---|---|---|
  | `Encode` | truncate and pad loops | `Zext` |
  | `Match` | byte comparison loop | byte-by-byte equality on the first `size` bytes |
  | `GetMatchingPositions` | offset loop | `MatchPositions` |
  | `AnyEncodingOccurs` | encoder loop of `GetCandidateRecords` | `FirstMatchingWidth` |
  | `GetCandidateRecords` | loops over both traces | `CandidateRecords` |
  | `ReplaceAtPositions` | loop over matched offsets | `WriteAll` |
  | `PatchRecord` | encoder loop of `Mutate` | `PatchOne` |
  | `Mutate` | loop over candidates | `PatchAll` |

  The lemmas state the properties of those functions.

## Model

| member | source | states |
|---|---|---|
| Ranges.Length | range.h:38-40 | `to - from` when `from <= to`, and the size_t wrap-around `2^64 - (from - to)` otherwise |
| Ranges.LengthDeterminesEnd | range.h:33-40 | a range is determined by its start and its length, even when the length wrapped |
| Ranges.LessIsLexicographic | range.h:42-48 | `Less` (`SampleRange::operator<`) holds exactly when the range is shorter, or of equal length with a smaller start offset; equivalently, when its single key `length * 2^64 + from` is smaller |
| Ranges.LessIrreflexive | range.h:42-48 | no range is smaller than itself |
| Ranges.LessAsymmetric | range.h:42-48 | two ranges are never each smaller than the other |
| Ranges.LessTransitive | range.h:42-48 | the order is transitive |
| Ranges.NotLessTransitive | range.h:42-48 | "not smaller" is transitive, so the order is total |
| Ranges.IncomparableIffEqual | range.h:42-48 | neither of two ranges is smaller than the other exactly when they are the same range |
| Ranges.LessRefinesFromLess | range.h:24-26 | between ranges of equal length, `SampleRange::operator<` agrees with the base `Range::operator<` |
| Ranges.FromLessIgnoresEnd | range.h:24-26 | `FromLess` (the base `Range::operator<`) compares start offsets only: ranges with one start are incomparable whatever their ends |
| RangeQueue.Top | colorizer.h:34 | the top is queued, and every other queued range is smaller: it is the longest, and the one with the largest start among the longest |
| RangeQueue.Pop | colorizer.h:34 | removes exactly one occurrence of the top and keeps the queue ordered |
| RangeQueue.Push | colorizer.h:34 | adds exactly one occurrence of the range and keeps the queue ordered |
| Colorizers.Halves | colorizer.cpp:54-57 | the halves `[from, mid)` and `[mid, to)` meet at `mid`; the first has half the length (rounded down) and the lengths add up; from length 2 on, both are non-empty and shorter |
| Colorizers.HalvesWeight | colorizer.cpp:54-57 | splitting never raises the weight, and lowers it from length 2 on |
| Colorizers.SimpleColorizerContext.constructor | colorizer.h:33-34 | a fresh context has an empty queue |
| Colorizers.Colorizer.CreateContext | colorizer.h:22 | the base colorizer makes no context |
| Colorizers.Colorizer.ColorizeStep | colorizer.h:23-24 | the base colorizer is always done |
| Colorizers.Colorizer.ReportSuccess | colorizer.h:25 | the base colorizer's report leaves the sample unchanged |
| Colorizers.Colorizer.ReportFail | colorizer.h:26 | the base colorizer's report leaves the sample unchanged |
| Colorizers.SimpleColorizer.CreateContext | colorizer.cpp:11-17 | the new context queues exactly `[0, size)` and is valid |
| Colorizers.SimpleColorizer.ColorizeStep | colorizer.cpp:19-38 | returns 0 or 1; 0 exactly when the queue is empty or its top has length at most 1, and then the sample is unchanged; on 1, only bytes inside the top change; the queue is never changed |
| Colorizers.SimpleColorizer.ReportSuccess | colorizer.cpp:40-49 | removes one occurrence of the top, moves it to the resolved ranges, keeps the tiling, and lowers the potential by the top's weight |
| Colorizers.SimpleColorizer.ReportFail | colorizer.cpp:51-61 | replaces one occurrence of the top by its two halves, keeps the tiling, never raises the potential, and lowers it when the top has length 2 or more |
| Colorizers.SuccessKeepsTiling | colorizer.cpp:48 | popping the top into the resolved ranges keeps every offset of `[0, size)` covered exactly once |
| Colorizers.SplitTop | colorizer.cpp:55-57 | the queue after pop, push, push is ordered and holds the old multiset less the top plus both halves |
| Colorizers.FailKeepsTiling | colorizer.cpp:54-57 | replacing the top by its halves keeps every offset of `[0, size)` covered exactly once |
| Colorizers.FailLowersPotential | colorizer.cpp:54-57 | replacing the top by its halves never raises the potential, and lowers it from length 2 on |
| Colorizers.Colorize | colorizer.cpp:19-61 | a caller that steps and reports until done ends with a valid context whose top has length at most 1, after at most `2 * size` rounds |
| Samples.Overwrite | inputtostate.cpp:70 | the overwritten sample keeps its length; bytes inside the window hold the data and all others keep their value |
| Samples.Replace | inputtostate.cpp:70 | an equal-length replace overwrites exactly the window `[from, to)` with the data |
| Samples.Randomize | colorizer.cpp:30 | only the bytes of `[from, to)` may change |
| Encoders.Zext | inputtostate.cpp:188-198 | the encoding has exactly `n` bytes: byte `i` of the operand below its length, 0 past it |
| Encoders.ZextIsPrefixThenZeros | inputtostate.cpp:188-198 | the encoding is the first `min(len, n)` operand bytes followed by zero bytes |
| Encoders.ZextIdempotent | inputtostate.cpp:188-198 | encoding an encoding changes nothing |
| Encoders.ZextNarrows | inputtostate.cpp:188-198 | encoding wide and then narrow is encoding narrow |
| Encoders.ZextRoundTrip | inputtostate.cpp:188-198 | when the dropped bytes are zero, padding the encoding back to the operand's length gives the operand |
| Encoders.ZextEncoder.constructor | inputtostate.h:27-29 | the encoder stores its width |
| Encoders.ZextEncoder.Encode | inputtostate.cpp:188-198 | the truncate and pad loops return the zero-extension of the operand to the width |
| Encoders.ZextEncoder.EncodeAdjusted | inputtostate.h:19-22 | the two-argument encode is the adjustment applied to the width encoding |
| Encoders.I2SMutationStoresFields | inputtostate.h:39-43 | the `I2SMutation` constructor stores its offset and both byte strings as given, and two edits are equal exactly when all three fields are |
| Records.SwappedTwice | inputtostate.cpp:150-152 | `Swapped` exchanges the operands and keeps the offsets: swapping twice gives the record back, and a swap changes the record exactly when its operands differ |
| InputToState.I2SCode | inputtostate.cpp:22-25 | the key is `(bb mod 2^32) * 2^32 + (cmp mod 2^24) * 256` |
| InputToState.I2SCodeCollision | inputtostate.cpp:22-25 | two records share a key exactly when their block offsets agree in the low 32 bits and their comparison offsets in the low 24 bits |
| InputToState.MatchesAtPointwise | inputtostate.cpp:166-174 | an occurrence at an offset is byte-by-byte equality with the pattern there |
| InputToState.PositionsBelow | inputtostate.cpp:177-183 | the offsets below `n` where the pattern occurs, ascending, and all of them |
| InputToState.MatchPositions | inputtostate.cpp:176-186 | every listed offset leaves room for the pattern; nothing is listed when the pattern is longer than the sample |
| InputToState.MatchPositionsExact | inputtostate.cpp:176-186 | an offset is listed exactly when the pattern occurs there, and the list is strictly ascending |
| InputToState.FirstMatchingWidthNone | inputtostate.cpp:154-160 | `FirstMatchingWidth` finds no width exactly when no width's encoding occurs |
| InputToState.FirstMatchingWidthIsFirst | inputtostate.cpp:154-160 | a width that `FirstMatchingWidth` finds is the first in the list whose encoding occurs; both encoder loops stop there |
| InputToState.CodeMap | inputtostate.cpp:132-136 | every record in the map is stored under its own key |
| InputToState.CodeMapLastWins | inputtostate.cpp:132-136 | a key is in the map exactly when some original record has it, and it maps to the last such record |
| InputToState.PrepareKeepsKeyAndOperands | inputtostate.cpp:150-152 | `Prepare`'s swap keeps the record's location, so its key, and its pair of operands; for a record whose operands changed, the first operand afterwards is one whose value changed under colorization |
| InputToState.KeptIndicesAreKept | inputtostate.cpp:139-163 | the kept indices ascend, each names a record that `Keeps` accepts (partnered, changed, first operand found), and every such record is named |
| InputToState.CandidatesAreKeptRecordsInOrder | inputtostate.cpp:139-163 | the j-th record of `Candidates` (and so of `CandidateRecords`) is the record at the j-th kept index, swapped when its second operand differs from its partner's |
| InputToState.CandidatesAreMatched | inputtostate.cpp:129-164 | every candidate has an original record with its key, and some width's encoding of its first operand occurs in the sample |
| InputToState.WriteAll | inputtostate.cpp:68-71 | writing at each offset in turn keeps the sample's length |
| InputToState.WriteAllLastWins | inputtostate.cpp:68-71 | after writing at each offset in turn, a byte holds the last write covering it, or its old value |
| InputToState.PatchOne | inputtostate.cpp:55-77 | patching with one candidate keeps the working sample's length |
| InputToState.PatchAll | inputtostate.cpp:54-78 | patching with every candidate in turn keeps the working sample's length |
| InputToState.PatchAllOnlyTouchesWindows | inputtostate.cpp:54-78 | a byte outside every candidate's matched windows keeps its value |
| InputToState.InputToStateMutator.constructor | inputtostate.cpp:12-20 | the encoders have widths 8, 4, 2 and 1, in that order, and `Widths()` lists exactly those |
| InputToState.InputToStateMutator.Match | inputtostate.cpp:166-174 | true exactly when the first `size` bytes from `start` equal the pattern's |
| InputToState.InputToStateMutator.GetMatchingPositions | inputtostate.cpp:176-186 | returns the pattern's occurrences in the sample, as `MatchPositions` lists them |
| InputToState.InputToStateMutator.AnyEncodingOccurs | inputtostate.cpp:154-160 | true exactly when some encoder's encoding of the operand occurs in the sample |
| InputToState.InputToStateMutator.GetCandidateRecords | inputtostate.cpp:129-164 | returns the candidates of the colorized trace against the key map of the original trace |
| InputToState.InputToStateMutator.ReplaceAtPositions | inputtostate.cpp:68-71 | the sample afterwards is the old one written at each offset in turn |
| InputToState.InputToStateMutator.PatchRecord | inputtostate.cpp:55-77 | only the first encoder whose pattern occurs in the colorized sample writes, at all its occurrences |
| InputToState.InputToStateMutator.Mutate | inputtostate.cpp:27-94 | returns true, and the working sample becomes the result of patching with every candidate in order |

## Left out

- Running the target is not part of this model. That covers
  `RunSampleWithI2SInstrumentation` (inputtostate.cpp:96-127), sample
  delivery, the reset retry and the fatal exits. The two comparison traces
  are inputs to `Mutate`.
- Colorize: the loop that drives the colorizer lives in fuzzer code that is
  not part of this model. `Colorize` stands for it, with `sameTrace` in place
  of re-running the target and comparing traces.
- The PRNG and the body of `Sample::Randomize` are not part of this model.
  `Randomize` writes arbitrary bytes inside its range only.
- `AdjustBytes` is declared at inputtostate.h:17 without a body. `EncodeAdjusted` takes it as a
  function parameter, and `Mutate` never calls it.
- Memory management is not modelled: the `new`/`delete` of records and
  encoders, and the virtual dispatch.
- Debug output is not modelled: `I2SMutation::PrettyPrint` and the
  commented-out prints.
- The unused `all_samples` and `prng` parameters of `Mutate`, and the
  unused `COLORIZE_STEP_INITIAL`, are left out.
- `std::unordered_map` hashing is a finite map in which the last insertion
  wins.
- The operand swap happens in place on records shared with the caller, so a
  record swapped and then dropped by the encoder filter stays swapped. Traces
  are immutable sequences here, so that aliasing is not modelled. The
  returned candidates hold the swapped operands.
- `std::priority_queue`'s heap layout is not modelled, only its multiset and
  its top.
- Mutate: requires `colorizedSample.Length <= inoutSample.Length`, so every
  window matched in the colorized sample fits in the working sample. How
  `Sample::Replace` behaves past the end is not part of this model.
- Mutate: requires the two samples to be distinct objects, because the
  colorized sample is a separate copy of the working one. If they were the
  same object, later searches would see the bytes earlier patches wrote.
- Colorizers.SimpleColorizer.ReportSuccess and
  Colorizers.SimpleColorizer.ReportFail: require a non-empty queue, because
  `top()` and `pop()` on an empty `std::priority_queue` are undefined
  behaviour.
- Colorizers.SimpleColorizer.CreateContext: requires the sample to be
  shorter than 2^64 bytes, which holds for any sample held in memory.
- The `int n_bytes` of `ZextEncoder` is a `nat`. Negative widths are never
  built.
- Record offsets are 64-bit values, and the key keeps only their low bits,
  as the shifts and masks do.
- `op_val[0]` and `op_val[1]` are the fields `op0` and `op1`.

## Notes

- The key's low half is `(cmp_offset << 8) & 0xFFFFFFFF`
  (inputtostate.cpp:23). So only the low 24 bits of the comparison offset
  take part in the key, as `I2SCodeCollision` shows.
- The `SampleRange` constructor stores `from` and `to` unchecked
  (range.h:33-36), so `Length` models the `size_t` wrap-around. Every range
  the colorizer queues does satisfy `from <= to`, because the ranges tile the
  sample.
