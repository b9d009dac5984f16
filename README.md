# MobilityDB temporal sequences, modelled and verified in Dafny

This project models the temporal sequence algebra of MobilityDB
(`src/tsequence.c`). A temporal sequence (`TSequence`) is a function of time
given by a list of instants `value@timestamp` in strictly increasing time
order. Its period has two bound flags (`lower_inc`, `upper_inc`). Between
instants the function is either held constant (step interpolation) or
blended linearly.

The model keeps the data and drops the packed single-allocation layout:

- A sequence is `Sequence(instants, lowerInc, upperInc, linear)`, with `Valid()`
  as the invariant `tsequence_make` establishes.
- Timestamps and base values are unbounded integers. Base values have equality
  and order only.
- Every primitive the sequence code calls but decides elsewhere is an
  uninterpreted parameter of type `Ops`:
  - collinearity, decided in floating point with a tolerance;
  - the linear blend between two instants;
  - the crossing of a segment with a value, and of two segments;
  - `hash_uint32` and `tinstant_hash`.
- Periods (`Period`, with intersection, difference, overlap, containment and
  `period_cmp_internal`) are defined in `periods.dfy`. `period.c` and
  `periodset.c` are not part of this model.

The modules follow the structure of the C file.

| file | module | what it covers |
|---|---|---|
| `base.dfy` | `TemporalBase` | instants, errors, oracles, order and subsequence predicates |
| `periods.dfy` | `Periods` | periods, period sets, intersection, difference, comparison |
| `tsequence.dfy` | `TSequence` | validity, `tinstantarr_normalize`, `tsequence_make` |
| `search.dfy` | `TSequenceSearch` | `tsequence_find_timestamp`, value at a timestamp, `tsequence_at_timestamp` |
| `join.dfy` | `TSequenceJoin` | `tsequence_join`, `tsequencearr_normalize`, `tsequence_append_tinstant` |
| `merge.dfy` | `TSequenceSort`, `TSequenceMerge` | the period sort order, and `tsequence_merge(_array)` with both passes |
| `restrict_time.dfy` | `TSequenceRestrictTime` | minus timestamp, at/minus period, at/minus period set |
| `restrict_tset.dfy` | `TSequenceMinusTimestampSet` | the `tsequence_minus_timestampset1` merge-scan |
| `restrict_value.dfy` | `TSequenceRestrictValue` | `tsequence_at_value1` and `tsequence_at_value` |
| `minus_value.dfy` | `TSequenceMinusValue` | the step branch of `tsequence_minus_value` |
| `sync.dfy` | `TSequenceSync` | `synchronize_tsequence_tsequence` and its crossings |
| `everalways.dfy` | `TSequenceEverAlways` | ever/always comparisons, and the per-segment linear rules |
| `relops.dfy` | `TSequenceRelOps` | `tsequence_eq`, `tsequence_cmp`, `tsequence_hash` |
| `codec.dfy` | `TSequenceCodec` | `tsequence_write` / `tsequence_read` on a token stream, and the brackets of `tsequence_to_string` |
| `accessors.dfy` | `TSequenceAccessors` | `tstepseq_to_linear1`, `tsequence_values1`, `tsequence_min_instant`, `tsequence_timestamps1` |

The C code mostly works by scans that fill output arrays with a running index.
Those become methods with loops whose `ensures` ties the result to a
specification function or states the property outright. The case analyses
become functions. Sequences are never changed after they are built, so they
are values. The only state that changes in place is the binary message buffer
(`StringInfo`), modelled as the class `TSequenceCodec.Message`.

## Model

| member | source | states |
|---|---|---|
| TemporalBase.SubseqOfIncreasing | src/tsequence.c:661-708 | An order-preserving selection of a time-ordered array is time-ordered. |
| Periods.Intersection | src/tsequence.c:1605-1606 | The common part of two periods: exactly the points in both, bounded by the larger lower and smaller upper bound. It exists whenever a common point does, and lies within both. |
| Periods.Minus | src/tsequence.c:3961 | At most two valid periods covering exactly the points of p outside q. Both lie within p. Two pieces lie on either side of q. Without overlap the result is p itself. |
| Periods.PeriodCmp | src/tsequence.c:4273 | A three-way order on periods that is zero exactly on equal periods. |
| Periods.PeriodCmpAntisymmetric | src/tsequence.c:4273 | Swapping the periods negates the comparison. |
| TSequence.NormalizeInstants | src/tsequence.c:661-708 | The two-instant-window scan computes the normalization function of its input. |
| TSequence.NormalizeShape | src/tsequence.c:661-708 | Normalization keeps an order-preserving subsequence, with the same first and last instants and no more instants than the input. |
| TSequence.NormalizeIdempotent | src/tsequence.c:661-708 | Normalization leaves an array with no redundant inner instant unchanged. |
| TSequence.NormalizeStepIsNormal | src/tsequence.c:679-697 | In step mode the result has no redundant inner instant, so normalizing twice is normalizing once. |
| TSequence.NormalizeValid | src/tsequence.c:661-708 | Normalizing a valid sequence's instants keeps it valid over the same period. |
| TSequence.NormalizeStepValue | src/tsequence.c:661-708 | In step mode normalization keeps the value read off the instants at every timestamp. |
| TSequence.NormalizeStepExample | src/tsequence.c:679-697 | In step mode 1@t1, 1@t2, 2@t3 becomes 1@t1, 2@t3. |
| TSequence.NormalizeLinearExample | src/tsequence.c:679-697 | In linear mode three collinear instants keep only the two ends. |
| TSequence.Make | src/tsequence.c:884-990 | Succeeds exactly on valid input. Otherwise it reports non-increasing time, or an instantaneous sequence with an exclusive bound, or a step sequence with an exclusive upper bound whose last two values differ. On success the period and interpolation are kept, and the instants are the input, normalized when asked. |
| TSequenceSearch.SegmentUnique | src/tsequence.c:1396-1405 | At most one segment holds a timestamp under the bound-aware endpoint rules. |
| TSequenceSearch.SegmentOfFound | src/tsequence.c:1396-1434 | The lookup finds a segment exactly for timestamps of the period of a sequence with two or more instants. The segment found brackets the timestamp. |
| TSequenceSearch.FindTimestamp | src/tsequence.c:1412-1434 | The binary search returns -1 exactly outside the period, otherwise the unique segment n with inst[n].t <= t <= inst[n+1].t. |
| TSequenceSearch.SegmentValue | src/tsequence.c:3436-3450 | At a segment's start, or anywhere before its end in step mode, the value is the first value. At its end it is the second value. A constant segment gives its value. In step mode one of the two ends is taken. |
| TSequenceSearch.ValueAtTimestamp | src/tsequence.c:3515-3534 | A value exactly for timestamps inside the period. |
| TSequenceSearch.AtTimestamp | src/tsequence.c:3580-3596 | An instant exactly inside the period, at that timestamp, with the sequence's value there. |
| TSequenceSearch.ValueAtInstants | src/tsequence.c:3436-3450 | At an instant's timestamp, or in step mode up to the next one, the value is that instant's value. |
| TSequenceSearch.StepValueAt | src/tsequence.c:3436-3450 | In step mode the value at t is that of the last instant at or before t. |
| TSequenceSearch.NormalizeStepValues | src/tsequence.c:661-708 | In step mode the normalized sequence is valid and takes the original's value at every timestamp. |
| TSequenceJoin.Join | src/tsequence.c:1024-1117 | The joined count is the sum less the dropped instants. The first instant and the lower bound come from s1, and the last instant and the upper bound from s2. |
| TSequenceJoin.JoinRule | src/tsequence.c:752-822 | Each join decision needs adjacent sequences. Dropping the last instant needs a step sequence with an exclusive upper bound. Dropping the first instant needs equal meeting values. Adjacent sequences with equal meeting values are always joined. |
| TSequenceJoin.JoinValid | src/tsequence.c:727-822 | A join the normalizer decides on is valid, over the union of the two periods. |
| TSequenceJoin.JoinAdjacentShape | src/tsequence.c:1024-1117 | A join is a prefix of s1 missing at most its last instant, followed by a suffix of s2 missing at most its first. In step mode any dropped instant carries the same value as the instant kept before it. |
| TSequenceJoin.JoinStepValues | src/tsequence.c:727-822 | In step mode a join takes, at every timestamp, the value of whichever input holds it. |
| TSequenceJoin.ChainAfterJoin | src/tsequence.c:710-822 | Joining the front of a linked chain with its successor leaves a linked chain. In a linked chain each sequence is before the next, or shares with it its last instant, included in both. |
| TSequenceJoin.JoinLast | src/tsequence.c:1024-1117 | A join the normalizer decides on ends with the last instant of s2. |
| TSequenceJoin.UnjoinedBefore | src/tsequence.c:752-822 | Two linked sequences that are not joined lie one entirely before the other, because a shared instant is always joined. |
| TSequenceJoin.JoinTakes | src/tsequence.c:752-822 | In step mode the join of two linked sequences takes every value either of them takes, including at a shared instant. |
| TSequenceJoin.NormalizeSeqsKeepValues | src/tsequence.c:710-822 | In step mode every value an input takes at a timestamp is taken there by one of the normalized sequences. |
| TSequenceJoin.NormalizeSeqs | src/tsequence.c:710-822 | The loop that re-binds seq1 to its join with the next input computes the array normalizer's specification function. Its inputs may be apart or share a last/first instant included in both, as when merging. Its output is a chain of sequences each entirely before the next. |
| TSequenceJoin.SharedInstantExample | src/tsequence.c:710-714 | Step [1@1, 2@2] and [2@2, 3@3], sharing the instant 2@2 included in both, are accepted and normalize into [1@1, 2@2, 3@3]. |
| TSequenceJoin.NormalizeSeqsStep | src/tsequence.c:727-822 | Each step either emits seq1 or replaces it by its join, and keeps the coverage of time. |
| TSequenceJoin.StepCollinearJoinExample | src/tsequence.c:775-777 | As written, the collinearity rule joins two step sequences by dropping an instant that carries a value. The value at that timestamp changes. |
| TSequenceJoin.Append | src/tsequence.c:1160-1276 | Fails exactly when the new instant is not later than the last one. Otherwise the result is valid and ends with the new instant. Its period runs from the old lower bound to the new timestamp, inclusive. Its count grows by zero or one, and the instants before the last are the input's. |
| TSequenceJoin.AppendNormalizes | src/tsequence.c:1160-1236 | Appending to a normal sequence gives what normalizing the extended array gives. |
| TSequenceJoin.AppendStepNormal | src/tsequence.c:1160-1236 | In step mode appending keeps a sequence in normal form. |
| TSequenceSort.SortByPeriod | src/tsequence.c:1298-1310 | The inputs ordered by `period_cmp_internal`, as a permutation. |
| TSequenceSort.InsertSorted | src/tsequence.c:1298-1310 | Insertion keeps the array sorted by period. |
| TSequenceSort.InsertMultiset | src/tsequence.c:1298-1310 | Insertion adds exactly the inserted element. |
| TSequenceMerge.ErrorUpToNone | src/tsequence.c:1311-1345 | The first pass reports no error exactly when every consecutive pair passes the checks. |
| TSequenceMerge.ErrorUpToFirst | src/tsequence.c:1311-1345 | A reported error is the error of the first failing pair. |
| TSequenceMerge.RunsValid | src/tsequence.c:1311-1377 | Without an error, the output sequences the passes build are valid. |
| TSequenceMerge.RunsCover | src/tsequence.c:1311-1377 | The output sequences cover exactly the timestamps of the inputs. |
| TSequenceMerge.RunsSeparated | src/tsequence.c:1311-1377 | Consecutive output sequences are ordered in time and do not touch. |
| TSequenceMerge.CountInstants | src/tsequence.c:1311-1347 | The first pass reports the error of the first failing pair. Without one it fills countinst with the instant count of every output sequence. |
| TSequenceMerge.CountRound | src/tsequence.c:1314-1343 | One pair of the first pass: its result is the pair's error. An error is the error of the whole pass. Otherwise the counts take in the next input. |
| TSequenceMerge.FillGroup | src/tsequence.c:1350-1372 | One round of the corrected second pass copies exactly the instants of one output sequence, with its bounds, and stops at the next group's first input. |
| TSequenceMerge.FillRuns | src/tsequence.c:1350-1377 | The corrected second pass yields the normalized output sequences of the first pass. |
| TSequenceMerge.MergeArray | src/tsequence.c:1298-1377 | Sorting, checking, counting and filling compute the merge's specification function. |
| TSequenceMerge.MergeTwo | src/tsequence.c:1281-1286 | Merging two sequences is merging the two-element array. |
| TSequenceMerge.MergeFailure | src/tsequence.c:1324-1332 | The merge fails exactly when, after sorting, a consecutive pair mixes interpolations, overlaps in time, or shares a doubly included instant with different values. The error reported is the first such pair's. |
| TSequenceMerge.MergeSuccess | src/tsequence.c:1298-1377 | A successful merge returns one to n sequences, ordered in time, with the inputs' interpolation. They cover exactly the timestamps the inputs cover. |
| TSequenceMerge.GlueStepValues | src/tsequence.c:1350-1372 | In step mode two touching inputs glue into a sequence that takes each part's value at every timestamp of that part. |
| TSequenceMerge.RunsTakeValues | src/tsequence.c:1311-1377 | In step mode, at every timestamp an input covers, one of the output sequences takes that input's value. |
| TSequenceMerge.NormalizeRunStepValue | src/tsequence.c:1369-1370 | In step mode normalizing an output sequence keeps its value at every timestamp. |
| TSequenceMerge.MergeStepValues | src/tsequence.c:1298-1377 | In step mode, at every timestamp an input covers, one of the merged sequences takes that input's value. |
| TSequenceMerge.MergeStepExample | src/tsequence.c:1298-1377 | The step sequences [1@1, 1@2) and [2@2, 3@3], in either order, merge into [1@1, 2@2, 3@3]. |
| TSequenceMerge.FillAsWrittenOverruns | src/tsequence.c:1350-1369 | As written, the fill of a group whose input excludes its upper bound reads on into the next input. It builds [1@1, 5@5], which covers time 3 where no input is defined. |
| TSequenceMerge.FillAsWrittenDropsFirst | src/tsequence.c:1357-1358 | As written, an output sequence whose first input excludes its lower bound loses that input's first instant. |
| TSequenceSync.Crossing | src/tsequence.c:438-472 | A crossing of two synchronized segments lies strictly inside them, at one timestamp for both. |
| TSequenceSync.FixStepEnd | src/tsequence.c:1693-1715 | With an exclusive upper bound in step mode the last value repeats the one before. Otherwise the grid is unchanged. |
| TSequenceSync.SyncWalk | src/tsequence.c:1632-1692 | The two-index walk yields two arrays aligned on one increasing grid, from the lower to the upper bound of the intersection. Every input timestamp inside the intersection is on the grid. At input timestamps both grid instants lie on their inputs. Without crossings the grid holds input timestamps only. |
| TSequenceSync.SyncRound | src/tsequence.c:1652-1692 | One round keeps the grid aligned and increasing, and makes progress. It keeps every input timestamp passed so far on the grid, with both grid instants on their inputs there. A round that ends the walk sits at the upper bound. |
| TSequenceSync.AdvanceFacts | src/tsequence.c:1652-1691 | Moving past the smaller of the two current timestamps leaves no input timestamp behind that is missing from the grid. |
| TSequenceSync.ExtendFacts | src/tsequence.c:1672-1687 | Adding a possible crossing and then the pair at an input timestamp keeps the grid facts, and puts that timestamp on the grid. |
| TSequenceSync.GridOnInputs | src/tsequence.c:1632-1692 | Without crossings every grid instant lies on its input. |
| TSequenceSync.SyncSequence | src/tsequence.c:1693-1719 | One grid array becomes a valid sequence over the intersection with its input's interpolation. |
| TSequenceSync.Synchronize | src/tsequence.c:1600-1726 | No result exactly when the periods do not intersect. Otherwise two valid sequences of equal length with the same timestamp at every index, both over the intersection. Every input timestamp inside the intersection is a timestamp of the result. At input timestamps both results lie on their inputs (the last instant only when the upper bound is included or the interpolation is linear). Without crossings every instant lies on its input. |
| TSequenceSync.SyncedGridTimes | src/tsequence.c:1632-1692 | Without crossings the result's timestamps are exactly the inputs' timestamps inside the intersection. |
| TSequenceRestrictTime.MinusTimestampPieces | src/tsequence.c:3608-3679 | At most two valid pieces in time order, each lying on s. Nothing is removed when t is outside the period. |
| TSequenceRestrictTime.MinusTimestampCovers | src/tsequence.c:3608-3679 | The pieces cover exactly the period of s without t. |
| TSequenceRestrictTime.AtPeriod | src/tsequence.c:3870-3934 | A result exactly when the periods overlap. It is valid, over the intersection, lies on s, and keeps every instant of s strictly inside the intersection. |
| TSequenceRestrictTime.MinusPeriod | src/tsequence.c:3945-3971 | At most two ordered pieces lying on s. They cover exactly the points of s outside p, and lie on either side of p. Without overlap the result is s itself. |
| TSequenceRestrictTime.AtPeriodSet | src/tsequence.c:3999-4032 | Ordered pieces lying on s that cover exactly the points of s inside the period set. |
| TSequenceRestrictTime.MinusPeriodSet | src/tsequence.c:4045-4083 | Ordered pieces covering exactly the points of s outside the period set. |
| TSequenceRestrictTime.FindPeriod | src/tsequence.c:4020 | The position of the first period not ending before t. Every period before it ends before t. |
| TSequenceMinusTimestampSet.TimestampBox | src/tsequence.c:3750-3752 | The bounding period of a timestamp set holds all its timestamps. |
| TSequenceMinusTimestampSet.MinusTimestampSet | src/tsequence.c:3746-3854 | Ordered pieces covering exactly the points of s not in the timestamp set. In step mode every piece lies on s. |
| TSequenceMinusTimestampSet.DroppedLastPiece | src/tsequence.c:3843-3850 | As written, [5@5, 8@8] minus {6, 10} loses the part after 6, although 7 is a point of s outside the set. |
| TSequenceMinusTimestampSet.LowerBoundCleared | src/tsequence.c:3824-3841 | As written, [5@5, 8@8] minus {1, 6} opens the lower bound, although 5 is not removed. |
| TSequenceRestrictValue.IntersectionValue | src/tsequence.c:61-161 | No crossing when the value is at an end of the segment or outside the range of its two values. A crossing that is found lies strictly inside the segment in time and strictly between its two values. |
| TSequenceRestrictValue.AtValueSegment | src/tsequence.c:2601-2673 | The part of one segment taking the value: valid, within the segment. In step mode, or on a constant segment, it holds exactly the points of the segment where the value is taken. |
| TSequenceRestrictValue.AtValueSegmentSampled | src/tsequence.c:2601-2673 | Every instant of a segment's result lies on the sequence. |
| TSequenceRestrictValue.AtValueSingle | src/tsequence.c:2690-2698 | An instantaneous sequence at the value restricts to itself. |
| TSequenceRestrictValue.AtValue | src/tsequence.c:2687-2721 | Ordered pieces lying on s and inside its period. In step mode every instant carries the value, and the pieces cover exactly the points where s takes it. |
| TSequenceMinusValue.MinusSingle | src/tsequence.c:2813-2821 | An instantaneous sequence loses everything when it takes the value, and nothing otherwise. |
| TSequenceMinusValue.MinusValueStep | src/tsequence.c:2832-2862 | In step mode: ordered pieces lying on s, covering exactly the points where s does not take the value. |
| TSequenceEverAlways.AnyInstant | src/tsequence.c:2347-2379 | The instant loop is true exactly when some instant's value satisfies the test. |
| TSequenceEverAlways.AnySegment | src/tsequence.c:2347-2379 | The segment loop is true exactly when some segment, with its bounds, satisfies the rule. |
| TSequenceEverAlways.EverEqSegment | src/tsequence.c:2321-2342 | True only when the segment takes the value at one of its points, bounds included or excluded as flagged, and always when it takes it at an end. A value strictly between the ends counts when the shared crossing test finds it. |
| TSequenceEverAlways.EverEqAtValue | src/tsequence.c:2321-2342 | A linear segment ever equals the value exactly when its restriction to that value is not empty, because both use the same crossing test. |
| TSequenceEverAlways.EverLeSegmentMeaning | src/tsequence.c:2421-2434 | The rule holds exactly when the segment takes some value at most the given one. |
| TSequenceEverAlways.AlwaysLtConstantCounterexample | src/tsequence.c:2449-2451 | The rule as written rejects the constant segment 0 against 1, although every value it takes is below 1. |
| TSequenceEverAlways.AlwaysLtSegmentMeaning | src/tsequence.c:2446-2459 | The corrected rule holds exactly when every value the segment takes is below the given one. It agrees with the rule as written on every non-constant segment. |
| TSequenceEverAlways.SegmentBelowAtEnds | src/tsequence.c:2467-2586 | A linear segment takes a value below the given one exactly when an end does, and stays at or below it exactly when both ends do. |
| TSequenceEverAlways.StepScanHeld | src/tsequence.c:2347-2586 | In step mode, scanning every instant is scanning the instants that hold their value somewhere in the period. |
| TSequenceEverAlways.StepValueHeld | src/tsequence.c:2347-2586 | In step mode the value at any timestamp of the period is the value of an instant that holds it. |
| TSequenceEverAlways.StepAlways | src/tsequence.c:2524-2586 | If every instant satisfies the test, so does every value of the step sequence. |
| TSequenceEverAlways.EverEq | src/tsequence.c:2347-2379 | In step mode, or for one instant, some instant has the value. In linear mode it is true exactly when restricting some segment to the value gives a piece. It is true only when some segment takes the value, and always when one takes it at an end. |
| TSequenceEverAlways.EverEqStep | src/tsequence.c:2347-2379 | In step mode the instant scan answers for the whole function: without such an instant the value is never taken. |
| TSequenceEverAlways.AlwaysEq | src/tsequence.c:2384-2407 | When the count test passes, every instant has the value. |
| TSequenceEverAlways.AlwaysEqNormal | src/tsequence.c:2384-2407 | On a normalized sequence the count test loses nothing. |
| TSequenceEverAlways.EverLt | src/tsequence.c:2466-2480 | True exactly when some instant is below the value. |
| TSequenceEverAlways.EverLe | src/tsequence.c:2486-2519 | In step mode some instant is at most the value. In linear mode some segment satisfies the ever-le rule. |
| TSequenceEverAlways.AlwaysLt | src/tsequence.c:2524-2557 | In step mode every instant is below the value. In linear mode every segment satisfies the corrected always-lt rule. |
| TSequenceEverAlways.AlwaysLe | src/tsequence.c:2563-2586 | True exactly when every instant is at most the value. |
| TSequenceEverAlways.LinearEverLtExact | src/tsequence.c:2466-2480 | In linear mode the instant scan answers for every segment's values. |
| TSequenceEverAlways.LinearAlwaysLeExact | src/tsequence.c:2563-2586 | In linear mode the instant scan answers for every segment's values. |
| TSequenceRelOps.Eq | src/tsequence.c:4233-4257 | True exactly when the two sequences are equal. |
| TSequenceRelOps.InstantCmp | src/tsequence.c:4293 | A three-way order on instants, zero exactly on equal instants. |
| TSequenceRelOps.CmpInstants | src/tsequence.c:4287-4296 | The instant loop returns the comparison of the first differing pair of the common prefix. |
| TSequenceRelOps.Cmp | src/tsequence.c:4265-4309 | The method computes the order by period, then value box, then the instants of the common prefix, then interpolation (step first). |
| TSequenceRelOps.InstantsCmpZero | src/tsequence.c:4287-4296 | Common prefixes compare equal exactly when they are equal. |
| TSequenceRelOps.InstantsCmpAntisymmetric | src/tsequence.c:4287-4296 | Swapping the arrays negates the instant comparison. |
| TSequenceRelOps.InstantsCmpTransitive | src/tsequence.c:4287-4296 | The instant comparison is transitive. |
| TSequenceRelOps.SeqCmpZero | src/tsequence.c:4265-4309 | Two valid sequences compare equal exactly when they are equal. |
| TSequenceRelOps.SeqCmpAntisymmetric | src/tsequence.c:4265-4309 | Swapping the sequences negates the comparison. |
| TSequenceRelOps.SeqCmpTransitive | src/tsequence.c:4265-4309 | The comparison is transitive, so it is a total order on valid sequences. |
| TSequenceRelOps.ShiftStep | src/tsequence.c:4339 | In 32-bit unsigned arithmetic, (r << 5) - r + h equals r * 31 + h. |
| TSequenceRelOps.Hash | src/tsequence.c:4321-4342 | The loop computes the hash seeded by the flags' hash, folded modulo 2^32 over the instant hashes. |
| TSequenceRelOps.HashFoldPoly | src/tsequence.c:4336-4341 | The fold is the polynomial hash: the seed times 31 to the count, plus each instant hash times 31 to the number of later instants, modulo 2^32. |
| TSequenceCodec.SignedCount | src/tsequence.c:1801 | Casting the 32-bit word to int gives a negative count exactly for words from 2^31. |
| TSequenceCodec.Encode | src/tsequence.c:1773-1789 | The write emits one token per instant after a four-token header. |
| TSequenceCodec.Decode | src/tsequence.c:1797-1810 | A decoded sequence is valid and within the stream. Its bounds and interpolation are the header's flag bytes. |
| TSequenceCodec.DecodeEncode | src/tsequence.c:1773-1810 | Reading what was written returns the same normalized sequence and consumes exactly the written tokens, whatever follows them. |
| TSequenceCodec.MakeNormalized | src/tsequence.c:884-990 | Rebuilding a valid normalized sequence with normalization gives it back. |
| TSequenceCodec.DecodeTruncated | src/tsequence.c:1797-1810 | A stream cut before its last written token does not decode. |
| TSequenceCodec.DecodeStepNormal | src/tsequence.c:1797-1810 | A decoded step sequence is normalized. |
| TSequenceCodec.ReadInstants | src/tsequence.c:1805-1807 | The instant loop succeeds exactly when count instants follow the header, and returns them. |
| TSequenceCodec.Message.Write | src/tsequence.c:1773-1789 | The buffer grows by the encoding of the sequence. The read cursor does not move. |
| TSequenceCodec.Message.Read | src/tsequence.c:1797-1810 | Returns the decoding of the unread part, and advances the cursor by the tokens consumed. The data is unchanged. |
| TSequenceCodec.Decoration | src/tsequence.c:1743-1764 | The prefix is "Interp=Stepwise;" exactly for a non-component step sequence of a continuous type. The brackets are one of `[`/`(` and `]`/`)`. |
| TSequenceCodec.DecorationRoundTrip | src/tsequence.c:1760-1761 | The brackets give back both bound flags. For a continuous type the prefix gives back the interpolation. |
| TSequenceAccessors.StepPieces | src/tsequence.c:1906-1947 | One linear piece per step, plus an end instant when the last value is held at an inclusive upper bound. All are valid and linear. |
| TSequenceAccessors.StepToLinear | src/tsequence.c:1906-1947 | The loop builds exactly those pieces. |
| TSequenceAccessors.StepPiecesCover | src/tsequence.c:1906-1947 | Every timestamp of a step sequence lies in a piece that takes the sequence's value there. |
| TSequenceAccessors.StepPiecesSound | src/tsequence.c:1906-1947 | Every timestamp of a piece lies in the sequence's period, and the piece's value there is the sequence's. |
| TSequenceAccessors.StepPiecesOrdered | src/tsequence.c:1906-1947 | Consecutive pieces are ordered in time without overlapping. |
| TSequenceAccessors.Sort | src/tsequence.c:1984 | The values in nondecreasing order, as a permutation. |
| TSequenceAccessors.RemoveDuplicates | src/tsequence.c:1985 | A strictly increasing array holding exactly the input's values. |
| TSequenceAccessors.Values | src/tsequence.c:1976-1988 | The distinct instant values in strictly increasing order, between one and count of them. |
| TSequenceAccessors.MinInstant | src/tsequence.c:2120-2135 | An instant of the sequence with the smallest value, the earliest among ties. |
| TSequenceAccessors.Timestamps | src/tsequence.c:2254-2260 | The timestamps of the instants, in order and strictly increasing. |

## Left out

- Floating-point segment arithmetic is not modelled. This covers the collinearity test with `EPSILON`, the linear blend in `tsequence_value_at_timestamp1` (3453-3503), and the numeric, geometric and geographic segment intersections (60-472). They are uninterpreted oracles in `Ops`. For a segment against a value, `IntersectionValue` models the exact tests of 145-147 and 71-72. The `EPSILON` guard against the ends (77-78) and the computation of the crossing time (80-84) are the `valueCrossing` oracle. `tsequence_ever_eq` and `tsequence_at_value` both go through `IntersectionValue`.
- Dense and discrete time are not distinguished. Timestamps are integers, so "a value held over part of the period" (`Held`) is stated in integer time.
- Bounding boxes are not modelled. The bounding-box early exits in ever/always, `tsequence_eq` and `tsequence_at_value` are skipped, because they only return the answer the scan would return. `temporal_bbox_cmp` is modelled on the value extent only (`BoxCmp`).
- TSequenceRelOps.Cmp: the box step compares the value extent, which is the box of the numeric base types (integers and floats). For booleans and text the box is the period alone, so the source's box step decides nothing there and the instants decide. The model orders those types differently: step [c@1, a@2] against [b@1, b@2] gives 1 in the source and -1 in the model.
- The flags word is not modelled beyond the interpolation bit. The other bits describe the base type.
- Point and geometry branches are left out: `tpointseq_*`, trajectories, and the geometry cases of the collinear and intersection helpers.
- The packed single-allocation layout is replaced by `seq` values. This covers offsets, `palloc`, `memcpy` and `pfree`.
- The bytes of `pq_*` are not modelled. The message is a stream of tokens: one word for the count, three bytes for the flags, then one token per instant. `tinstant_write` and `tinstant_read` are not part of this model.
- Only the decoration of `tsequence_to_string` is modelled. `tinstant_to_string` and `stringarr_to_string` are not part of this model.
- TSequenceCodec.Decode: the source asserts on a count of zero or less and reports an error on a truncated buffer. The model returns `DecodeError` in both cases.
- TSequenceCodec.Message.Write: requires fewer than 2^31 instants, the largest count a 32-bit `int` can carry.
- TSequenceRelOps.Hash: `hash_uint32` and `tinstant_hash` are uninterpreted oracles. The folding arithmetic modulo 2^32 is modelled exactly.
- TSequenceAccessors.Sort: `datumarr_sort` is modelled as its specification (a sorted permutation). The qsort it calls is not part of this model.
- TSequenceSort.SortByPeriod: `tsequencearr_sort` is modelled as an insertion sort by `period_cmp_internal`. The qsort it calls is not part of this model.
- TSequenceRestrictValue.AtValue: coverage is stated for step sequences only. In linear mode the part where the value is taken depends on the crossing oracle. The pieces are still proved ordered, on s and inside its period.
- The linear branch of `tsequence_minus_value` (`tlinearseq_minus_value1`, 2735-2798) is left out. It computes the complement through floating-point crossings.
- TSequenceRestrictTime.MinusPeriodSet: states coverage but not that the pieces lie on s. Re-restricting a linear piece blends values that the uninterpreted blend does not relate to the original segment.
- TSequenceMinusTimestampSet.MinusTimestampSet: "every piece lies on s" is stated in step mode only, for the same reason. Linear cut instants are blended from an earlier cut.
- TSequenceSync.Crossing: a crossing is only used when it lies strictly inside the two segments. The source checks this inside its floating-point intersection helpers.
- TSequenceSync.Synchronize: with crossings, the grid's extra instants are stated aligned and ordered, but not on the inputs. They come from the crossing oracle.
- TSequenceMerge.MergeStepValues: values are stated in step mode only. In linear mode normalization drops instants by the floating-point collinearity test, and the value between kept instants is the uninterpreted blend.
- `tsequence_minus_period1` reads `ps->count` after `pfree(ps)` (3969-3970). The model returns the pieces, whose number is the number of periods of the difference; the memory error itself cannot be expressed on values.
- TSequenceEverAlways.AlwaysEq: only the path for base types that the bounding box does not decide is modelled. Its converse holds on normalized sequences (`AlwaysEqNormal`).
- `tsequence_at_timestampset` (3705-3735) and `tsequence_restrict_periodset` (4094-4123) are not modelled. They are dispatch and copy loops around the modelled restrictions.
- Shifts, casts, ranges, integrals, averages, range restriction and the SQL wrappers are left out. They work in floating point or call PostgreSQL (`timestamptz_pl_interval`, `range_intersect`, array builders).

## Findings

| source | as written | input that shows it | evidently intended | confidence | as-written member | corrected member |
|---|---|---|---|---|---|---|
| src/tsequence.c:775-777 | The collinearity disjunct of `tsequencearr_normalize` is not restricted to linear sequences, so it also joins step sequences by dropping both meeting instants. | Step sequences [1@1, 2@2] and (2@2, 3@3], with 1, 2, 3 at times 1, 2, 3 collinear. The join is [1@1, 3@3], whose value at 2 is 1 instead of 2. | Apply the collinearity rule to linear sequences only. | not executed | TSequenceJoin.StepCollinearJoinExample | TSequenceJoin.JoinStepValues |
| src/tsequence.c:1350-1369 | The fill loop of `tsequence_merge_array` stops a group on the instant count, but the copied count excludes the held-back last instant of an input with an exclusive upper bound. It also skips the first instant of an input with an exclusive lower bound that starts a group. | [1@1, 2@2) and [5@5, 6@6], apart in time: the first output becomes [1@1, 5@5], covering time 3. (1@1, 2@2] alone copies one instant where two were counted. | Copy each group's inputs whole, holding back only the instants shared with the next input. | not executed | TSequenceMerge.FillAsWrittenOverruns | TSequenceMerge.FillRuns |
| src/tsequence.c:3843-3850 | The scan of `tsequence_minus_timestampset1` ends when the instants run out, even while a timestamp after the sequence is pending. The part of the sequence after the last removed timestamp inside it is then lost. | Step [5@5, 8@8] minus {6, 10}: the result is only [5@5, 5@6). | Emit the rest of the sequence after the last removed timestamp. | not executed | TSequenceMinusTimestampSet.DroppedLastPiece | TSequenceMinusTimestampSet.MinusTimestampSet |
| src/tsequence.c:3824-3841 | A timestamp before the sequence clears the lower bound of the first piece. | Step [5@5, 8@8] minus {1, 6}: the first piece is (5@5, 5@6), which drops time 5. | Clear the lower bound only for a timestamp equal to the first instant's. | not executed | TSequenceMinusTimestampSet.LowerBoundCleared | TSequenceMinusTimestampSet.MinusTimestampSet |
| src/tsequence.c:2451 | The constant-segment case of `tlinearseq_always_lt1` compares `value1` with itself, so it is always false. | The constant segment 0 against the value 1: every value is below 1, yet the rule answers false. | Compare the segment's value with the given value. | not executed | TSequenceEverAlways.AlwaysLtConstantCounterexample | TSequenceEverAlways.AlwaysLtSegmentMeaning |
