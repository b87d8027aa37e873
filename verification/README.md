# Verified models of madmin-go

Dafny models of the stateful and algorithmic parts of the MinIO admin client, with proofs of what
they promise: the merging of time-segmented metrics, the generated MessagePack codecs, the license
header rewriter, the merging of background heal states, the reflective stable sort and ARN text.

`dafny verify dfyconfig.toml` checks everything. Lemmas carry `{:induction false}` wherever Dafny would try
induction of its own, so that every proof is the one written down.

## Structure

| file | what it holds |
|---|---|
| Basics, Permutations | shared types; lists with the same elements in another order |
| Folds | accumulation in any order: measures, merge trees, loops |
| Segmented, SegmentLaws | `Segmented[T]` over a segment array; pointwise addition, order, conservation |
| SlotLaws | what becomes of every slot; 64-bit arithmetic; negative intervals |
| MergeOrder | exactly when the order of merging series does not matter, and which series a tree of merges keeps |
| Handlers, HandlerLaws | the handler maps of `RPCMetrics` and `APIMetrics`: ownership of segment arrays |
| Stats, Totals | the elements `RPCStats` and `APIStats`, and the totals over handlers |
| Clocks, ClockOrder, LastMinutes, APIMinutes | the rule for time ranges, and exactly when the two `LastMinuteTotal` do not depend on the order |
| Sensors | `OSInfo.AddOSInfo` and `OSMetrics.Merge` |
| MsgPack, Formats | the wire format: headers, objects, skipping; its table, byte by byte |
| Schema | values and types of Go, `Encode`, `Decode`, `Msgsize` for any record layout |
| WireForms, CodecLaws, SizeLaws | which objects denote a value; round trip, reordering, unknown keys, size |
| RecordLaws, Meanings | which fields are written; what decoding makes of any object, and when it fails |
| Codec, Streams | the generated methods as they run, buffered and streaming, proved to compute `Encode` and `Decode` |
| Layouts, LayoutLaws | the concrete record layouts, and that their values survive the wire |
| LicenseHeaders, HeaderScans | scanner, renderer and rewriter of license headers; what becomes of every line |
| HeaderLaws, KeptHeaders, HeaderTexts, FusedTexts | when a second run changes nothing: ordinary headers, all headers, whole texts, lines that fuse |
| HealStates, HealSlices | what a merged heal state is; slices of disks that share arrays |
| HealMerge, HealRuns, HealLaws | `BgHealState.Merge`; runs of merges into many receivers; what the merge promises |
| StableSorts, AnySort | stable sorts whose comparison need not be an order: insertion sort, and any other |
| Reflection, SortSlice | path lookup and field comparison; `SortSlice` |
| Strings, Arn | splitting and joining; `ARN.String` and `ParseARN` |

## Reading the model

**Series.** A time is an instant in nanoseconds. A `Series` is the value of a `Segmented`: interval,
first time, segments. `AddOutcome` is what `Add` does with any two series: a new value, or a panic on the
general path. Durations are 64-bit as in Go (`Times` wraps, `Sub` saturates, division truncates). Where
slots simply meet, or the interval is positive and the two series span at most one duration
(`Mergeable`), all of them are exact and the new value is `Merged`, about which the laws are proved. A
*measure* is a quantity read off an element that `Add` simply adds up; `Measures(e, v)` says that v is
one and that the zero element counts as nothing. A tree of merges is `OrderIrrelevant` if every tree over
the same series gives the same timeline and, slot by slot, the same measure. Every counter of `RPCStats`
and `APIStats`, and the request-time extremes of `APIStats`, are shown to be measures, so every law about
series speaks about the real statistics.

**Time ranges.** For one end of a range an entry is a `Stamp`: its time, if any, and whether it counts
requests. `Settled` is a finite test on the times of the idle and of the busy entries, and `Orderly` asks
it of starts and of ends, unless some entries have timestamps and some have not. `APIMetrics` has no
such exception.

**Codecs.** The generated codecs differ only in their field tables. A `Type` is such a table, and
`Layouts` holds the tables of `BucketTargets`, `BgHealState` with `Disk` and all that it contains,
`HealOpts`, `RPCStats`, `APIStats` and the generic `Segmented`. Integers have the size of their Go type.
`Denotes(t, o, v)` says that the MessagePack object o is a wire form of v. `Same` identifies a nil and an
empty slice or map and the two zeros of a float, either of which is omitted, ignores spare capacity, and
compares maps as maps. `Takes(t, o)` says which objects a type takes, and `Meaning(t, z, o)` what they mean to a
receiver that holds z. A map value is a list of entries in the order one `range` visits them, so every
statement holds for every iteration order. The leaf codecs follow the section "Formats" of the
MessagePack specification; a time is a 12-byte extension. Decoding takes the receiver's old contents as
an argument.

**Headers.** Regular expressions are arbitrary predicates on lines. `Settles(s, p, h, after)` is the
exact condition under which a second run changes nothing: it speaks only about the rendered header h
and the first line behind it. A header that starts with a line of the kind always kept at the top of a
file may hide from the scanner; `SettlesIn` says where the scanner then stops, and covers every header.
In a text a line without a newline fuses with what is written behind it; `Seen` is what a reader then sees
of header and rest, and `SettlesAmong` asks whether the header settles among those lines.

**Heal states.** A set's *view* is the label it came with first and all its disks in order. The merged
state is the one strictly ordered list with the view of all inputs one after the other. The disks of a set
are a slice: a length and an array that may be longer and that other slices may share. A `World` is what
else there is during a merge: what is merged, slices that others may append to, and slices that are only
read. It is `Fine` if no two slices have room to write in one array.

**Sorting.** Reflection is a datatype of values. Lowering a string and matching a field name are
parameters, so the results hold for any notion of letter case. The sort is modelled as the insertion sort
that Go runs on short slices, with the comparison closure as it is. A `Sorting` is any sort by comparisons,
as a tree of questions; what is shown of insertion sort holds for every stable one that only ever asks
whether a later element comes before an earlier one. Go's sort of longer slices is such a sort: it merges
sorted blocks and asks whether elements of the right one come before elements of the left one.

## Where code and documentation disagree

- metrics.go:295 promises independence of the order of merges. For series that start at multiples of
  their intervals, as metrics.go:1788 asks, it holds if and only if all that carry data have one interval
  (`OrderIrrelevantIff`); for series that do not, one interval is not enough (`UnalignedOrderShows`).
- A merge of another interval is ignored (metrics.go:1814-1819), so what a tree of merges keeps depends on its
  shape: merged one after the other all series of the first interval count (`ChainTotal`), but in a tree they may
  stand behind one of another interval and be lost with it (`SurvivingIff`, `HiddenShows`).
- The total of metrics.go:1359-1391 depends on the iteration order of a map. Its counters never do; its
  time range does not if and only if the entries are `Orderly` (`LastMinuteOrderIff`), and two busy entries
  of which one lacks a start are not (`BusyOrderShows`).
- metrics.go:1749 and the code around it set the node count of every slot, so that adding up the slots
  multiplies it (`APITotalsAgree`).
- heal-commands.go:485-490 adopts the slice of a status as it is, and appends to it later. If that slice has
  spare capacity, two receivers that adopted it write the same room and the second overwrites the disks of
  the first (`BothAppend`). If all slices merged are full, as they are when just decoded, no run of merges
  loses a disk (`HealRuns.MergeRun`).
- heal-commands.go:475-476 speaks of keeping the disk with the latest update. The code appends all disks
  (`KeysAndDisks`), so a set of the result holds every disk once if and only if none comes twice under its
  key in the inputs, whatever identifies a disk (`DisksOnceIff`).
- info-v4-resources.go:755 asks for a stable sort. With two nil elements the comparison calls each less
  than the other (`SaysOrder`). The result is sorted all the same, nil first (`ClosureSorts`); it is the stable
  one if and only if the order is reversed or the nil elements read the same backwards
  (`ClosureStableIff`), as nil pointers always do (`EqualNils`).
- licenseheaders.py:970-986 writes the header behind whatever precedes it and the rest behind the header. A
  file of kept lines only without a final newline, such as a lone `#!/bin/sh`, and a header text without
  one, fuse with the next line: then a second run changes the file (`TwiceIsOnceText`,
  `TwiceIsOnceOrdinary`), and a fused line comment header takes the line behind it along (`FusedLineLost`).
- licenseheaders.py:126 ends Python headers with a blank line that the scanner does not take for a part
  of the header, so each run adds one (`GrowsForever`).

## Model

| member | source | states |
|---|---|---|
| Folds.OrderAndShapeIrrelevant | metrics.go:291-299 | two merge trees over the same multiset of inputs give the same measure, whatever order and shape |
| Folds.TreeSum | metrics.go:295-295 | the measure of a merge tree is the sum of the measures of its leaves |
| Folds.FoldLeftSum | metrics.go:1877-1888 | a loop that adds values one after the other accumulates the sum of their measures |
| Folds.SumPermutation | metrics.go:295-295 | the sum of measures depends only on the multiset of inputs |
| Segments.DurationsExact | metrics.go:1838-1860 | where the union of two series fits a duration, every wrapping product and saturating difference is exact |
| Segments.SlotCount | metrics.go:1838-1860 | the slot count is the larger of the two shifted lengths, so that every slice bound holds, aligned or not |
| Segments.MergedWithin | metrics.go:1394-1400 | a merge stays within the bounds of its inputs, so a run of merges keeps what `Add` needs |
| Segments.Segmented.Add | metrics.go:1800-1874 | an argument without data, or of another interval than a receiver with data, changes nothing; a receiver without data takes a copy; for any two series the new value, or the panic, is `AddOutcome` of the two old values |
| Segments.AddMerged | metrics.go:1800-1874 | without overflow, and with a positive interval unless slots simply meet, nothing panics and the new value is `Merged` |
| SlotLaws.AddsBySlot | metrics.go:1829-1874 | for one positive interval, segment by segment: which slots of which series stand where, in which order they are added, and that slots which none covers are zero |
| SlotLaws.NegativeIff | metrics.go:1829-1874 | for a negative interval the general path panics if and only if the receiver starts later or ends earlier than the argument, and else keeps its timeline |
| SlotLaws.WrapIs | metrics.go:1830-1840 | a product of durations is the congruent number that fits 64 bits |
| SlotLaws.SubIs | metrics.go:1843-1846 | a difference of times is the nearest one that fits a duration |
| SlotLaws.QuotientIs | metrics.go:1843-1861 | slot numbers are truncated toward zero |
| SlotLaws.JoinAllGrows | metrics.go:1394-1400 | a total over handlers is the zero value with one series added after the other |
| SlotLaws.AllSegmentsAppend | metrics.go:1403-1411 | the segments of several series in the order of the series |
| Segments.Segmented.AddUnaligned | metrics.go:1829-1874 | the general path for any interval and any times, wrap-around, panics and skipped indexes included; after a panic nothing has changed |
| Segments.Segmented.Fill | metrics.go:1855-1873 | every slot holds mine, theirs, their sum or zero; an index out of range is skipped |
| Segments.Segmented.AddInPlace | metrics.go:1820-1827 | on the fast path every segment of the receiver is the sum of the two that meet, in its own array |
| Segments.Segmented.Total | metrics.go:1877-1888 | the fold of all segments, oldest first |
| Segments.Stored.Add | metrics.go:1352-1353 | adding to a copy of a stored struct may write the stored array and no other |
| Segments.Stored.DeepCopy | metrics.go:1344-1349 | same value, array shared with nothing |
| SegmentLaws.MergeAddsUp | metrics.go:1800-1874 | on a common grid the merge is addition at every instant, from the earlier start to the later end, and stays on the grid |
| SegmentLaws.InstantAddsUp | metrics.go:1829-1874 | the same for two non-empty series |
| SegmentLaws.MergedSpan | metrics.go:1838-1848 | on a common grid the offsets are exact and the span is the union of both |
| SegmentLaws.SameInstantsAgree | metrics.go:1790-1797 | on one grid extent and values at all instants determine a series |
| SegmentLaws.MergeOrderIrrelevant | metrics.go:291-299 | every order and tree of merges of the same series, empty ones included, gives the same start, length and segments |
| SegmentLaws.MonoidMergeOrderIrrelevant | metrics.go:291-299 | for elements that form a commutative monoid the merged series are equal, segments included |
| SegmentLaws.MergeConserves | metrics.go:1838-1873 | with equal intervals and any start times no segment is lost: the totals add up |
| MergeOrder.OrderIrrelevantIff | metrics.go:291-299 | for aligned series, empty ones included, order and tree of merges are irrelevant if and only if all series that carry data have one interval |
| MergeOrder.MergeCommutesIff | metrics.go:1800-1874 | two series that carry data, aligned or not, merge alike both ways if and only if their intervals agree |
| MergeOrder.UnalignedOrderShows | metrics.go:1787-1788 | three one-second series that start at 1.2, 0.5 and 0 seconds merge to one slot in one order and to two in another |
| MergeOrder.TreeInterval | metrics.go:1814-1819 | a tree of merges carries data if and only if some leaf does, and has the interval of the first leaf that does |
| MergeOrder.TreeTotal | metrics.go:1814-1819 | a tree of merges has exactly the total of its surviving leaves: a subtree of another interval than what precedes it is lost whole, and nothing else is |
| MergeOrder.SurvivingIff | metrics.go:1814-1819 | all leaves of the interval of the first with data survive, and no others, if and only if none of them stands in a subtree that is lost |
| MergeOrder.ChainTotal | metrics.go:1814-1819 | merging series one after the other keeps the total of exactly those that have the interval of the first with data |
| MergeOrder.HiddenShows | metrics.go:1814-1819 | in a tree a series of the right interval can be lost behind one of another |
| SegmentLaws.TotalsAgree | metrics.go:1394-1411 | merging all series by time and adding up the slots measures the same as adding up all segments, for any two iteration orders |
| Handlers.HandlerMetrics.Merge | metrics.go:1301-1356 | both maps have the keys of both, an entry of one side stays, entries of both are added, receiver first; any argument but the object itself keeps its values, and what the receiver stores stays disjoint from everything it owns |
| Handlers.HandlerMetrics.MergeRun | metrics.go:1339-1355 | after any run of merges both maps are the accumulated ones, and every argument is unchanged and shares no array with the receiver, although later merges write stored arrays |
| HandlerLaws.RunMergeable | metrics.go:1339-1355 | bounds common to the receiver and all inputs make every merge of such a run possible, and still hold after it |
| Handlers.HandlerMetrics.MergeMinutes | metrics.go:1330-1337 | the last-minute maps are added key by key |
| HandlerLaws.MinutesAddUp | metrics.go:1330-1337 | every measure of an entry of the last minute adds up, a missing entry counting as nothing, and the keys are the union |
| HandlerLaws.RunMinutesTotal | metrics.go:1330-1337 | after any run of merges an entry measures the receiver's plus the sum over all arguments |
| HandlerLaws.RunMinutesOrderIrrelevant | metrics.go:291-299 | the same arguments in another order leave the same keys and entries that measure the same |
| HandlerLaws.RunKeys | metrics.go:1330-1355 | after a run both maps have the keys of the receiver and of all arguments, and no others |
| Handlers.HandlerMetrics.MergeDays | metrics.go:1717-1733 | the last-day maps are merged key by key in any order of the keys |
| Handlers.HandlerMetrics.MergeDay | metrics.go:1339-1355 | a missing key gets an unshared copy, a present one the merged series |
| Handlers.HandlerMetrics.LastDayTotalSegmented | metrics.go:1394-1400 | a new series: the stored ones merged in the order visited |
| Handlers.HandlerMetrics.LastDayTotal | metrics.go:1403-1411 | the fold of every segment of every stored series |
| HandlerLaws.RunOrderIrrelevant | metrics.go:291-299 | merging the same metrics in another order leaves series that agree handler by handler |
| Stats.MergeRPC | metrics.go:1481-1499 | every counter adds up, each end of the range is adopted, kept or dropped as specified, and the value is `AddRPC` |
| Stats.RPCCountersLawful | metrics.go:1494-1498 | every counter of an RPCStats is a measure of its merge |
| Stats.LastMinuteTotal | metrics.go:1359-1391 | the two loops with their mixed-timestamp rule compute `LastMinute` |
| Stats.LastMinuteRange | metrics.go:1359-1391 | with active entries the total starts (ends) at t if and only if every entry does |
| LastMinutes.MixedHaveNone | metrics.go:1362-1381 | if one entry has a start or an end and another neither, the total has neither |
| LastMinutes.OthersAsTheyAre | metrics.go:1382-1387 | otherwise it is the merge of the entries as they are |
| LastMinutes.LastMinuteOrderIff | metrics.go:1359-1391 | the whole total, time range included, is the same for every iteration order if and only if the entries are orderly |
| LastMinutes.TotalFollows | metrics.go:1481-1493 | both ends of the range of a merged total follow one and the same rule |
| LastMinutes.BusyOrderShows | metrics.go:1481-1493 | two entries with requests, one without a start: the total has a start in one order and none in the other |
| APIMinutes.LastMinuteTotal | metrics.go:1737-1746 | the loop over the entries in the order visited, with the node count |
| APIMinutes.APILastMinuteOrderIff | metrics.go:1737-1746 | the whole total of APIMetrics is the same for every iteration order if and only if starts and ends are settled, since nothing drops mixed timestamps here |
| APIMinutes.TotalFollows | metrics.go:1614-1634 | both ends of its range follow the same rule, and extremes of idle entries are never taken |
| ClockOrder.FreeIff | metrics.go:1481-1493 | the final time is the same for every order of merges if and only if the times are settled |
| ClockOrder.UnsettledDiffers | metrics.go:1481-1493 | times that are not settled have two orders that end differently |
| Clocks.SettledEnds | metrics.go:1481-1493 | settled times end with the one time there is, or with none |
| Stats.LastMinuteCounters | metrics.go:1374-1387 | the counters of the total are the sums over all entries, whether or not timestamps were dropped |
| Stats.MergeAPI | metrics.go:1614-1669 | although it tests emptiness after adding the requests, it takes extremes only from operands that saw requests |
| Stats.AddAPIFields | metrics.go:1614-1669 | every single counter adds up; with requests on both sides each pair of extremes is the least interval that contains both, and else that of the side with requests |
| Stats.ExtremesLawful | metrics.go:1635-1669 | the extremes of the inputs that saw requests are a measure of the merge |
| Stats.APITalliesLawful | metrics.go:1614-1669 | requests and all other counters are a measure of the merge |
| Stats.TreeExtremes | metrics.go:1635-1669 | in any tree the minima and maxima are the true ones over exactly the inputs with requests; if none has any, the receiver's stay |
| Totals.RPCTotalsAgree | metrics.go:1394-1411 | `LastDayTotalSegmented().Total()` and `LastDayTotal()` agree on every counter for any two iteration orders |
| Totals.APITotalsAgree | metrics.go:1748-1774 | for APIMetrics they agree on all but the node count, which the former multiplies by the number of slots |
| Totals.LastDayTotalSegmented | metrics.go:1748-1760 | the series merged in the order visited, with the node count set in every slot and nothing else changed |
| Totals.LastDayTotal | metrics.go:1763-1774 | the fold of every segment of every stored series, with the node count |
| Totals.RPCSeriesOrderIrrelevant | metrics.go:291-299 | aligned series of RPCStats merge to the same timeline and, slot by slot, the same counters in every order and tree if and only if they have one interval |
| Totals.APISeriesOrderIrrelevant | metrics.go:291-299 | series of APIStats likewise, with requests, extremes and all counters but the nodes |
| Totals.FoldWithNodes | metrics.go:1755-1758 | setting the node count of every slot changes nothing else in their total |
| Totals.APIWorkLawful | metrics.go:1614-1669 | requests, extremes and all counters but the nodes are a measure of `APIStats` with its zero value |
| Sensors.OSMetrics.AddOSInfo | health.go:552-593 | the loop over the readings computes `Absorb` |
| Sensors.OSMetrics.Merge | metrics.go:875-901 | the loop over the keys, in any order, computes `Combine` |
| Sensors.AbsorbSummarizes | health.go:562-591 | adding readings to an exact summary gives the exact summary of all of them |
| Sensors.CombineSummarizes | metrics.go:880-901 | combining two exact summaries gives the exact summary of both |
| Sensors.HistorySummarizes | health.go:550-593 | any tree of additions and merges gives per key the exact minimum, maximum, sum, count and critical count of all readings |
| Sensors.HistoryCounts | health.go:580-591 | count, total and critical count of a sensor are the number of its readings, the sum of their temperatures and the number of those above a positive critical temperature |
| Sensors.JoinedFields | metrics.go:880-901 | whatever two summaries hold, counts add up and the extremes are those of both, or of the second where the first has no readings |
| Sensors.HistoryOrderIrrelevant | health.go:551-551 | two histories of the same readings leave the same metrics |
| MsgPack.ReadHead | bucket-targets_gen.go:772-788 | a header that is read is valid and was written with exactly those bytes |
| MsgPack.ReadHeadBytes | bucket-targets_gen.go:772-788 | every valid header reads back in front of any tail |
| MsgPack.SkipExact | bucket-targets_gen.go:969-974 | skipping succeeds with rest r if and only if the input is one well-formed object followed by r |
| MsgPack.SkipObject | bucket-targets_gen.go:969-974 | any well-formed object is skipped whole |
| Formats.BigEndian | bucket-targets_gen.go:678-692 | numbers are written most significant byte first |
| Formats.TwosComplement | bucket-targets_gen.go:678-692 | negative integers are written in two's complement |
| Formats.FixFormats | metrics_gen.go:302-311 | the bytes of nil, booleans and the formats with a number or length in the first byte |
| Formats.NumberFormats | metrics_gen.go:18401-18448 | the bytes of integers, floats and long headers |
| Formats.BlobFormats | bucket-targets_gen.go:603-766 | the bytes of strings, binary data and extensions with a length |
| Formats.TimeFormat | metrics_gen.go:18401-18420 | the 15 bytes of a time |
| Formats.ShortestInt | metrics_gen.go:18422-18426 | no shorter signed format holds the integer; likewise `ShortestUint`, `ShortestStr`, `ShortestCount` |
| Schema.PutEntries | heal-commands_gen.go:458-502 | storing a key changes that key and nothing else and keeps keys distinct |
| Schema.Decode | metrics_msgp.go:231-306 | whatever is decoded is a value of the type |
| WireForms.EncodeObject | metrics_msgp.go:181-228 | encoding writes exactly one object, and it is a wire form of the value |
| WireForms.EncodeFieldsObjects | bucket-targets_gen.go:603-766 | the header announces as many pairs as are written; every field is written or omitted; no other key is |
| RecordLaws.EncodedPairs | metrics_gen.go:18364-18448 | the pairs are exactly the present fields, each once and in the order of the layout, under a header with their number: a field that may be omitted is present if and only if it differs from the zero value, or for slices and maps is not nil |
| RecordLaws.PresentMeans | metrics_gen.go:18367-18395 | type by type: a bool is present if true, a number if not zero, a float if neither zero, a string if not empty, a pointer if not nil, a time if not the start of year 1 |
| WireForms.EncodeEntriesObjects | heal-commands_gen.go:342-361 | map entries in any order, each key once |
| WireForms.DecodeDenoted | bucket-targets_gen.go:769-1012 | every wire form of a value, in front of any tail and into any receiver, decodes to the value and that tail |
| WireForms.DecodeRecordDenoted | metrics_msgp.go:231-306 | the same for records: unknown keys skipped, omitted fields cleared, dirty fields overwritten |
| WireForms.DecodeSliceDenoted | metrics_msgp.go:264-283 | the same for slices, reusing storage that is large enough |
| WireForms.DecodeDictDenoted | heal-commands_gen.go:446-526 | the same for maps: old entries are gone |
| CodecLaws.RoundTrip | metrics_msgp.go:108-306 | decoding an encoded value followed by any tail, into any receiver, gives the value and exactly the tail |
| CodecLaws.EncodesOneObject | bucket-targets_gen.go:603-766 | for every omission pattern the output is exactly one MessagePack object |
| CodecLaws.AnyOrderAnyExtras | bucket-targets_gen.go:769-1012 | reordering or repeating the entries of a record and inserting unknown ones changes neither the result nor what is consumed |
| CodecLaws.DecodeReadsOneObject | bucket-targets_gen.go:769-1012 | for every input at all, a decode that succeeds consumed exactly one well-formed object |
| Meanings.DecodeExact | metrics_gen.go:18451-18575 | for every object, receiver and tail: decoding succeeds if and only if the type takes the object, and gives its meaning to that receiver and the tail |
| Meanings.DecodeIff | metrics_gen.go:18451-18575 | for every input: exactly what is decoded, and exactly when |
| CodecLaws.SizeBound | bucket-targets_gen.go:1015-1024 | the encoded length never exceeds `Msgsize` |
| SizeLaws.Widest | bucket-targets_gen.go:1015-1024 | and is reached: some wire form of every value has exactly that length |
| Codec.OmitMask | bucket-targets_gen.go:605-648 | the decremented count and the mask say which fields are written |
| Codec.MarshalMsg | metrics_msgp.go:181-228 | appends exactly the encoding |
| Codec.MarshalFields | bucket-targets_gen.go:603-766 | variable map header and unmasked fields are the encoding of the record |
| Codec.MarshalEntries | heal-commands_gen.go:342-361 | header and entries are the encoding of the map |
| Codec.MarshalItems | bucket-targets_gen.go:1098-1112 | header and items are the encoding of the slice |
| Codec.UnmarshalMsg | metrics_msgp.go:231-306 | computes `Decode` |
| Codec.UnmarshalSlice | bucket-targets_gen.go:1132-1150 | computes `Decode` of a slice over the receiver's storage |
| Codec.FillFields | bucket-targets_gen.go:778-976 | counting the entries down, filling fields, setting mask bits and skipping unknown keys computes `DecodeFields` |
| Codec.FillEntries | heal-commands_gen.go:458-502 | counting the entries of a map down computes `DecodeEntries` |
| Codec.ClearOmitted | bucket-targets_gen.go:977-1009 | fields that can be omitted and were not seen are zero, all others stay |
| Streams.EncodeMsg | metrics_msgp.go:108-178 | the streaming encoder writes the very bytes `MarshalMsg` appends |
| Streams.EncodeMsgFields | bucket-targets_gen.go:258-600 | the same for records |
| Streams.DecodeMsg | metrics_msgp.go:31-105 | the streaming decoder gives what `UnmarshalMsg` gives and leaves exactly the rest in the stream |
| Streams.DecodeMsgFields | bucket-targets_gen.go:12-220 | the same for the entries of a record, unknown keys included |
| Streams.DecodeMsgSlice | bucket-targets_gen.go:1044-1062 | the same for slices over the receiver's storage |
| Streams.DecodeMsgEntries | heal-commands_gen.go:90-146 | the same for the entries of a map |
| LayoutLaws.BucketTargetsSurvive | bucket-targets_gen.go:1098-1170 | targets with their 26 fields, ten of them omittable, and optional nested credentials survive the wire as one object within `Msgsize` |
| LayoutLaws.BgHealStateSurvives | heal-commands_gen.go:314-575 | so do heal states with nested sets of disks and two maps |
| LayoutLaws.DiskOk | info-commands_gen.go:5647-5950 | the keys of a disk are different and short, and so are those of all records in it |
| LayoutLaws.HealOptsSurvive | heal-commands_gen.go:1038-1240 | so do heal options with their two optional integers |
| LayoutLaws.SegmentedSurvives | metrics_msgp.go:108-315 | so do time series, for every element codec |
| LayoutLaws.RPCSeriesSurvive | metrics_gen.go:18364-18580 | so do time series of RPCStats, whose seven fields are all omitted when zero |
| LayoutLaws.ZeroRPCStats | metrics_gen.go:18364-18400 | the zero RPCStats is written as the one byte 0x80 |
| LayoutLaws.APISeriesSurvive | metrics_gen.go:1257-1810 | so do time series of APIStats, although the decoder clears a record that the encoder never omits |
| LayoutLaws.BucketTargetOk | bucket-targets_gen.go:603-766 | the keys of a bucket target are different and short |
| LicenseHeaders.Scan | licenseheaders.py:571-583 | a header found lies behind the kept lines and within the file |
| HeaderScans.ScanFinds | licenseheaders.py:571-720 | a header is reported at these lines if and only if they are the first comment behind the kept lines |
| HeaderScans.ScanReads | licenseheaders.py:659-720 | it counts as a license if and only if a line read matches the license or year pattern, and the year line is the last that matches only the latter |
| LicenseHeaders.ReadFile | licenseheaders.py:571-720 | the loops compute `Scan` |
| LicenseHeaders.ReadBlock | licenseheaders.py:659-689 | a block comment runs to the first end line that is not a license line |
| LicenseHeaders.ReadLines | licenseheaders.py:690-720 | line comments run to the last consecutive one |
| LicenseHeaders.ForType | licenseheaders.py:541-567 | first and last line of the style, and between them every template line between prefix and suffix, or for a blank one the stripped prefix; this is `Render` |
| HeaderScans.TemplateRecovered | licenseheaders.py:541-567 | two templates without empty lines that render to one header are one template |
| LicenseHeaders.Rewrite | licenseheaders.py:957-986 | what is written is the part before, the header and the part after |
| HeaderScans.LicenseReplaced | licenseheaders.py:967-976 | a license is replaced and every other line stays as it was |
| HeaderScans.InsertedBeforeComment | licenseheaders.py:977-986 | before any other comment the header is inserted with a blank line behind it |
| HeaderScans.InsertedBehindKept | licenseheaders.py:977-986 | without a comment it is inserted behind the kept lines |
| LicenseHeaders.SplitLines | licenseheaders.py:603-604 | the lines read are well formed and make up the text |
| LicenseHeaders.RewriteFile | licenseheaders.py:953-986 | from text to text |
| HeaderLaws.FixedPoint | licenseheaders.py:967-986 | rewriting leaves a file as it is if and only if the scanner finds the very header in it and counts it as a license |
| HeaderLaws.ReachesHeader | licenseheaders.py:614-645 | after a rewrite the scanner gets to the new header again |
| HeaderLaws.TwiceIsOnce | licenseheaders.py:957-986 | for every file the second application changes nothing if and only if the header settles before the lines after it |
| KeptHeaders.TwiceIsOnceIff | licenseheaders.py:957-986 | the same for every header, even one that starts with a line always kept at the top: the second application changes nothing if and only if the scanner stops at the header and it settles there |
| KeptHeaders.SettlesInPlace | licenseheaders.py:614-622 | for a header that does not start with such a line this is settling before the lines after it |
| HeaderLaws.FollowedByLineComment | licenseheaders.py:659-689 | with ordinary patterns a line comment follows the new header if and only if it directly followed the replaced block |
| HeaderLaws.RenderedBlock | licenseheaders.py:541-567 | a template with a license or year line and no end line of its own renders, between block start and end lines, to a block header |
| HeaderLaws.RenderedLines | licenseheaders.py:541-567 | a template whose rendered lines are all line comments, with a license or year line, renders to a line header |
| HeaderLaws.ForeignEndGrows | licenseheaders.py:118-128 | with a style that ends line comments with another line, the second run leaves the first file with that line twice |
| HeaderLaws.GrowsForever | licenseheaders.py:957-986 | such a style adds one more line to every file with every run, for ever |
| HeaderTexts.ReadsBack | licenseheaders.py:603-604 | well-formed lines are exactly what a reader of their text sees |
| HeaderTexts.OnceSeen | licenseheaders.py:970-986 | where the part before the header ends with a newline, a reader of the new text sees that part and then the lines of header and rest together |
| HeaderTexts.BeforeTerminated | licenseheaders.py:970-978 | it does if and only if the old text is empty, ends with a newline or has a line that is not kept |
| HeaderTexts.FixedPointText | licenseheaders.py:953-986 | for every text and every header that is not empty, rewriting changes nothing if and only if the scanner finds that very text and counts it as a license |
| HeaderTexts.TwiceIsOnceText | licenseheaders.py:953-986 | for every text and every header that is not empty: a second run changes nothing if and only if the part before the header ends with a newline and the header settles among the lines then seen |
| FusedTexts.SeenWhole | licenseheaders.py:970-986 | a header that ends with a newline, or has nothing behind it, is seen as it was written |
| FusedTexts.SeenFused | licenseheaders.py:970-986 | a header that does not is seen with its last line and the next one as one line |
| FusedTexts.TwiceIsOnceOrdinary | licenseheaders.py:953-986 | for every text and every header whose first line, as it then stands, is neither kept nor blank: a second run changes nothing if and only if nothing fuses and the header settles before the lines after it |
| FusedTexts.FusedNeverSettles | licenseheaders.py:970-986 | such a header never settles once its last line has fused |
| FusedTexts.FusedLineLost | licenseheaders.py:690-720 | a line comment header that fused is replaced together with the next line and all line comments that follow: the second run deletes them |
| HealMerge.BgHealState.Merge | heal-commands.go:456-502 | in any case: sets ordered by pool and then index, scanned items added up, endpoints gathered in order, and all other fields as specified; where no two slices share room, under each key exactly the disks of receiver and others, with unique receiver keys strictly ordered and in order, and no other slice changed |
| HealMerge.BgHealState.MergeOne | heal-commands.go:468-495 | one node: endpoints appended, counts added, statuses overwritten, sets gathered |
| HealMerge.BgHealState.AddDisksFromSet | heal-commands.go:477-490 | adds the disks of one status under its key and no other, in place, in a new array or by adopting the slice; what is merged later may still be adopted, and every other slice reads as before |
| HealMerge.BgHealState.SortSets | heal-commands.go:496-501 | orders the sets by key, loses none, and keeps every view if keys are unique |
| HealSlices.Append | heal-commands.go:489-489 | the disks of both, in place if there is room; slices that do not reach into the room read as before |
| HealSlices.BothAppend | heal-commands.go:485-490 | two holders of one slice that each append a disk: the first one's is overwritten if and only if the slice has room |
| HealRuns.MergeRun | heal-commands.go:456-502 | after any run of merges of full slices into any receivers, every receiver has exactly its disks and all it was brought, and every node reads as before, although slices share arrays |
| HealStates.StrictDetermined | heal-commands.go:496-501 | there is one strictly ordered list with given views, so any sort gives it |
| HealLaws.KeysAndDisks | heal-commands.go:468-501 | the keys are the union; each key's disks are the receiver's and then the others' in argument order |
| HealLaws.DisksOnceIff | heal-commands.go:475-490 | every set of the result holds each disk at most once if and only if no disk comes twice under one key in the inputs, whatever identifies a disk |
| HealLaws.FirstLabelsKept | heal-commands.go:485-490 | every set keeps the identifier, status, priority and object count it came with first |
| HealLaws.LastStatusWins | heal-commands.go:465-472 | an endpoint's status is the one the last node reports, or else the receiver's |
| HealLaws.FirstParities | heal-commands.go:457-464 | the parities are the receiver's unless nil, else those of the first node |
| HealLaws.CountsAndEndpoints | heal-commands.go:468-474 | the scanned items are the receiver's plus the sum over all nodes; the offline endpoints are the receiver's and then the nodes' in order; the healing disks stay |
| HealLaws.OrderedByPoolAndSet | heal-commands.go:496-501 | the sets are ordered by pool and within a pool by index, each pair once |
| HealLaws.MergesDetermined | heal-commands.go:456-502 | the result of a merge is unique |
| HealLaws.AllAtOnceOrOneByOne | heal-commands.go:456-502 | one merge of all nodes leaves what merging them one by one leaves |
| StableSorts.StableSortUnique | info-v4-resources.go:755-755 | there is one stable sort of a list by a strict weak order |
| StableSorts.ReversedSort | info-v4-resources.go:774-778 | sorting by the reverse order is reversing, sorting and reversing back |
| StableSorts.SortSorts | info-v4-resources.go:755-755 | a comparison that never contradicts an order sorts by it, whatever it says of tied elements |
| StableSorts.SortKeeps | info-v4-resources.go:755-755 | tied elements of which it says that none comes first keep their order |
| StableSorts.SortFlips | info-v4-resources.go:755-755 | tied elements of which it says that each comes first come out backwards |
| Reflection.ResolveFieldPath | info-v4-resources.go:786-816 | the loop computes `Resolve` |
| Reflection.ResolveInTwo | info-v4-resources.go:783-786 | a path may be resolved piece by piece |
| Reflection.FindFieldCaseInsensitive | info-v4-resources.go:819-827 | the first field whose name matches, or nothing |
| Reflection.FindFirst | info-v4-resources.go:819-827 | the field found is the first whose name matches; without a match there is none |
| Reflection.ResolveOne | info-v4-resources.go:786-816 | one step goes through any number of pointers into that field, and nowhere from a nil pointer or what is not a struct |
| Reflection.TextBeforeIff | info-v4-resources.go:851-851 | strings compare by the first place where they differ, a proper prefix first |
| Reflection.KeysAre | info-v4-resources.go:832-875 | what elements and fields are compared by: lowered text or the number, behind at most one pointer; nil and unsupported kinds apart |
| Reflection.DocumentedOrder | info-v4-resources.go:735-741 | nil elements come first, then missing or nil fields, then text and numbers ascending; reversed, the other way round |
| SortSlices.CompareKeys | info-v4-resources.go:832-861 | a comparison says which key comes first, and fails only for tied keys |
| Reflection.OrderIsWeak | info-v4-resources.go:742-748 | the order by key, nil first, is a strict weak order, and so is its reverse |
| SortSlices.Less | info-v4-resources.go:755-780 | what the comparison closure computes |
| SortSlices.SaysOrder | info-v4-resources.go:755-780 | it is the order on the elements of a slice if and only if at most one is nil or the order is reversed |
| SortSlices.ClosureSorts | info-v4-resources.go:742-781 | sorting with it gives the documented order for every slice, however many elements are nil |
| SortSlices.ClosureStableIff | info-v4-resources.go:742-781 | the sort is stable if and only if the order is reversed or the nil elements read the same backwards |
| SortSlices.EqualNils | info-v4-resources.go:755-766 | nil elements that are equal, as nil pointers are, read the same backwards |
| SortSlices.SortedNils | info-v4-resources.go:755-780 | an unreversed sort leaves the nil elements backwards, a reversed one in order |
| AnySorts.AnySort | info-v4-resources.go:755-755 | every stable sort that asks only whether a later element comes before an earlier one ends as insertion sort does, with any comparison that respects an order and answers alike for tied elements |
| AnySorts.AnySortSlice | info-v4-resources.go:742-781 | so with the closure of `SortSlice`, for slices of any length: sorted in any case, and stable if and only if the order is reversed or the nil elements read the same backwards |
| AnySorts.InsertionIsOne | info-v4-resources.go:755-755 | for every number of elements there is such a sort |
| SortSlices.SortSlice | info-v4-resources.go:749-781 | sorts the slice in place: a permutation, always in order, and the stable sort exactly under that condition |
| SortSlices.Insert | info-v4-resources.go:755-755 | one round moves the next element forward past those it is said to come before |
| SortSlices.ReversedSortSlice | info-v4-resources.go:774-780 | a stable reversed sort equals sorting the reversed slice and reversing |
| SortSlices.ReversalIff | info-v4-resources.go:774-780 | for every slice, reversing the order is reversing slice and result if and only if the nil elements read the same backwards |
| Strings.Split | arn.go:54-54 | the parts join to the string, one more than there are separators |
| Strings.SplitJoin | arn.go:54-54 | parts without separators split out of their join |
| Strings.SplitClean | arn.go:54-54 | what splits out has no separators in it |
| Arn.ParsePrint | arn.go:40-69 | every accepted string is printed back exactly |
| Arn.PrintParse | arn.go:40-69 | an ARN parses back if and only if its parts are free of colons and id and resource or bucket are not empty; a bucket comes back as the resource |
| Arn.ParseIff | arn.go:47-69 | a string parses to an ARN if and only if it is the prefix and four parts without colons, the last two not empty |

## Left out

- HTTP calls, retries, channels, JSON, encryption, system probing: input and output.
- The other metrics types of metrics.go: their merges add up fields in the same way or, where they share
  maps or overwrite, do not promise the laws proved here.
- `RPCMetrics` and `APIMetrics` beyond their two handler maps: node counts, collection times, connection
  statistics and `SinceStart` only add up; nil receivers do nothing.
- `OSMetrics` beyond its sensors: operation counts only add up.
- Counters are integers and times spent are reals: 64-bit wrap-around and floating-point rounding.
- Segments.Segmented.AddUnaligned: an array too large to be made.
- SlotLaws.NegativeIff: where nothing overflows; beyond that the general path is only followed step by step.
- Handlers.HandlerMetrics.Merge: series with which `Segmented.Add` panics or overflows, that is two that start or
  end apart with a negative interval or a union longer than 292 years.
- Handlers.HandlerMetrics.MergeDays: the same.
- Handlers.HandlerMetrics.MergeDay: the same.
- Handlers.HandlerMetrics.MergeRun: the same, and the receiver among its own arguments.
- Handlers.HandlerMetrics.LastDayTotalSegmented: the same series.
- Totals.LastDayTotalSegmented: the same series.
- LastMinutes.LastMinuteOrderIff: for request counts that are not negative.
- APIMinutes.APILastMinuteOrderIff: the same.
- Values of the codecs: float fields are bit patterns and 32-bit floats are not read; times are UTC
  instants, without location or monotonic reading, and omitted when they are the zero instant; only string
  formats are read as keys.
- Errors of the codecs are one value; the path that wraps them and a receiver left half filled after an
  error are not modelled.
- Sharing between a reused receiver's pointers and other objects; arrays, strings and maps are shorter than
  2^32, as the format requires.
- The buffering of msgp.Writer and msgp.Reader, which are not part of this repository: a stream is what was
  written so far, or what has not been read yet.
- The receiver of a decoder is passed in and returned as a value, not updated in place.
- The layouts of other records: any of them is covered once its keys are shown different and short.
- HeaderLaws.TwiceIsOnce: for headers whose first line is not one that is always kept at the top of a file;
  `KeptHeaders.TwiceIsOnceIff` covers all.
- HeaderTexts.OnceSeen: not for files of kept lines only without a final newline; `HeaderTexts.TwiceIsOnceText`
  shows that no header settles in those.
- Reading a file's type from its name, the encoding, universal newlines, white space beyond ASCII in a
  prefix, years-only mode, backups, dry runs and file permissions.
- HealMerge.BgHealState.Merge: says nothing about disks if slices share room to write; then they are
  overwritten, in an order that depends on how much room there is. Slices start at the front of their array;
  the slices of endpoints and of sets are values. With repeated keys in the receiver the disks under a key are
  stated as a multiset.
- HealMerge.BgHealState.MergeOne: the same.
- HealMerge.BgHealState.AddDisksFromSet: the same.
- The time ranges of the two `LastDayTotal`: they follow the rule of `Clocks` for the segments in the order
  visited; which orders of whole handlers agree is not characterised.
- The sorts in `HealMerge` and `SortSlices.SortSlice` are insertion sorts, which is what Go runs on short slices.
  By `StrictDetermined` and `AnySortSlice` any other gives the same; that Go's asks only whether a later element
  comes before an earlier one is not part of this model.
- SortSlices.SortSlice: requires fields of one kind, which Go's typing gives for every slice whose element
  type is not an interface; not-a-number is not a real.
- SortSlices.CompareKeys: fields of one kind.
- SortSlices.Less: fields of one kind.
- SortSlices.Insert: fields of one kind.
