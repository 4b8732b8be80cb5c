# Stopping-place usage: occupancy timelines from stop output

This project models `main` of `tools/output/computeStoppingPlaceUsage.py` from
SUMO's tools. The script reads the `stopinfo` records of a simulation's stop
output. For every stopping place of one type (`parkingArea` by default), it
computes how many vehicles occupy the place over time. Each place's timeline
goes to its own file, `<place>.csv` or `<place>.xml`.

The computation has three stages, each modelled in its own module.

- **Extraction** (`extraction.dfy`, module `Extraction`).
  - A record whose attribute for the tracked type is non-empty appends two events to the list of that place: `(started, +1)`, then `(ended, -1)`.
  - A record with no such attribute, or an empty one, is skipped.
  - The method `Extract` keeps the `defaultdict(list)` as a `map<string, seq<Event>>`.
  - It is proved to equal a reference function, `EventsOf`, for every place.
- **Timeline builder** (`events.dfy`, `timeline.dfy`).
  - Each list is sorted by `(time, delta)`, which is Python's tuple order.
  - The sweep keeps a running count and the previous time. It emits `(previous time, count)` only when the time changes, plus one final step.
  - The method `Sweep` carries this loop. The script's one condition on `t` and `tPrev` is split into its three cases so that each case can call its own proof step.
  - It is proved against `TimelineSpec`, a reference definition written without a sweep. That definition has one step per distinct event time, in increasing order, each carrying the sum of every delta at or before that time.
  - `IsTimeline` states these properties, and `TimelineUnique` shows that they determine the steps.
- **Serialisation** (`render.dfy`, `usage.dfy`).
  - `WriteCsv` and `WriteXml` build the file text line by line, as the script's writes do, with the same header and element text.
  - Each writer is proved against a reader. The text splits into exactly the intended lines, and decoding those lines gives back every step's time text and number, in order.
  - `ComputeUsage` composes the three stages. The written files are a map from file name to text.

Times are modelled as `real` because the script only compares them. Occupancy
counts are unbounded integers, as Python's are. `wrappers.dfy` holds the
`Option` type.

## Model

All source paths are in `tools/output/computeStoppingPlaceUsage.py`.

Several functions without contracts stand for single expressions of the script:
- `Events.Before` is Python's tuple order used by `times.sort()` (line 62).
- `Extraction.PlaceOf` is `getAttributeSecure(options.stoppingPlace, "")` (line 56).
- `Render.IntText` is `%s` applied to the count (lines 80 and 87).
- `Usage.Suffix` and `Usage.FileName` are the suffix choice and `splace + suffix` (lines 73-74).

| member | source | states |
|---|---|---|
| Extraction.Extract | tools/output/computeStoppingPlaceUsage.py:52-59 | The map's keys are exactly the non-empty place names of the records. Each place's list is the events its records contribute, in record order. |
| Extraction.ExtractStep | tools/output/computeStoppingPlaceUsage.py:55-59 | One turn of the extraction loop keeps the map equal to what the records read so far contribute. |
| Extraction.EventsOfSnoc | tools/output/computeStoppingPlaceUsage.py:56-59 | A record adds `(started, +1)` then `(ended, -1)` to its own place's list and changes no other place's list. |
| Extraction.PlacesSnoc | tools/output/computeStoppingPlaceUsage.py:56-57 | A record adds its place to the tracked places exactly when its attribute is non-empty. |
| Extraction.PlaceNamed | tools/output/computeStoppingPlaceUsage.py:57 | Every tracked place has a non-empty name. |
| Extraction.EventsOfNonEmpty | tools/output/computeStoppingPlaceUsage.py:56-59 | A non-empty name has events if and only if some record names it. No place's list is ever empty. |
| Extraction.EventsOfEven | tools/output/computeStoppingPlaceUsage.py:58-59 | Every list has even length, because events are added in pairs. |
| Extraction.EventsOfBalanced | tools/output/computeStoppingPlaceUsage.py:58-59 | The deltas of every place's list sum to zero. |
| Extraction.EventsOfConcat | tools/output/computeStoppingPlaceUsage.py:55-59 | Extracting from two runs of records concatenates their lists. |
| Extraction.EventsOfPermutation | tools/output/computeStoppingPlaceUsage.py:55-59 | Reordering the records keeps each place's events as a multiset. |
| Extraction.PlacesPermutation | tools/output/computeStoppingPlaceUsage.py:55-57 | Reordering the records keeps the set of tracked places. |
| Extraction.OccupancyIsActiveStops | tools/output/computeStoppingPlaceUsage.py:58-59 | When no stop ends before it starts, the sum of the deltas up to `t` is the number of stops at the place with `started <= t < ended`. |
| Events.Insert | tools/output/computeStoppingPlaceUsage.py:62 | Inserting into a sorted list keeps it sorted and adds exactly the one element. |
| Events.Sort | tools/output/computeStoppingPlaceUsage.py:62 | The result is sorted by `(time, delta)` and is a permutation of the input. |
| Events.SortedUnique | tools/output/computeStoppingPlaceUsage.py:62 | Two sorted lists with the same elements are equal, so every correct sort gives the same list. |
| Events.SortDeterminedByElements | tools/output/computeStoppingPlaceUsage.py:62 | The sorted list depends only on the multiset of events. |
| Events.SortedIsTimeSorted | tools/output/computeStoppingPlaceUsage.py:62 | Sorting by tuples sorts by time. |
| Events.SumUpToSort | tools/output/computeStoppingPlaceUsage.py:62 | Sorting does not change the sum of the deltas up to any time. |
| Events.SumUpToPermutation | tools/output/computeStoppingPlaceUsage.py:62 | The sum of the deltas up to any time depends only on the multiset of events. |
| Events.RunningSumIsSum | tools/output/computeStoppingPlaceUsage.py:65-69 | The running count after `i` events is the sum of the first `i` deltas. |
| Events.PrefixSum | tools/output/computeStoppingPlaceUsage.py:66-69 | In a time-sorted list, the sum of the first `i` deltas is the sum of every delta at or before `t`, when event `i-1` is at or before `t` and event `i` is after it. |
| Events.SumUpToAll | tools/output/computeStoppingPlaceUsage.py:71 | Once every event is at or before `t`, the sum of the deltas up to `t` is the total. |
| Events.SumUpToStep | tools/output/computeStoppingPlaceUsage.py:66-69 | With no event strictly between `t1` and `t2`, the sum up to `t2` is the sum up to `t1` plus the deltas at exactly `t2`. |
| Timeline.Sweep | tools/output/computeStoppingPlaceUsage.py:63-71 | The sweep over a time-sorted, non-empty list returns a timeline: strictly increasing times, exactly the distinct event times, and at each the sum of all deltas at or before it. |
| Timeline.SweepStart | tools/output/computeStoppingPlaceUsage.py:64-70 | The first event opens the pending step and emits nothing. |
| Timeline.SweepSameTime | tools/output/computeStoppingPlaceUsage.py:66-70 | An event at the pending time only adds to the pending count. |
| Timeline.SweepNewTime | tools/output/computeStoppingPlaceUsage.py:67-68 | An event at a new time emits the pending step, whose count is then final, and keeps the emitted steps a partial timeline. |
| Timeline.SweepFinish | tools/output/computeStoppingPlaceUsage.py:71 | The step appended after the loop completes the timeline. |
| Timeline.BuildTimeline | tools/output/computeStoppingPlaceUsage.py:61-71 | Sorting then sweeping a non-empty list gives strictly increasing times, one step per distinct event time, and prefix-sum counts. The result equals the reference timeline of the list as it came. |
| Timeline.TimelineOfSorted | tools/output/computeStoppingPlaceUsage.py:62 | A timeline of the sorted list is the timeline of the unsorted list. |
| Timeline.DistinctTimesElements | tools/output/computeStoppingPlaceUsage.py:66-68 | Collapsing runs of equal times keeps every event time and adds none. |
| Timeline.DistinctTimesIncreasing | tools/output/computeStoppingPlaceUsage.py:66-68 | On a time-sorted list, the collapsed times are strictly increasing. |
| Timeline.TimelineSpecIsTimeline | tools/output/computeStoppingPlaceUsage.py:61-71 | The reference timeline is a timeline of its events. |
| Timeline.StepsUnique | tools/output/computeStoppingPlaceUsage.py:61-71 | Two strictly increasing step lists over the same times, with prefix-sum counts, are equal. |
| Timeline.TimelineUnique | tools/output/computeStoppingPlaceUsage.py:61-71 | An event list has exactly one timeline. |
| Timeline.TimelineOfPermutation | tools/output/computeStoppingPlaceUsage.py:62 | Being a timeline of an event list depends only on the multiset of events. |
| Timeline.TimelineOrderIndependent | tools/output/computeStoppingPlaceUsage.py:62 | Permuting the events does not change the step list. |
| Timeline.StepChange | tools/output/computeStoppingPlaceUsage.py:66-69 | The first step's count is the sum of the deltas at its time. Each later count is the previous count plus the sum of the deltas at exactly its time. |
| Timeline.LastStepIsTotal | tools/output/computeStoppingPlaceUsage.py:71 | The timeline of a non-empty list is non-empty, and its last count is the sum of all deltas. |
| Timeline.TimelineSpecLast | tools/output/computeStoppingPlaceUsage.py:71 | The reference timeline of a non-empty list ends with the sum of all deltas. |
| Timeline.BalancedTimelineEndsEmpty | tools/output/computeStoppingPlaceUsage.py:71 | A non-empty list whose deltas sum to zero has a timeline ending with count 0. |
| Render.NatText | tools/output/computeStoppingPlaceUsage.py:80 | The decimal text of a natural number is non-empty and all digits, with no leading zero, as `%s` prints it. |
| Render.NatTextRoundTrip | tools/output/computeStoppingPlaceUsage.py:80 | Parsing the decimal text of a natural number gives the number back. |
| Render.IntTextRoundTrip | tools/output/computeStoppingPlaceUsage.py:80 | Parsing the `%s` text of an integer, negative ones included, gives the integer back. |
| Render.IntTextPlain | tools/output/computeStoppingPlaceUsage.py:80 | An integer's text contains no line break, comma or quote. |
| Render.SplitFirst | tools/output/computeStoppingPlaceUsage.py:80 | The split is at the first separator. The parts rebuild the input, and with no separator the whole input is the first part. |
| Render.SplitUnlines | tools/output/computeStoppingPlaceUsage.py:78-80 | Lines without line breaks, each written with a trailing newline, split back into the same lines. |
| Render.CsvLineRoundTrip | tools/output/computeStoppingPlaceUsage.py:80 | A `time,number` line has no line break and decodes to the step's time text and number. |
| Render.CsvRowsRoundTrip | tools/output/computeStoppingPlaceUsage.py:79-80 | Every step's line decodes to that step's row, in step order. |
| Render.CsvRoundTrip | tools/output/computeStoppingPlaceUsage.py:76-80 | The CSV text splits into the header and one line per step. It decodes to every step's row, in order, with none dropped or duplicated. |
| Render.StepElementRoundTrip | tools/output/computeStoppingPlaceUsage.py:87 | A `<step time=".." number=".."/>` line has no line break and decodes to the step's time text and number. |
| Render.StepElementsRoundTrip | tools/output/computeStoppingPlaceUsage.py:86-87 | The step element lines decode to every step's row, in order. |
| Render.XmlRoundTrip | tools/output/computeStoppingPlaceUsage.py:81-88 | The XML text splits into the declaration, an empty line, the root opening, one element per step and the root closing. It decodes to every step's row, in order. |
| Render.XmlHeadText | tools/output/computeStoppingPlaceUsage.py:83-85 | The XML head lines are the declaration, a blank line and the root opening, exactly as written. |
| Render.WriteCsv | tools/output/computeStoppingPlaceUsage.py:76-80 | The text written is the header line followed by one line per step, and it reads back as the steps' rows. |
| Render.WriteXml | tools/output/computeStoppingPlaceUsage.py:81-88 | The text written is the XML head, one element line per step and the root closing, and it reads back as the steps' rows. |
| Usage.FileReadsBack | tools/output/computeStoppingPlaceUsage.py:73-88 | A place's file, in either format, splits into its lines and reads back as its timeline's rows. |
| Usage.FileNameInjective | tools/output/computeStoppingPlaceUsage.py:73-74 | Distinct places get distinct file names, so no file is written twice. |
| Usage.OtherFileKept | tools/output/computeStoppingPlaceUsage.py:74 | Writing one place's file leaves every other place's file unchanged. |
| Usage.WrittenStep | tools/output/computeStoppingPlaceUsage.py:61-74 | Writing the next place's file keeps every file written before and adds exactly that place's file. |
| Usage.PlaceFile | tools/output/computeStoppingPlaceUsage.py:61-88 | The text written for one place is its reference timeline rendered in the chosen format. |
| Usage.WriteFiles | tools/output/computeStoppingPlaceUsage.py:61-88 | There is one file per place, named place plus suffix and no other, each holding that place's timeline in the chosen format. |
| Usage.ComputeUsage | tools/output/computeStoppingPlaceUsage.py:50-88 | The files written are exactly one per tracked place. Each holds the timeline of the events that place's records contribute. |
| Usage.UsageOrderIndependent | tools/output/computeStoppingPlaceUsage.py:55-71 | Permuting the stop records changes neither the set of places nor any place's timeline. |
| Usage.LastStepEmpty | tools/output/computeStoppingPlaceUsage.py:58-71 | Every tracked place's timeline is non-empty and ends with count 0. |
| Usage.CountsAreActiveStops | tools/output/computeStoppingPlaceUsage.py:58-71 | When no stop ends before it starts, each count is the number of stops covering the step's time, so it is never negative. |
| Usage.SingleStop | tools/output/computeStoppingPlaceUsage.py:55-71 | One stop from `s` to `e` gives `[(s,1),(e,0)]` if `s < e`, or `[(s,0)]` if `s == e`. If it ends before it starts, it gives `[(e,-1),(s,0)]`: counts are not clamped. |
| Usage.Handover | tools/output/computeStoppingPlaceUsage.py:55-71 | When one stop ends exactly as another starts, the step at the shared time counts 1 and the place never shows empty. |
| Usage.Overlap | tools/output/computeStoppingPlaceUsage.py:55-71 | Two overlapping stops give `[(a,1),(b,2),(c,1),(d,0)]`. |

## Left out

- `get_options` (lines 33-47), the command-line parsing, is not modelled. The model takes the two options it uses, the stopping place type and `--csv`, as a datatype. Line 45 calls `optParser.print_help()`, a name that is never defined, so a missing `-s` option would raise `NameError` instead of printing help. This is outside the model.
- `--only-changes` (line 41) is parsed but never read, so it has no behaviour to model.
- XML parsing of the stop output is not modelled. The records are given as a sequence of `StopInfo` values with their attributes and their already-converted times. `getAttributeSecure(type, "")` is modelled by `PlaceOf`, which defaults to `""`.
- `parseTime` is not modelled. Times are `real`, and a malformed time cannot occur in the model.
- Files are a map from file name to text. Opening, overwriting and I/O errors are not modelled.
- Python's `%s` rendering of a float time is the parameter `fmt`. The integer count is rendered as decimal by `IntText`.
- Usage.ComputeUsage: requires that `fmt` never produces a line break, a comma or a double quote. It is stated weaker than the script, which writes whatever `%s` gives. The requirement is there so that the files can be read back. Usage.WriteFiles, Usage.PlaceFile, Render.WriteCsv and Render.WriteXml carry the same requirement.
- Timeline.BuildTimeline: requires a non-empty event list. For an empty list the script would write one step `(None, 0)`. That case cannot arise, because a list only comes into being when a record appends to it (`Extraction.EventsOfNonEmpty`).
- The sort is a functional insertion sort standing for `list.sort()`, so the in-place update of the list is not modelled. `Events.SortedUnique` shows that any correct sort gives this same list.
- Dictionary iteration order is chosen arbitrarily (`:|`). The results do not depend on it, because the files are named apart (`Usage.FileNameInjective`).
- The script sorts `(time, delta)` tuples, so events at one time are ordered by their change.
- The XML root element is always `stoppingPlace`, whatever type of stopping place is tracked.
- A place's list is never empty, so no timeline without steps is ever written.
