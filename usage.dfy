/**
 The whole computation: extract every tracked stopping place's events from
 the stop records, build each place's occupancy timeline, and write it to a
 file named after the place, in CSV or XML. The files written are modelled as
 a map from file name to file text.
 */
module Usage {
  import opened Events
  import opened Timeline
  import opened Extraction
  import opened Render
  import opened Wrappers

  /** The options the computation reads: the stopping place type to track and whether to write CSV. */
  datatype Options = Options(stoppingPlace: string, csv: bool)

  function Suffix(csv: bool): string {
    if csv then ".csv" else ".xml"
  }

  /** The name of the file that receives the timeline of place `p`. */
  function FileName(p: string, csv: bool): string {
    p + Suffix(csv)
  }

  /** The occupancy timeline of place `p`. */
  function PlaceTimeline(stops: seq<StopInfo>, kind: string, p: string): seq<Step> {
    TimelineSpec(EventsOf(stops, kind, p))
  }

  function FileLines(csv: bool, fmt: Time -> string, steps: seq<Step>): seq<string> {
    if csv then CsvLines(fmt, steps) else XmlLines(fmt, steps)
  }

  /** The text of a place's file: its lines in the chosen format, each ended by a line break. */
  function FileText(csv: bool, fmt: Time -> string, steps: seq<Step>): string {
    Unlines(FileLines(csv, fmt, steps))
  }

  function DecodeFile(csv: bool, text: string): Option<seq<Row>> {
    if csv then DecodeCsv(text) else DecodeXml(text)
  }

  /** A file's text splits into its lines and reads back as the rows of the timeline it was written from. */
  lemma FileReadsBack(csv: bool, fmt: Time -> string, steps: seq<Step>)
    requires forall i :: 0 <= i < |steps| ==> TimeTextOk(fmt(steps[i].time))
    ensures SplitLines(FileText(csv, fmt, steps)) == FileLines(csv, fmt, steps)
    ensures DecodeFile(csv, FileText(csv, fmt, steps)) == Some(Rows(fmt, steps))
  {
    if csv {
      CsvRoundTrip(fmt, steps);
    } else {
      XmlRoundTrip(fmt, steps);
    }
  }

  /** Distinct places get distinct files. */
  lemma FileNameInjective(p: string, q: string, csv: bool)
    requires FileName(p, csv) == FileName(q, csv)
    ensures p == q
  {
    assert |p| == |q|;
    assert FileName(p, csv)[..|p|] == p;
    assert FileName(q, csv)[..|q|] == q;
  }

  /** The file of each place in `done` holds that place's text in `texts`, and there is no other file. */
  ghost predicate Written(files: map<string, string>, texts: map<string, string>, csv: bool, done: set<string>)
    requires done <= texts.Keys
  {
    && files.Keys == (set p | p in done :: FileName(p, csv))
    && forall p :: p in done ==> files[FileName(p, csv)] == texts[p]
  }

  lemma FileNamesSnoc(done: set<string>, place: string, csv: bool)
    ensures (set p | p in done + {place} :: FileName(p, csv))
         == (set p | p in done :: FileName(p, csv)) + {FileName(place, csv)}
  {
  }

  /** Writing one file leaves the file of any other place as it was. */
  lemma OtherFileKept(files: map<string, string>, csv: bool, place: string, text: string, p: string)
    requires p != place
    requires FileName(p, csv) in files
    ensures files[FileName(place, csv) := text][FileName(p, csv)] == files[FileName(p, csv)]
  {
    if FileName(p, csv) == FileName(place, csv) {
      FileNameInjective(p, place, csv);
    }
  }

  /** Writing one more place's file keeps every file written before. */
  lemma WrittenStep(files: map<string, string>, texts: map<string, string>, csv: bool, done: set<string>, place: string)
    requires done <= texts.Keys && place in texts
    requires Written(files, texts, csv, done)
    requires place !in done
    ensures Written(files[FileName(place, csv) := texts[place]], texts, csv, done + {place})
  {
    FileNamesSnoc(done, place, csv);
    forall p | p in done
      ensures files[FileName(place, csv) := texts[place]][FileName(p, csv)] == files[FileName(p, csv)]
    {
      OtherFileKept(files, csv, place, texts[place], p);
    }
  }

  /** Taking one place out of the remaining ones adds it to the finished ones. */
  lemma RemoveOne(all: set<string>, remaining: set<string>, place: string)
    requires place in remaining && remaining <= all
    ensures all - (remaining - {place}) == (all - remaining) + {place}
  {
  }

  /** One place's file: build the timeline of its events, then write it in the chosen format. */
  method PlaceFile(times: seq<Event>, csv: bool, fmt: Time -> string) returns (text: string)
    requires times != []
    requires forall t :: TimeTextOk(fmt(t))
    ensures text == FileText(csv, fmt, TimelineSpec(times))
  {
    var steps := BuildTimeline(times);
    if csv {
      text := WriteCsv(fmt, steps);
    } else {
      text := WriteXml(fmt, steps);
    }
  }

  /** The loop over the places found: one file per place, named after it, holding its timeline. */
  method WriteFiles(counts: map<string, seq<Event>>, csv: bool, fmt: Time -> string) returns (files: map<string, string>)
    requires forall p :: p in counts ==> counts[p] != []
    requires forall t :: TimeTextOk(fmt(t))
    ensures files.Keys == (set p | p in counts :: FileName(p, csv))
    ensures forall p :: p in counts ==> files[FileName(p, csv)] == FileText(csv, fmt, TimelineSpec(counts[p]))
  {
    ghost var texts := map p | p in counts :: FileText(csv, fmt, TimelineSpec(counts[p]));
    files := map[];
    var remaining := counts.Keys;
    while remaining != {}
      invariant remaining <= counts.Keys
      invariant Written(files, texts, csv, counts.Keys - remaining)
      decreases remaining
    {
      var place :| place in remaining;
      var suffix := if csv then ".csv" else ".xml";
      var text := PlaceFile(counts[place], csv, fmt);
      WrittenStep(files, texts, csv, counts.Keys - remaining, place);
      files := files[place + suffix := text];
      RemoveOne(counts.Keys, remaining, place);
      remaining := remaining - {place};
    }
  }

  /**
   The whole computation: extract each tracked place's events from the stop
   records, then write one file per place. The time rendering `fmt` is a
   parameter.
   */
  method ComputeUsage(stops: seq<StopInfo>, options: Options, fmt: Time -> string) returns (files: map<string, string>)
    requires forall t :: TimeTextOk(fmt(t))
    ensures files.Keys == (set p | p in Places(stops, options.stoppingPlace) :: FileName(p, options.csv))
    ensures forall p :: p in Places(stops, options.stoppingPlace) ==>
      files[FileName(p, options.csv)] == FileText(options.csv, fmt, PlaceTimeline(stops, options.stoppingPlace, p))
  {
    var vehCounts := Extract(stops, options.stoppingPlace);
    forall p | p in vehCounts ensures vehCounts[p] != [] {
      PlaceNamed(stops, options.stoppingPlace, p);
      EventsOfNonEmpty(stops, options.stoppingPlace, p);
    }
    files := WriteFiles(vehCounts, options.csv, fmt);
  }

  // Properties of the whole computation.

  /** Reordering the stop records changes neither the places written nor any place's timeline. */
  lemma UsageOrderIndependent(a: seq<StopInfo>, b: seq<StopInfo>, kind: string)
    requires multiset(a) == multiset(b)
    ensures Places(a, kind) == Places(b, kind)
    ensures forall p :: PlaceTimeline(a, kind, p) == PlaceTimeline(b, kind, p)
  {
    PlacesPermutation(a, b, kind);
    forall p ensures PlaceTimeline(a, kind, p) == PlaceTimeline(b, kind, p) {
      EventsOfPermutation(a, b, kind, p);
      TimelineOrderIndependent(EventsOf(a, kind, p), EventsOf(b, kind, p));
    }
  }

  /** Every written timeline has at least one step, and its last step has the place empty again. */
  lemma LastStepEmpty(stops: seq<StopInfo>, kind: string, p: string)
    requires p in Places(stops, kind)
    ensures PlaceTimeline(stops, kind, p) != []
    ensures var steps := PlaceTimeline(stops, kind, p); steps[|steps| - 1].count == 0
  {
    PlaceNamed(stops, kind, p);
    EventsOfNonEmpty(stops, kind, p);
    EventsOfBalanced(stops, kind, p);
    BalancedTimelineEndsEmpty(EventsOf(stops, kind, p));
  }

  /**
   When no stop ends before it starts, each step's number is the number of
   stops at the place that cover its time, so it is never negative.
   */
  lemma CountsAreActiveStops(stops: seq<StopInfo>, kind: string, p: string)
    requires forall s :: s in stops ==> s.started <= s.ended
    ensures var steps := PlaceTimeline(stops, kind, p);
      forall i :: 0 <= i < |steps| ==> steps[i].count == ActiveStops(stops, kind, p, steps[i].time) >= 0
  {
    var events := EventsOf(stops, kind, p);
    TimelineSpecIsTimeline(events);
    var steps := TimelineSpec(events);
    forall i | 0 <= i < |steps| ensures steps[i].count == ActiveStops(stops, kind, p, steps[i].time) {
      OccupancyIsActiveStops(stops, kind, p, steps[i].time);
    }
  }

  // Small scenarios, each the unique timeline of its events.

  /** A record of a stop at `p` of type `kind` from `s` to `e`. */
  function StopAt(kind: string, p: string, s: Time, e: Time): StopInfo {
    StopInfo(map[kind := p], s, e)
  }

  lemma TimelineIs(events: seq<Event>, steps: seq<Step>)
    requires IsTimeline(events, steps)
    ensures TimelineSpec(events) == steps
  {
    TimelineSpecIsTimeline(events);
    TimelineUnique(events, TimelineSpec(events), steps);
  }

  lemma OneStopEvents(kind: string, p: string, s: Time, e: Time)
    ensures EventsOf([StopAt(kind, p, s, e)], kind, p) == [Event(s, 1), Event(e, -1)]
  {
    assert [StopAt(kind, p, s, e)][..0] == [];
  }

  /**
   A single stop: one vehicle from its start until its end; a stop that
   starts and ends at once leaves one step with nobody; a stop that ends
   before it starts shows -1 in between.
   */
  lemma SingleStop(kind: string, p: string, s: Time, e: Time)
    ensures s < e ==> PlaceTimeline([StopAt(kind, p, s, e)], kind, p) == [Step(s, 1), Step(e, 0)]
    ensures s == e ==> PlaceTimeline([StopAt(kind, p, s, e)], kind, p) == [Step(s, 0)]
    ensures e < s ==> PlaceTimeline([StopAt(kind, p, s, e)], kind, p) == [Step(e, -1), Step(s, 0)]
  {
    var events := [Event(s, 1), Event(e, -1)];
    OneStopEvents(kind, p, s, e);
    SingleStopTimeline(s, e);
    if s < e {
      TimelineIs(events, [Step(s, 1), Step(e, 0)]);
    } else if s == e {
      TimelineIs(events, [Step(s, 0)]);
    } else {
      TimelineIs(events, [Step(e, -1), Step(s, 0)]);
    }
  }

  lemma SingleStopTimeline(s: Time, e: Time)
    ensures s < e ==> IsTimeline([Event(s, 1), Event(e, -1)], [Step(s, 1), Step(e, 0)])
    ensures s == e ==> IsTimeline([Event(s, 1), Event(e, -1)], [Step(s, 0)])
    ensures e < s ==> IsTimeline([Event(s, 1), Event(e, -1)], [Step(e, -1), Step(s, 0)])
  {
    var events := [Event(s, 1), Event(e, -1)];
    SumUpToPair(events[0], events[1], s);
    SumUpToPair(events[0], events[1], e);
    assert EventTimes(events) == {s, e} by {
      assert events[0] in events && events[1] in events;
    }
    var two, one := [Step(s, 1), Step(e, 0)], [Step(s, 0)];
    var inverted := [Step(e, -1), Step(s, 0)];
    assert StepTimes(two) == {s, e} by {
      assert two[0] in two && two[1] in two;
    }
    assert StepTimes(one) == {s} by {
      assert one[0] in one;
    }
    assert StepTimes(inverted) == {s, e} by {
      assert inverted[0] in inverted && inverted[1] in inverted;
    }
  }

  lemma HandoverSums(a: Time, b: Time, c: Time, t: Time)
    requires a < b < c
    ensures var events := [Event(a, 1), Event(b, -1), Event(b, 1), Event(c, -1)];
      SumUpTo(events, t) == (if c <= t then 0 else if b <= t then 1 else if a <= t then 1 else 0)
  {
    var first, second := [Event(a, 1), Event(b, -1)], [Event(b, 1), Event(c, -1)];
    assert first + second == [Event(a, 1), Event(b, -1), Event(b, 1), Event(c, -1)];
    SumUpToConcat(first, second, t);
    SumUpToPair(first[0], first[1], t);
    SumUpToPair(second[0], second[1], t);
  }

  lemma HandoverEvents(kind: string, p: string, a: Time, b: Time, c: Time)
    ensures EventsOf([StopAt(kind, p, a, b), StopAt(kind, p, b, c)], kind, p)
         == [Event(a, 1), Event(b, -1), Event(b, 1), Event(c, -1)]
  {
    var stops := [StopAt(kind, p, a, b), StopAt(kind, p, b, c)];
    assert stops[..1] == [StopAt(kind, p, a, b)];
    OneStopEvents(kind, p, a, b);
  }

  lemma HandoverTimes(a: Time, b: Time, c: Time)
    ensures EventTimes([Event(a, 1), Event(b, -1), Event(b, 1), Event(c, -1)]) == {a, b, c}
    ensures StepTimes([Step(a, 1), Step(b, 1), Step(c, 0)]) == {a, b, c}
  {
    var events := [Event(a, 1), Event(b, -1), Event(b, 1), Event(c, -1)];
    assert events[0] in events && events[1] in events && events[3] in events;
    var steps := [Step(a, 1), Step(b, 1), Step(c, 0)];
    assert steps[0] in steps && steps[1] in steps && steps[2] in steps;
  }

  /**
   Two stops at one place where the second starts exactly when the first
   ends: the departure and the arrival at the shared time are both applied
   before that step is written, so the place never shows as empty in between.
   */
  lemma Handover(kind: string, p: string, a: Time, b: Time, c: Time)
    requires a < b < c
    ensures PlaceTimeline([StopAt(kind, p, a, b), StopAt(kind, p, b, c)], kind, p)
         == [Step(a, 1), Step(b, 1), Step(c, 0)]
  {
    HandoverEvents(kind, p, a, b, c);
    HandoverTimeline(a, b, c);
    TimelineIs([Event(a, 1), Event(b, -1), Event(b, 1), Event(c, -1)], [Step(a, 1), Step(b, 1), Step(c, 0)]);
  }

  lemma HandoverTimeline(a: Time, b: Time, c: Time)
    requires a < b < c
    ensures IsTimeline([Event(a, 1), Event(b, -1), Event(b, 1), Event(c, -1)], [Step(a, 1), Step(b, 1), Step(c, 0)])
  {
    HandoverTimes(a, b, c);
    HandoverSums(a, b, c, a);
    HandoverSums(a, b, c, b);
    HandoverSums(a, b, c, c);
  }

  lemma OverlapSums(a: Time, b: Time, c: Time, d: Time, t: Time)
    requires a < b < c < d
    ensures var events := [Event(a, 1), Event(c, -1), Event(b, 1), Event(d, -1)];
      SumUpTo(events, t) == (if d <= t then 0 else if c <= t then 1 else if b <= t then 2 else if a <= t then 1 else 0)
  {
    var first, second := [Event(a, 1), Event(c, -1)], [Event(b, 1), Event(d, -1)];
    assert first + second == [Event(a, 1), Event(c, -1), Event(b, 1), Event(d, -1)];
    SumUpToConcat(first, second, t);
    SumUpToPair(first[0], first[1], t);
    SumUpToPair(second[0], second[1], t);
  }

  lemma OverlapEvents(kind: string, p: string, a: Time, b: Time, c: Time, d: Time)
    ensures EventsOf([StopAt(kind, p, a, c), StopAt(kind, p, b, d)], kind, p)
         == [Event(a, 1), Event(c, -1), Event(b, 1), Event(d, -1)]
  {
    var stops := [StopAt(kind, p, a, c), StopAt(kind, p, b, d)];
    assert stops[..1] == [StopAt(kind, p, a, c)];
    OneStopEvents(kind, p, a, c);
  }

  lemma OverlapTimes(a: Time, b: Time, c: Time, d: Time)
    ensures EventTimes([Event(a, 1), Event(c, -1), Event(b, 1), Event(d, -1)]) == {a, b, c, d}
    ensures StepTimes([Step(a, 1), Step(b, 2), Step(c, 1), Step(d, 0)]) == {a, b, c, d}
  {
    var events := [Event(a, 1), Event(c, -1), Event(b, 1), Event(d, -1)];
    assert events[0] in events && events[1] in events && events[2] in events && events[3] in events;
    var steps := [Step(a, 1), Step(b, 2), Step(c, 1), Step(d, 0)];
    assert steps[0] in steps && steps[1] in steps && steps[2] in steps && steps[3] in steps;
  }

  /**
   Two stops at one place where the second arrives while the first is still
   there: the place holds two vehicles from the second arrival until the
   first departure.
   */
  lemma Overlap(kind: string, p: string, a: Time, b: Time, c: Time, d: Time)
    requires a < b < c < d
    ensures PlaceTimeline([StopAt(kind, p, a, c), StopAt(kind, p, b, d)], kind, p)
         == [Step(a, 1), Step(b, 2), Step(c, 1), Step(d, 0)]
  {
    OverlapEvents(kind, p, a, b, c, d);
    OverlapTimeline(a, b, c, d);
    TimelineIs([Event(a, 1), Event(c, -1), Event(b, 1), Event(d, -1)], [Step(a, 1), Step(b, 2), Step(c, 1), Step(d, 0)]);
  }

  lemma OverlapTimeline(a: Time, b: Time, c: Time, d: Time)
    requires a < b < c < d
    ensures IsTimeline([Event(a, 1), Event(c, -1), Event(b, 1), Event(d, -1)], [Step(a, 1), Step(b, 2), Step(c, 1), Step(d, 0)])
  {
    OverlapTimes(a, b, c, d);
    OverlapSums(a, b, c, d, a);
    OverlapSums(a, b, c, d, b);
    OverlapSums(a, b, c, d, c);
    OverlapSums(a, b, c, d, d);
  }
}
