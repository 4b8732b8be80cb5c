/**
 Extraction of point events from the simulation's stop output: every stop
 record that names a stopping place of the tracked type adds a +1 event at
 its start time and a -1 event at its end time to that place's list.
 */
module Extraction {
  import opened Events

  /**
   One `stopinfo` record of the stop output, already parsed: its attributes by
   name, and its `started` and `ended` times converted to numbers.
   */
  datatype StopInfo = StopInfo(attributes: map<string, string>, started: Time, ended: Time)

  /** The stopping place of type `kind` the stop was at, or "" when the record has no such attribute. */
  function PlaceOf(stop: StopInfo, kind: string): string {
    if kind in stop.attributes then stop.attributes[kind] else ""
  }

  /** The two events of one stop: its arrival, then its departure. */
  function StopEvents(stop: StopInfo): seq<Event> {
    [Event(stop.started, 1), Event(stop.ended, -1)]
  }

  /** The events one record contributes to place `p`: its two events when it is at `p`, none otherwise. */
  function Contributed(stop: StopInfo, kind: string, p: string): seq<Event> {
    if PlaceOf(stop, kind) == p then StopEvents(stop) else []
  }

  /** The events that the records of `stops` at place `p` contribute, in record order. */
  function EventsOf(stops: seq<StopInfo>, kind: string, p: string): seq<Event> {
    if stops == [] then []
    else EventsOf(stops[..|stops| - 1], kind, p) + Contributed(stops[|stops| - 1], kind, p)
  }

  /** The places some record of `stops` names. */
  function Places(stops: seq<StopInfo>, kind: string): set<string> {
    set s | s in stops && PlaceOf(s, kind) != "" :: PlaceOf(s, kind)
  }

  /** A tracked place has a non-empty name. */
  lemma PlaceNamed(stops: seq<StopInfo>, kind: string, p: string)
    requires p in Places(stops, kind)
    ensures p != ""
  {
  }

  /** Appending a record extends the list of its own place by its two events and leaves every other list alone. */
  lemma EventsOfSnoc(stops: seq<StopInfo>, stop: StopInfo, kind: string, p: string)
    ensures EventsOf(stops + [stop], kind, p) == EventsOf(stops, kind, p) + Contributed(stop, kind, p)
  {
    assert (stops + [stop])[..|stops|] == stops;
  }

  lemma PlacesSnoc(stops: seq<StopInfo>, stop: StopInfo, kind: string)
    ensures Places(stops + [stop], kind)
         == Places(stops, kind) + (if PlaceOf(stop, kind) != "" then {PlaceOf(stop, kind)} else {})
  {
    forall s | s in stops + [stop] ensures s in stops || s == stop {}
  }

  lemma {:induction false} EventsOfConcat(a: seq<StopInfo>, b: seq<StopInfo>, kind: string, p: string)
    ensures EventsOf(a + b, kind, p) == EventsOf(a, kind, p) + EventsOf(b, kind, p)
    decreases |b|
  {
    if b == [] {
      assert a + b == a;
    } else {
      var init := b[..|b| - 1];
      var last := b[|b| - 1];
      assert a + b == (a + init) + [last];
      assert b == init + [last];
      EventsOfConcat(a, init, kind, p);
      EventsOfSnoc(a + init, last, kind, p);
      EventsOfSnoc(init, last, kind, p);
    }
  }

  /** A place has events exactly when it is a non-empty name that some record carries. */
  lemma {:induction false} EventsOfNonEmpty(stops: seq<StopInfo>, kind: string, p: string)
    requires p != ""
    ensures p in Places(stops, kind) <==> EventsOf(stops, kind, p) != []
  {
    if stops != [] {
      var init := stops[..|stops| - 1];
      var last := stops[|stops| - 1];
      assert stops == init + [last];
      EventsOfNonEmpty(init, kind, p);
      PlacesSnoc(init, last, kind);
    }
  }

  /** Each record adds its events in pairs, so every list has an even length. */
  lemma {:induction false} EventsOfEven(stops: seq<StopInfo>, kind: string, p: string)
    ensures |EventsOf(stops, kind, p)| % 2 == 0
  {
    if stops != [] {
      EventsOfEven(stops[..|stops| - 1], kind, p);
    }
  }

  lemma ContributedBalanced(stop: StopInfo, kind: string, p: string)
    ensures Sum(Contributed(stop, kind, p)) == 0
  {
    SumPair(Event(stop.started, 1), Event(stop.ended, -1));
  }

  /** Every extracted list is balanced: each +1 is matched by a -1, so its deltas sum to zero. */
  lemma {:induction false} EventsOfBalanced(stops: seq<StopInfo>, kind: string, p: string)
    ensures Sum(EventsOf(stops, kind, p)) == 0
  {
    if stops != [] {
      var init := stops[..|stops| - 1];
      var last := stops[|stops| - 1];
      EventsOfBalanced(init, kind, p);
      ContributedBalanced(last, kind, p);
      SumConcat(EventsOf(init, kind, p), Contributed(last, kind, p));
    }
  }

  /** Reordering the records reorders each place's events but keeps them as a multiset. */
  lemma {:induction false} EventsOfPermutation(a: seq<StopInfo>, b: seq<StopInfo>, kind: string, p: string)
    requires multiset(a) == multiset(b)
    ensures multiset(EventsOf(a, kind, p)) == multiset(EventsOf(b, kind, p))
    decreases |a|
  {
    if a == [] {
      assert |multiset(b)| == 0;
      assert b == [];
    } else {
      var init := a[..|a| - 1];
      var x := a[|a| - 1];
      assert a == init + [x];
      assert x in multiset(b);
      var k :| 0 <= k < |b| && b[k] == x;
      var rest := b[..k] + b[k + 1..];
      assert b == b[..k] + [x] + b[k + 1..];
      assert multiset(init) == multiset(rest) by {
        assert multiset(a) == multiset(init) + multiset{x};
        assert multiset(b) == multiset(b[..k]) + multiset{x} + multiset(b[k + 1..]);
        assert multiset(rest) == multiset(b[..k]) + multiset(b[k + 1..]);
        assert multiset(init) == multiset(a) - multiset{x};
        assert multiset(rest) == multiset(b) - multiset{x};
      }
      EventsOfPermutation(init, rest, kind, p);
      EventsOfConcat(init, [x], kind, p);
      EventsOfConcat(b[..k], b[k + 1..], kind, p);
      EventsOfConcat(b[..k] + [x], b[k + 1..], kind, p);
      EventsOfConcat(b[..k], [x], kind, p);
    }
  }

  /** Reordering the records does not change which places are tracked. */
  lemma PlacesPermutation(a: seq<StopInfo>, b: seq<StopInfo>, kind: string)
    requires multiset(a) == multiset(b)
    ensures Places(a, kind) == Places(b, kind)
  {
    forall s ensures s in a <==> s in b {
      assert s in a <==> s in multiset(a);
      assert s in b <==> s in multiset(b);
    }
  }

  /** Whether the stop covers time `t`: it has started at or before `t` and has not yet ended. */
  predicate Covers(stop: StopInfo, t: Time) {
    stop.started <= t < stop.ended
  }

  /** The number of records at place `p` whose stop covers time `t`. */
  function ActiveStops(stops: seq<StopInfo>, kind: string, p: string, t: Time): nat {
    if stops == [] then 0
    else
      var last := stops[|stops| - 1];
      ActiveStops(stops[..|stops| - 1], kind, p, t) + (if PlaceOf(last, kind) == p && Covers(last, t) then 1 else 0)
  }

  lemma ContributedActive(stop: StopInfo, kind: string, p: string, t: Time)
    requires stop.started <= stop.ended
    ensures SumUpTo(Contributed(stop, kind, p), t) == if PlaceOf(stop, kind) == p && Covers(stop, t) then 1 else 0
  {
    SumUpToPair(Event(stop.started, 1), Event(stop.ended, -1), t);
  }

  /**
   When no stop ends before it starts, the occupancy the events of place `p`
   give at time `t` is the number of stops at `p` covering `t`.
   */
  lemma {:induction false} OccupancyIsActiveStops(stops: seq<StopInfo>, kind: string, p: string, t: Time)
    requires forall s :: s in stops ==> s.started <= s.ended
    ensures SumUpTo(EventsOf(stops, kind, p), t) == ActiveStops(stops, kind, p, t)
  {
    if stops != [] {
      var init := stops[..|stops| - 1];
      var last := stops[|stops| - 1];
      assert forall s :: s in init ==> s in stops;
      assert last in stops;
      OccupancyIsActiveStops(init, kind, p, t);
      ContributedActive(last, kind, p, t);
      SumUpToConcat(EventsOf(init, kind, p), Contributed(last, kind, p), t);
    }
  }

  /** The map holds, for every tracked place of `stops` and only for those, its events. */
  ghost predicate Extracted(counts: map<string, seq<Event>>, stops: seq<StopInfo>, kind: string) {
    && counts.Keys == Places(stops, kind)
    && forall p :: p in counts ==> counts[p] == EventsOf(stops, kind, p)
  }

  /** One record keeps the key set equal to the tracked places. */
  lemma ExtractKeysStep(done: seq<StopInfo>, stop: StopInfo, kind: string,
                        before: map<string, seq<Event>>, after: map<string, seq<Event>>)
    requires before.Keys == Places(done, kind)
    requires var place := PlaceOf(stop, kind);
      after.Keys == if place == "" then before.Keys else before.Keys + {place}
    ensures after.Keys == Places(done + [stop], kind)
  {
    PlacesSnoc(done, stop, kind);
  }

  /** One record extends its own place's list by its two events and leaves the other lists alone. */
  lemma ExtractValuesStep(done: seq<StopInfo>, stop: StopInfo, kind: string,
                          before: map<string, seq<Event>>, after: map<string, seq<Event>>)
    requires Extracted(before, done, kind)
    requires var place := PlaceOf(stop, kind);
      after == if place == "" then before
               else before[place := (if place in before then before[place] else []) + StopEvents(stop)]
    ensures forall p :: p in after ==> after[p] == EventsOf(done + [stop], kind, p)
  {
    var place := PlaceOf(stop, kind);
    if place != "" && place !in before {
      EventsOfNonEmpty(done, kind, place);
    }
    forall p | p in after ensures after[p] == EventsOf(done + [stop], kind, p) {
      EventsOfSnoc(done, stop, kind, p);
    }
  }

  /** One turn of the extraction loop keeps the map equal to what the records so far contribute. */
  lemma ExtractStep(stops: seq<StopInfo>, i: nat, kind: string,
                    before: map<string, seq<Event>>, after: map<string, seq<Event>>)
    requires i < |stops|
    requires Extracted(before, stops[..i], kind)
    requires var place := PlaceOf(stops[i], kind);
      after == if place == "" then before
               else before[place := (if place in before then before[place] else []) + StopEvents(stops[i])]
    ensures Extracted(after, stops[..i + 1], kind)
  {
    assert stops[..i + 1] == stops[..i] + [stops[i]];
    ExtractKeysStep(stops[..i], stops[i], kind, before, after);
    ExtractValuesStep(stops[..i], stops[i], kind, before, after);
  }

  /** The two appends of one record, one event each, give the list extended by both. */
  lemma AppendBoth(m: map<string, seq<Event>>, k: string, xs: seq<Event>, a: Event, b: Event)
    ensures var m' := m[k := xs + [a]]; m'[k := m'[k] + [b]] == m[k := xs + [a, b]]
  {
    assert xs + [a] + [b] == xs + [a, b];
  }

  /**
   The extraction loop: every record whose attribute `kind` is non-empty
   appends its start event and then its end event to the list of its place; a
   place's list comes into being on its first record.
   */
  method Extract(stops: seq<StopInfo>, kind: string) returns (counts: map<string, seq<Event>>)
    ensures counts.Keys == Places(stops, kind)
    ensures forall p :: p in counts ==> counts[p] == EventsOf(stops, kind, p)
  {
    counts := map[];
    for i := 0 to |stops|
      invariant Extracted(counts, stops[..i], kind)
    {
      var stop := stops[i];
      ghost var before := counts;
      var place := PlaceOf(stop, kind);
      if place != "" {
        var times := if place in counts then counts[place] else [];
        AppendBoth(counts, place, times, Event(stop.started, 1), Event(stop.ended, -1));
        counts := counts[place := times + [Event(stop.started, 1)]];
        counts := counts[place := counts[place] + [Event(stop.ended, -1)]];
      }
      ExtractStep(stops, i, kind, before, counts);
    }
    assert stops[..|stops|] == stops;
  }
}
