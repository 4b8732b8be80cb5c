/**
 The occupancy timeline of one stopping place: the sweep that turns its
 unordered event list into steps `(time, count)`, one per distinct event time
 in increasing order, each carrying the occupancy once every event at or
 before that time has been applied.
 */
module Timeline {
  import opened Events
  import opened Wrappers

  /** One row of the output: the occupancy `count` holding from `time` until the next step. */
  datatype Step = Step(time: Time, count: int)

  ghost predicate StrictlyIncreasing(steps: seq<Step>) {
    forall i, j :: 0 <= i < j < |steps| ==> steps[i].time < steps[j].time
  }

  function StepTimes(steps: seq<Step>): set<Time> {
    set s | s in steps :: s.time
  }

  /**
   What a timeline of `events` is: strictly increasing times, exactly the
   distinct event times, and at each the sum of every delta up to that time.
   */
  ghost predicate IsTimeline(events: seq<Event>, steps: seq<Step>) {
    && StrictlyIncreasing(steps)
    && StepTimes(steps) == EventTimes(events)
    && forall k :: 0 <= k < |steps| ==> steps[k].count == SumUpTo(events, steps[k].time)
  }

  ghost predicate Increasing(ts: seq<Time>) {
    forall i, j :: 0 <= i < j < |ts| ==> ts[i] < ts[j]
  }

  /** The times of `s`, each run of equal times collapsed to one. */
  function DistinctTimes(s: seq<Event>): seq<Time> {
    if s == [] then []
    else if |s| == 1 || s[0].time != s[1].time then [s[0].time] + DistinctTimes(s[1..])
    else DistinctTimes(s[1..])
  }

  /**
   The reference timeline, stated without a sweep: the distinct event times in
   increasing order, each paired with the sum of the deltas up to it.
   */
  function TimelineSpec(events: seq<Event>): seq<Step> {
    var ts := DistinctTimes(Sort(events));
    seq(|ts|, i requires 0 <= i < |ts| => Step(ts[i], SumUpTo(events, ts[i])))
  }

  lemma EventTimesCons(s: seq<Event>)
    requires s != []
    ensures EventTimes(s) == {s[0].time} + EventTimes(s[1..])
  {
    assert s == [s[0]] + s[1..];
    forall e | e in s ensures e == s[0] || e in s[1..] {}
  }

  /** DistinctTimes keeps every time of `s` and adds none. */
  lemma {:induction false} DistinctTimesElements(s: seq<Event>)
    ensures (set x | x in DistinctTimes(s)) == EventTimes(s)
  {
    if s != [] {
      DistinctTimesElements(s[1..]);
      EventTimesCons(s);
      if |s| > 1 && s[0].time == s[1].time {
        assert s[1] in s[1..];
      }
    }
  }

  /** In a list sorted by time, every later time is at least the first. */
  lemma FirstTimeIsLeast(s: seq<Event>, x: Time)
    requires TimeSorted(s) && s != []
    requires x in EventTimes(s)
    ensures s[0].time <= x
  {
    var e :| e in s && e.time == x;
    var k :| 0 <= k < |s| && s[k] == e;
    assert k == 0 || s[0].time <= s[k].time;
  }

  /** Of a list sorted by time, DistinctTimes is strictly increasing. */
  lemma {:induction false} DistinctTimesIncreasing(s: seq<Event>)
    requires TimeSorted(s)
    ensures Increasing(DistinctTimes(s))
  {
    if s != [] {
      var rest := DistinctTimes(s[1..]);
      assert TimeSorted(s[1..]);
      DistinctTimesIncreasing(s[1..]);
      if |s| == 1 || s[0].time != s[1].time {
        var r := DistinctTimes(s);
        assert r == [s[0].time] + rest;
        if |s| > 1 {
          DistinctTimesElements(s[1..]);
          assert s[0].time < s[1].time;
          forall x | x in rest ensures s[0].time < x {
            FirstTimeIsLeast(s[1..], x);
          }
        }
        forall i, j | 0 <= i < j < |r| ensures r[i] < r[j] {
          assert r[j] == rest[j - 1] && rest[j - 1] in rest;
          if i > 0 {
            assert r[i] == rest[i - 1];
          }
        }
      }
    }
  }

  lemma StepTimesTail(steps: seq<Step>)
    requires steps != [] && StrictlyIncreasing(steps)
    ensures StepTimes(steps[1..]) == StepTimes(steps) - {steps[0].time}
  {
    assert steps == [steps[0]] + steps[1..];
    forall s | s in steps[1..] ensures s.time != steps[0].time {
      var k :| 0 <= k < |steps[1..]| && steps[1..][k] == s;
      assert steps[0].time < steps[k + 1].time;
    }
  }

  lemma StepTimesEmpty(steps: seq<Step>)
    ensures steps == [] <==> StepTimes(steps) == {}
  {
    if steps != [] {
      assert steps[0].time in StepTimes(steps);
    }
  }

  lemma FirstIsLeast(steps: seq<Step>, t: Time)
    requires StrictlyIncreasing(steps)
    requires t in StepTimes(steps)
    ensures steps[0].time <= t
  {
    var s :| s in steps && s.time == t;
    var k :| 0 <= k < |steps| && steps[k] == s;
    assert k == 0 || steps[0].time < steps[k].time;
  }

  /**
   Two strictly increasing step lists over the same times, whose counts are
   both the occupancy of `events`, are equal.
   */
  lemma {:induction false} StepsUnique(events: seq<Event>, a: seq<Step>, b: seq<Step>)
    requires StrictlyIncreasing(a) && StrictlyIncreasing(b)
    requires StepTimes(a) == StepTimes(b)
    requires forall k :: 0 <= k < |a| ==> a[k].count == SumUpTo(events, a[k].time)
    requires forall k :: 0 <= k < |b| ==> b[k].count == SumUpTo(events, b[k].time)
    ensures a == b
  {
    StepTimesEmpty(a);
    StepTimesEmpty(b);
    if a != [] {
      FirstIsLeast(b, a[0].time);
      FirstIsLeast(a, b[0].time);
      assert a[0] == b[0];
      StepTimesTail(a);
      StepTimesTail(b);
      StepsUnique(events, a[1..], b[1..]);
      assert a == [a[0]] + a[1..];
      assert b == [b[0]] + b[1..];
    }
  }

  /** A list of events has exactly one timeline. */
  lemma TimelineUnique(events: seq<Event>, a: seq<Step>, b: seq<Step>)
    requires IsTimeline(events, a) && IsTimeline(events, b)
    ensures a == b
  {
    StepsUnique(events, a, b);
  }

  /** Whether a step list is the timeline of an event list depends only on the multiset of events. */
  lemma TimelineOfPermutation(a: seq<Event>, b: seq<Event>, steps: seq<Step>)
    requires multiset(a) == multiset(b)
    requires IsTimeline(a, steps)
    ensures IsTimeline(b, steps)
  {
    EventTimesPermutation(a, b);
    forall k | 0 <= k < |steps| ensures steps[k].count == SumUpTo(b, steps[k].time) {
      SumUpToPermutation(a, b, steps[k].time);
    }
  }

  /** The reference definition meets the timeline properties. */
  lemma TimelineSpecIsTimeline(events: seq<Event>)
    ensures IsTimeline(events, TimelineSpec(events))
  {
    var sorted := Sort(events);
    var ts := DistinctTimes(sorted);
    var steps := TimelineSpec(events);
    SortedIsTimeSorted(sorted);
    DistinctTimesElements(sorted);
    DistinctTimesIncreasing(sorted);
    EventTimesPermutation(sorted, events);
    assert forall k :: 0 <= k < |steps| ==> steps[k].time == ts[k];
    forall t ensures t in StepTimes(steps) <==> t in ts {
      if t in ts {
        var k :| 0 <= k < |ts| && ts[k] == t;
        assert steps[k] in steps;
      }
    }
  }

  /** The step list does not depend on the order in which the events came. */
  lemma TimelineOrderIndependent(a: seq<Event>, b: seq<Event>)
    requires multiset(a) == multiset(b)
    ensures TimelineSpec(a) == TimelineSpec(b)
  {
    TimelineSpecIsTimeline(a);
    TimelineSpecIsTimeline(b);
    TimelineOfPermutation(a, b, TimelineSpec(a));
    TimelineUnique(b, TimelineSpec(a), TimelineSpec(b));
  }

  /** The last step carries the sum of all deltas. */
  lemma LastStepIsTotal(events: seq<Event>, steps: seq<Step>)
    requires IsTimeline(events, steps)
    requires events != []
    ensures steps != []
    ensures steps[|steps| - 1].count == Sum(events)
  {
    assert events[0].time in EventTimes(events);
    var last := steps[|steps| - 1];
    forall e | e in events ensures e.time <= last.time {
      assert e.time in StepTimes(steps);
      var s :| s in steps && s.time == e.time;
      var k :| 0 <= k < |steps| && steps[k] == s;
      assert k == |steps| - 1 || steps[k].time < last.time;
    }
    SumUpToAll(events, last.time);
  }

  /** The reference timeline of a non-empty event list ends with the sum of all deltas. */
  lemma TimelineSpecLast(events: seq<Event>)
    requires events != []
    ensures TimelineSpec(events) != []
    ensures TimelineSpec(events)[|TimelineSpec(events)| - 1].count == Sum(events)
  {
    TimelineSpecIsTimeline(events);
    LastStepIsTotal(events, TimelineSpec(events));
  }

  /** When the deltas cancel out, the reference timeline ends at zero. */
  lemma BalancedTimelineEndsEmpty(events: seq<Event>)
    requires events != [] && Sum(events) == 0
    ensures TimelineSpec(events) != []
    ensures TimelineSpec(events)[|TimelineSpec(events)| - 1].count == 0
  {
    TimelineSpecLast(events);
  }

  /**
   From one step to the next, the count changes by exactly the deltas at the
   later step's time; the first step's count is the deltas at its own time.
   */
  lemma StepChange(events: seq<Event>, steps: seq<Step>, i: nat)
    requires IsTimeline(events, steps)
    requires i < |steps|
    ensures steps[i].count == (if i == 0 then 0 else steps[i - 1].count) + SumAt(events, steps[i].time)
  {
    forall e | e in events
      ensures if i == 0 then steps[0].time <= e.time
              else e.time <= steps[i - 1].time || steps[i].time <= e.time
    {
      assert e.time in StepTimes(steps);
      var s :| s in steps && s.time == e.time;
      var k :| 0 <= k < |steps| && steps[k] == s;
      assert k < i || i <= k;
      if i > 0 && k < i {
        assert k == i - 1 || steps[k].time < steps[i - 1].time;
      }
      if i == 0 {
        assert k == 0 || steps[0].time < steps[k].time;
      }
    }
    if i == 0 {
      SumUpToFirst(events, steps[0].time);
    } else {
      SumUpToStep(events, steps[i - 1].time, steps[i].time);
    }
  }

  lemma EventTimesSnoc(s: seq<Event>, x: Event)
    ensures EventTimes(s + [x]) == EventTimes(s) + {x.time}
  {
    forall e | e in s + [x] ensures e in s || e == x {}
  }

  lemma StepTimesSnoc(steps: seq<Step>, x: Step)
    ensures StepTimes(steps + [x]) == StepTimes(steps) + {x.time}
  {
    forall s | s in steps + [x] ensures s in steps || s == x {}
  }

  /**
   What the sweep has established after the first `i` sorted events: the steps
   emitted so far are the timeline of every time before the current one, whose
   step is still pending.
   */
  ghost predicate SweptUpTo(sorted: seq<Event>, i: nat, steps: seq<Step>) {
    && 0 < i <= |sorted|
    && StrictlyIncreasing(steps)
    && (forall k :: 0 <= k < |steps| ==> steps[k].time < sorted[i - 1].time)
    && StepTimes(steps) + {sorted[i - 1].time} == EventTimes(sorted[..i])
    && (forall k :: 0 <= k < |steps| ==> steps[k].count == SumUpTo(sorted, steps[k].time))
  }

  lemma SweepStart(sorted: seq<Event>)
    requires sorted != []
    ensures SweptUpTo(sorted, 1, [])
  {
    assert sorted[..1] == [sorted[0]];
    assert EventTimes(sorted[..1]) == {sorted[0].time};
  }

  /** An event at the pending time only joins the pending step. */
  lemma SweepSameTime(sorted: seq<Event>, i: nat, steps: seq<Step>)
    requires SweptUpTo(sorted, i, steps)
    requires i < |sorted| && sorted[i].time == sorted[i - 1].time
    ensures SweptUpTo(sorted, i + 1, steps)
  {
    assert sorted[..i + 1] == sorted[..i] + [sorted[i]];
    EventTimesSnoc(sorted[..i], sorted[i]);
  }

  /** An event at a new time closes the pending step, whose count is then final. */
  lemma SweepNewTime(sorted: seq<Event>, i: nat, steps: seq<Step>, count: int)
    requires TimeSorted(sorted)
    requires SweptUpTo(sorted, i, steps)
    requires i < |sorted| && sorted[i].time != sorted[i - 1].time
    requires count == RunningSum(sorted, i)
    ensures SweptUpTo(sorted, i + 1, steps + [Step(sorted[i - 1].time, count)])
  {
    var tPrev := sorted[i - 1].time;
    assert tPrev < sorted[i].time;
    RunningSumIsSum(sorted, i);
    PrefixSum(sorted, i, tPrev);
    ExtendSteps(sorted, steps, Step(tPrev, count), sorted[i].time);
    assert sorted[..i + 1] == sorted[..i] + [sorted[i]];
    EventTimesSnoc(sorted[..i], sorted[i]);
  }

  /** Appending a step later than all others, with its own correct count, keeps the steps a partial timeline. */
  lemma ExtendSteps(events: seq<Event>, steps: seq<Step>, x: Step, next: Time)
    requires StrictlyIncreasing(steps)
    requires forall k :: 0 <= k < |steps| ==> steps[k].time < x.time
    requires forall k :: 0 <= k < |steps| ==> steps[k].count == SumUpTo(events, steps[k].time)
    requires x.time < next
    requires x.count == SumUpTo(events, x.time)
    ensures StrictlyIncreasing(steps + [x])
    ensures forall k :: 0 <= k < |steps + [x]| ==> (steps + [x])[k].time < next
    ensures forall k :: 0 <= k < |steps + [x]| ==> (steps + [x])[k].count == SumUpTo(events, (steps + [x])[k].time)
    ensures StepTimes(steps + [x]) == StepTimes(steps) + {x.time}
  {
    CloseSteps(events, steps, x);
    var steps' := steps + [x];
    assert forall k :: 0 <= k < |steps| ==> steps'[k] == steps[k];
  }

  /** After the last event the pending step, carrying the total of all deltas, closes the timeline. */
  lemma SweepFinish(sorted: seq<Event>, steps: seq<Step>, last: Step)
    requires TimeSorted(sorted)
    requires SweptUpTo(sorted, |sorted|, steps)
    requires last.time == sorted[|sorted| - 1].time
    requires last.count == RunningSum(sorted, |sorted|)
    ensures IsTimeline(sorted, steps + [last])
  {
    RunningSumIsSum(sorted, |sorted|);
    assert sorted[..|sorted|] == sorted;
    PrefixSum(sorted, |sorted|, last.time);
    CloseSteps(sorted, steps, last);
  }

  /** Appending a final step later than all others, with its own correct count, keeps the counts correct. */
  lemma CloseSteps(events: seq<Event>, steps: seq<Step>, x: Step)
    requires StrictlyIncreasing(steps)
    requires forall k :: 0 <= k < |steps| ==> steps[k].time < x.time
    requires forall k :: 0 <= k < |steps| ==> steps[k].count == SumUpTo(events, steps[k].time)
    requires x.count == SumUpTo(events, x.time)
    ensures StrictlyIncreasing(steps + [x])
    ensures forall k :: 0 <= k < |steps + [x]| ==> (steps + [x])[k].count == SumUpTo(events, (steps + [x])[k].time)
    ensures StepTimes(steps + [x]) == StepTimes(steps) + {x.time}
  {
    StepTimesSnoc(steps, x);
    var steps' := steps + [x];
    assert forall k :: 0 <= k < |steps| ==> steps'[k] == steps[k];
  }

  /** A timeline of the sorted events is the timeline of the events as they came. */
  lemma TimelineOfSorted(times: seq<Event>, sorted: seq<Event>, steps: seq<Step>)
    requires sorted == Sort(times)
    requires IsTimeline(sorted, steps)
    ensures IsTimeline(times, steps)
    ensures steps == TimelineSpec(times)
  {
    TimelineOfPermutation(sorted, times, steps);
    TimelineSpecIsTimeline(times);
    TimelineUnique(times, steps, TimelineSpec(times));
  }

  /**
   The sweep over one place's sorted events: a running count, where the
   previous time's step is emitted only when the time changes, and one final
   step after the loop. Events sharing a time are therefore all applied before
   their step is recorded.
   */
  method Sweep(sorted: seq<Event>) returns (steps: seq<Step>)
    requires sorted != []
    requires TimeSorted(sorted)
    ensures IsTimeline(sorted, steps)
  {
    steps := [];
    var tPrev: Option<Time> := None;
    var count := 0;
    var i := 0;
    while i < |sorted|
      invariant 0 <= i <= |sorted|
      invariant tPrev == if i == 0 then None else Some(sorted[i - 1].time)
      invariant count == RunningSum(sorted, i)
      invariant i == 0 ==> steps == []
      invariant i > 0 ==> SweptUpTo(sorted, i, steps)
    {
      var t, change := sorted[i].time, sorted[i].delta;
      if tPrev.Some? && t != tPrev.value {
        SweepNewTime(sorted, i, steps, count);
        steps := steps + [Step(tPrev.value, count)];
      } else if tPrev.Some? {
        SweepSameTime(sorted, i, steps);
      } else {
        SweepStart(sorted);
      }
      count := count + change;
      tPrev := Some(t);
      i := i + 1;
    }
    var last := Step(tPrev.value, count);
    SweepFinish(sorted, steps, last);
    steps := steps + [last];
  }

  /**
   The builder for one stopping place: sort its events, then sweep them. The
   result is the reference timeline of the events as they came.
   */
  method BuildTimeline(times: seq<Event>) returns (steps: seq<Step>)
    requires times != []
    ensures StrictlyIncreasing(steps)
    ensures StepTimes(steps) == EventTimes(times)
    ensures forall k :: 0 <= k < |steps| ==> steps[k].count == SumUpTo(times, steps[k].time)
    ensures steps == TimelineSpec(times)
  {
    var sorted := Sort(times);
    SortedIsTimeSorted(sorted);
    steps := Sweep(sorted);
    TimelineOfSorted(times, sorted, steps);
  }
}
