/**
 Point events of one stopping place: a stop contributes +1 at the time it
 starts and -1 at the time it ends. This module holds the sums over event
 lists that the occupancy timeline is specified by, and the ordering that the
 event lists are sorted by before the sweep.
 */
module Events {

  /** A parsed simulation time. Times are only compared, never added. */
  type Time = real

  /** A signed point event: `delta` is +1 for a stop that starts, -1 for one that ends. */
  datatype Event = Event(time: Time, delta: int)

  /** The sum of every delta in `s`. */
  function Sum(s: seq<Event>): int {
    if s == [] then 0 else s[0].delta + Sum(s[1..])
  }

  /** The delta `e` contributes to the occupancy at time `t`. */
  function Contribution(e: Event, t: Time): int {
    if e.time <= t then e.delta else 0
  }

  /** The sum of the deltas whose time is at most `t`. */
  function SumUpTo(s: seq<Event>, t: Time): int {
    if s == [] then 0 else Contribution(s[0], t) + SumUpTo(s[1..], t)
  }

  /** The sum of the deltas whose time is exactly `t`. */
  function SumAt(s: seq<Event>, t: Time): int {
    if s == [] then 0 else (if s[0].time == t then s[0].delta else 0) + SumAt(s[1..], t)
  }

  /** The set of times at which some event of `s` happens. */
  function EventTimes(s: seq<Event>): set<Time> {
    set e | e in s :: e.time
  }

  /** Python's order on `(time, delta)` tuples: by time, then by delta. */
  predicate Before(a: Event, b: Event) {
    a.time < b.time || (a.time == b.time && a.delta <= b.delta)
  }

  predicate Sorted(s: seq<Event>) {
    forall i, j :: 0 <= i < j < |s| ==> Before(s[i], s[j])
  }

  /** Sorted by time alone; this is all the sweep relies on. */
  predicate TimeSorted(s: seq<Event>) {
    forall i, j :: 0 <= i < j < |s| ==> s[i].time <= s[j].time
  }

  /** Inserts `x` into the sorted list `s` at its place. */
  function Insert(x: Event, s: seq<Event>): (r: seq<Event>)
    requires Sorted(s)
    ensures Sorted(r)
    ensures |r| == |s| + 1
    ensures multiset(r) == multiset(s) + multiset{x}
  {
    if s == [] then [x]
    else if Before(x, s[0]) then [x] + s
    else
      var rest := Insert(x, s[1..]);
      InsertAfter(x, s, rest);
      assert s == [s[0]] + s[1..];
      [s[0]] + rest
  }

  /** Everything `Insert` puts after the head of `s` comes after that head. */
  lemma InsertAfter(x: Event, s: seq<Event>, rest: seq<Event>)
    requires Sorted(s) && s != [] && !Before(x, s[0])
    requires multiset(rest) == multiset(s[1..]) + multiset{x}
    ensures forall j :: 0 <= j < |rest| ==> Before(s[0], rest[j])
  {
    forall j | 0 <= j < |rest| ensures Before(s[0], rest[j]) {
      assert rest[j] in multiset(rest);
      if rest[j] != x {
        assert rest[j] in multiset(s[1..]);
        var k :| 0 <= k < |s[1..]| && s[1..][k] == rest[j];
        assert Before(s[0], s[k + 1]);
      }
    }
  }

  /**
   The list sorted by `Before`. It stands for the library sort applied to an
   event list; by SortedUnique every correct sort produces this same list.
   */
  function Sort(s: seq<Event>): (r: seq<Event>)
    ensures Sorted(r)
    ensures |r| == |s|
    ensures multiset(r) == multiset(s)
  {
    if s == [] then []
    else
      assert s == [s[0]] + s[1..];
      Insert(s[0], Sort(s[1..]))
  }

  lemma SortedIsTimeSorted(s: seq<Event>)
    requires Sorted(s)
    ensures TimeSorted(s)
  {
    forall i, j | 0 <= i < j < |s| ensures s[i].time <= s[j].time {
      assert Before(s[i], s[j]);
    }
  }

  /** Two sorted lists with the same elements are the same list. */
  lemma {:induction false} SortedUnique(a: seq<Event>, b: seq<Event>)
    requires Sorted(a) && Sorted(b)
    requires multiset(a) == multiset(b)
    ensures a == b
  {
    if a == [] {
      assert |multiset(b)| == 0;
    } else {
      assert a[0] in multiset(b);
      var k :| 0 <= k < |b| && b[k] == a[0];
      assert b[0] in multiset(a);
      var m :| 0 <= m < |a| && a[m] == b[0];
      assert Before(b[0], a[0]) by {
        if k != 0 { assert Before(b[0], b[k]); }
      }
      assert Before(a[0], b[0]) by {
        if m != 0 { assert Before(a[0], a[m]); }
      }
      assert a[0] == b[0];
      TailElements(a);
      TailElements(b);
      assert Sorted(a[1..]);
      assert Sorted(b[1..]);
      SortedUnique(a[1..], b[1..]);
    }
  }

  lemma TailElements(s: seq<Event>)
    requires s != []
    ensures multiset(s[1..]) == multiset(s) - multiset{s[0]}
  {
    assert s == [s[0]] + s[1..];
  }

  /** Sorting depends only on the multiset of events, not on their order. */
  lemma SortDeterminedByElements(a: seq<Event>, b: seq<Event>)
    requires multiset(a) == multiset(b)
    ensures Sort(a) == Sort(b)
  {
    SortedUnique(Sort(a), Sort(b));
  }

  lemma {:induction false} SumUpToInsert(x: Event, s: seq<Event>, t: Time)
    requires Sorted(s)
    ensures SumUpTo(Insert(x, s), t) == Contribution(x, t) + SumUpTo(s, t)
  {
    if s != [] && !Before(x, s[0]) {
      SumUpToInsert(x, s[1..], t);
      assert ([s[0]] + Insert(x, s[1..]))[1..] == Insert(x, s[1..]);
    } else if s != [] {
      assert ([x] + s)[1..] == s;
    }
  }

  /** Sorting does not change the occupancy at any time. */
  lemma {:induction false} SumUpToSort(s: seq<Event>, t: Time)
    ensures SumUpTo(Sort(s), t) == SumUpTo(s, t)
  {
    if s != [] {
      SumUpToSort(s[1..], t);
      SumUpToInsert(s[0], Sort(s[1..]), t);
    }
  }

  /** The occupancy at every time depends only on the multiset of events. */
  lemma SumUpToPermutation(a: seq<Event>, b: seq<Event>, t: Time)
    requires multiset(a) == multiset(b)
    ensures SumUpTo(a, t) == SumUpTo(b, t)
  {
    SumUpToSort(a, t);
    SumUpToSort(b, t);
    SortDeterminedByElements(a, b);
  }

  lemma EventTimesPermutation(a: seq<Event>, b: seq<Event>)
    requires multiset(a) == multiset(b)
    ensures EventTimes(a) == EventTimes(b)
  {
    forall e ensures e in a <==> e in b {
      assert e in a <==> e in multiset(a);
      assert e in b <==> e in multiset(b);
    }
  }

  /**
   In a list sorted by time, the events up to index `i` are those at or before
   `t` when the event at `i - 1` is at most `t` and the event at `i` is later:
   the occupancy at `t` is then the running sum of the first `i` deltas.
   */
  lemma {:induction false} PrefixSum(s: seq<Event>, i: nat, t: Time)
    requires TimeSorted(s)
    requires i <= |s|
    requires 0 < i ==> s[i - 1].time <= t
    requires i < |s| ==> t < s[i].time
    ensures SumUpTo(s, t) == Sum(s[..i])
  {
    if s != [] {
      assert TimeSorted(s[1..]);
      if i == 0 {
        assert 0 < |s[1..]| ==> t < s[1..][0].time;
        PrefixSum(s[1..], 0, t);
      } else {
        assert s[..i][1..] == s[1..][..i - 1];
        PrefixSum(s[1..], i - 1, t);
      }
    }
  }

  lemma {:induction false} SumSnoc(s: seq<Event>, x: Event)
    ensures Sum(s + [x]) == Sum(s) + x.delta
  {
    if s != [] {
      assert (s + [x])[1..] == s[1..] + [x];
      SumSnoc(s[1..], x);
    }
  }

  /** The sum of the first `i` deltas of `s`, accumulated front to back as the sweep does. */
  function RunningSum(s: seq<Event>, i: nat): int
    requires i <= |s|
  {
    if i == 0 then 0 else RunningSum(s, i - 1) + s[i - 1].delta
  }

  lemma {:induction false} RunningSumIsSum(s: seq<Event>, i: nat)
    requires i <= |s|
    ensures RunningSum(s, i) == Sum(s[..i])
  {
    if i > 0 {
      RunningSumIsSum(s, i - 1);
      assert s[..i] == s[..i - 1] + [s[i - 1]];
      SumSnoc(s[..i - 1], s[i - 1]);
    }
  }

  lemma {:induction false} SumConcat(a: seq<Event>, b: seq<Event>)
    ensures Sum(a + b) == Sum(a) + Sum(b)
  {
    if a == [] {
      assert a + b == b;
    } else {
      assert (a + b)[1..] == a[1..] + b;
      SumConcat(a[1..], b);
    }
  }

  lemma {:induction false} SumUpToConcat(a: seq<Event>, b: seq<Event>, t: Time)
    ensures SumUpTo(a + b, t) == SumUpTo(a, t) + SumUpTo(b, t)
  {
    if a == [] {
      assert a + b == b;
    } else {
      assert (a + b)[1..] == a[1..] + b;
      SumUpToConcat(a[1..], b, t);
    }
  }

  lemma SumUpToPair(a: Event, b: Event, t: Time)
    ensures SumUpTo([a, b], t) == Contribution(a, t) + Contribution(b, t)
  {
    assert [a, b][1..] == [b];
    assert [b][1..] == [];
    assert SumUpTo([b], t) == Contribution(b, t) + SumUpTo([], t);
    assert SumUpTo([a, b], t) == Contribution(a, t) + SumUpTo([b], t);
  }

  lemma SumPair(a: Event, b: Event)
    ensures Sum([a, b]) == a.delta + b.delta
  {
    assert [a, b][1..] == [b];
    assert [b][1..] == [];
    assert Sum([b]) == b.delta + Sum([]);
    assert Sum([a, b]) == a.delta + Sum([b]);
  }

  /** Once `t` is at or after every event, the occupancy at `t` is the total of all deltas. */
  lemma {:induction false} SumUpToAll(s: seq<Event>, t: Time)
    requires forall e :: e in s ==> e.time <= t
    ensures SumUpTo(s, t) == Sum(s)
  {
    if s != [] {
      assert forall e :: e in s[1..] ==> e in s;
      SumUpToAll(s[1..], t);
    }
  }

  /**
   When no event lies strictly between `t1` and `t2`, the occupancy at `t2`
   is the occupancy at `t1` plus the deltas at exactly `t2`.
   */
  lemma {:induction false} SumUpToStep(s: seq<Event>, t1: Time, t2: Time)
    requires t1 < t2
    requires forall e :: e in s ==> e.time <= t1 || t2 <= e.time
    ensures SumUpTo(s, t2) == SumUpTo(s, t1) + SumAt(s, t2)
  {
    if s != [] {
      assert forall e :: e in s[1..] ==> e in s;
      SumUpToStep(s[1..], t1, t2);
    }
  }

  /** Before the first event time, nothing has happened yet. */
  lemma {:induction false} SumUpToFirst(s: seq<Event>, t: Time)
    requires forall e :: e in s ==> t <= e.time
    ensures SumUpTo(s, t) == SumAt(s, t)
  {
    if s != [] {
      assert forall e :: e in s[1..] ==> e in s;
      SumUpToFirst(s[1..], t);
    }
  }
}
