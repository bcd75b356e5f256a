/** Choosing which trains the frame shows: each segment's departure and
    arrival are read (actual time, else scheduled), trains that have already
    left or leave after the window's end are dropped, and the rest are sorted
    by first departure, keeping input order among equal departures.

    Parsing an ISO-8601 timestamp and converting it to local time is not
    modelled; it is the parameter `parse`, which yields the local instant or
    None when the text does not parse. */
module Schedule {
  import opened Types

  type Parser = string -> Option<int>

  /** The text the renderer reads for a stop: the actual time when it is
      present and non-empty, the scheduled time otherwise. */
  function TimeText(stop: StationStop): (r: Option<string>)
    ensures stop.actual.Some? && stop.actual.value != "" ==> r == stop.actual
    ensures !(stop.actual.Some? && stop.actual.value != "") ==> r == stop.scheduled
  {
    if stop.actual.Some? && stop.actual.value != "" then stop.actual else stop.scheduled
  }

  /** A missing or empty text is no time at all; otherwise the parser decides. */
  function ParseTime(parse: Parser, text: Option<string>): (r: Option<int>)
    ensures text.None? || text.value == "" ==> r.None?
    ensures text.Some? && text.value != "" ==> r == parse(text.value)
  {
    if text.None? || text.value == "" then None else parse(text.value)
  }

  function Departure(parse: Parser, seg: Segment): Option<int>
  {
    ParseTime(parse, TimeText(seg.from))
  }

  function Arrival(parse: Parser, seg: Segment): Option<int>
  {
    ParseTime(parse, TimeText(seg.to))
  }

  /** Both ends of the segment have a time. */
  predicate Parseable(parse: Parser, seg: Segment)
  {
    Departure(parse, seg).Some? && Arrival(parse, seg).Some?
  }

  /** A segment with its departure and arrival instants. */
  datatype TimedSegment = TimedSegment(seg: Segment, dep: int, arr: int)

  /** A train that made it into the frame, with its parseable segments and
      the departure of its first segment. */
  datatype VisibleTrain = VisibleTrain(train: Train, firstDep: int, segments: seq<TimedSegment>)

  function Timed(parse: Parser, seg: Segment): TimedSegment
    requires Parseable(parse, seg)
  {
    TimedSegment(seg, Departure(parse, seg).value, Arrival(parse, seg).value)
  }

  /** The segments whose two times both parse, in their original order;
      the others are dropped for this frame. */
  function TimedSegments(parse: Parser, segs: seq<Segment>): (r: seq<TimedSegment>)
    ensures |r| <= |segs|
    ensures forall k :: 0 <= k < |r| ==> r[k].seg in segs && Parseable(parse, r[k].seg) && r[k] == Timed(parse, r[k].seg)
    ensures forall i :: 0 <= i < |segs| && Parseable(parse, segs[i]) ==> Timed(parse, segs[i]) in r
    ensures |r| > 0 <==> exists i :: 0 <= i < |segs| && Parseable(parse, segs[i])
  {
    if |segs| == 0 then []
    else
      var rest := TimedSegments(parse, segs[1..]);
      assert forall i :: 1 <= i < |segs| ==> segs[i] == segs[1..][i - 1];
      if Parseable(parse, segs[0]) then [Timed(parse, segs[0])] + rest else rest
  }

  /** Dropping segments keeps the order of the rest: the timed segments of
      two lists side by side are those of the first followed by those of the
      second. */
  lemma {:induction false} TimedSegmentsConcat(parse: Parser, a: seq<Segment>, b: seq<Segment>)
    ensures TimedSegments(parse, a + b) == TimedSegments(parse, a) + TimedSegments(parse, b)
    decreases |a|
  {
    if |a| == 0 {
      assert a + b == b;
    } else {
      assert (a + b)[0] == a[0];
      assert (a + b)[1..] == a[1..] + b;
      TimedSegmentsConcat(parse, a[1..], b);
    }
  }

  /** A single segment is kept, with its two instants, exactly when both of
      its times parse. */
  lemma TimedSegmentsSingle(parse: Parser, seg: Segment)
    ensures TimedSegments(parse, [seg]) == if Parseable(parse, seg) then [Timed(parse, seg)] else []
  {
    assert [seg][1..] == [];
  }

  /** The departure of a train's first segment, even when that segment is
      later dropped because its arrival does not parse. */
  function FirstDeparture(parse: Parser, t: Train): Option<int>
  {
    if |t.segments| == 0 then None else Departure(parse, t.segments[0])
  }

  /** The four conditions for a train to be shown: it has segments, its first
      departure parses and lies in [now, end], and some segment has both times. */
  predicate Visible(parse: Parser, t: Train, end: int, now: int)
  {
    && |t.segments| > 0
    && FirstDeparture(parse, t).Some?
    && now <= FirstDeparture(parse, t).value <= end
    && exists i :: 0 <= i < |t.segments| && Parseable(parse, t.segments[i])
  }

  function Resolve(parse: Parser, t: Train): VisibleTrain
    requires FirstDeparture(parse, t).Some?
  {
    VisibleTrain(t, FirstDeparture(parse, t).value, TimedSegments(parse, t.segments))
  }

  /** The trains to show, in input order. */
  function Collect(parse: Parser, trains: seq<Train>, end: int, now: int): (r: seq<VisibleTrain>)
  {
    if |trains| == 0 then []
    else
      var t := trains[0];
      var rest := Collect(parse, trains[1..], end, now);
      match FirstDeparture(parse, t)
      case None => rest
      case Some(dep) =>
        if now <= dep <= end && |TimedSegments(parse, t.segments)| > 0
        then [Resolve(parse, t)] + rest
        else rest
  }

  /** Every collected train is a visible input train, and every visible input
      train is collected. */
  lemma {:induction false} CollectMembers(parse: Parser, trains: seq<Train>, end: int, now: int)
    ensures forall v :: v in Collect(parse, trains, end, now) ==>
      v.train in trains && Visible(parse, v.train, end, now) && v == Resolve(parse, v.train)
    ensures forall t :: t in trains && Visible(parse, t, end, now) ==> Resolve(parse, t) in Collect(parse, trains, end, now)
    decreases |trains|
  {
    if |trains| > 0 {
      CollectMembers(parse, trains[1..], end, now);
      assert forall t :: t in trains ==> t == trains[0] || t in trains[1..];
    }
  }

  /** The visible input trains whose first departure is d, in input order:
      the reference the sorted output is compared with. */
  function VisibleAt(parse: Parser, trains: seq<Train>, end: int, now: int, d: int): seq<Train>
  {
    if |trains| == 0 then []
    else
      var t := trains[0];
      (if Visible(parse, t, end, now) && FirstDeparture(parse, t).value == d then [t] else [])
        + VisibleAt(parse, trains[1..], end, now, d)
  }

  /** The trains of the entries of `s` that depart first at d, in order. */
  function TrainsAt(s: seq<VisibleTrain>, d: int): seq<Train>
  {
    if |s| == 0 then [] else (if s[0].firstDep == d then [s[0].train] else []) + TrainsAt(s[1..], d)
  }

  lemma {:induction false} CollectAt(parse: Parser, trains: seq<Train>, end: int, now: int, d: int)
    ensures TrainsAt(Collect(parse, trains, end, now), d) == VisibleAt(parse, trains, end, now, d)
    decreases |trains|
  {
    if |trains| > 0 {
      CollectAt(parse, trains[1..], end, now, d);
    }
  }

  predicate SortedByDeparture(s: seq<VisibleTrain>)
  {
    forall i, j :: 0 <= i < j < |s| ==> s[i].firstDep <= s[j].firstDep
  }

  /** Inserts v after every entry departing no later than it. */
  function Insert(s: seq<VisibleTrain>, v: VisibleTrain): seq<VisibleTrain>
  {
    if |s| == 0 then [v]
    else if v.firstDep < s[0].firstDep then [v] + s
    else [s[0]] + Insert(s[1..], v)
  }

  /** Stable sort by first departure: each entry is inserted, in input order,
      after all entries already placed with the same departure. */
  function SortByDeparture(s: seq<VisibleTrain>): seq<VisibleTrain>
  {
    if |s| == 0 then [] else Insert(SortByDeparture(s[..|s| - 1]), s[|s| - 1])
  }

  lemma {:induction false} InsertMultiset(s: seq<VisibleTrain>, v: VisibleTrain)
    ensures multiset(Insert(s, v)) == multiset(s) + multiset{v}
    decreases |s|
  {
    if |s| > 0 && v.firstDep >= s[0].firstDep {
      InsertMultiset(s[1..], v);
      assert s == [s[0]] + s[1..];
    }
  }

  lemma {:induction false} InsertSorted(s: seq<VisibleTrain>, v: VisibleTrain)
    requires SortedByDeparture(s)
    ensures SortedByDeparture(Insert(s, v))
    decreases |s|
  {
    if |s| > 0 && v.firstDep >= s[0].firstDep {
      var tail := s[1..];
      InsertSorted(tail, v);
      InsertMultiset(tail, v);
      var ins := Insert(tail, v);
      var r := [s[0]] + ins;
      forall j | 0 < j < |r| ensures s[0].firstDep <= r[j].firstDep {
        assert r[j] == ins[j - 1];
        assert ins[j - 1] in multiset(ins);
        assert r[j] in tail || r[j] == v;
      }
    }
  }

  lemma {:induction false} InsertAt(s: seq<VisibleTrain>, v: VisibleTrain, d: int)
    requires SortedByDeparture(s)
    ensures TrainsAt(Insert(s, v), d) == TrainsAt(s, d) + (if v.firstDep == d then [v.train] else [])
    decreases |s|
  {
    if |s| == 0 {
    } else if v.firstDep < s[0].firstDep {
      assert ([v] + s)[1..] == s;
      if v.firstDep == d {
        // all of s departs after v, so nothing in s departs at d
        NoneAt(s, d);
      }
    } else {
      var tail := s[1..];
      SortedTail(s);
      InsertAt(tail, v, d);
      var head := if s[0].firstDep == d then [s[0].train] else [];
      assert ([s[0]] + Insert(tail, v))[1..] == Insert(tail, v);
      assert TrainsAt(Insert(s, v), d) == head + TrainsAt(Insert(tail, v), d);
    }
  }

  lemma SortedTail(s: seq<VisibleTrain>)
    requires |s| > 0 && SortedByDeparture(s)
    ensures SortedByDeparture(s[1..])
  {
    forall i, j | 0 <= i < j < |s| - 1 ensures s[1..][i].firstDep <= s[1..][j].firstDep {
      assert s[1..][i] == s[i + 1] && s[1..][j] == s[j + 1];
    }
  }

  /** No entry of a list departing strictly after d departs at d. */
  lemma {:induction false} NoneAt(s: seq<VisibleTrain>, d: int)
    requires forall k :: 0 <= k < |s| ==> s[k].firstDep > d
    ensures TrainsAt(s, d) == []
    decreases |s|
  {
    if |s| > 0 {
      NoneAt(s[1..], d);
    }
  }

  lemma {:induction false} TrainsAtAppend(s: seq<VisibleTrain>, v: VisibleTrain, d: int)
    ensures TrainsAt(s + [v], d) == TrainsAt(s, d) + (if v.firstDep == d then [v.train] else [])
    decreases |s|
  {
    if |s| == 0 {
      assert s + [v] == [v];
    } else {
      assert (s + [v])[1..] == s[1..] + [v];
      TrainsAtAppend(s[1..], v, d);
    }
  }

  /** The sort orders by departure, is a permutation, and keeps the input
      order among entries with the same departure. */
  lemma {:induction false} SortFacts(s: seq<VisibleTrain>)
    ensures SortedByDeparture(SortByDeparture(s))
    ensures multiset(SortByDeparture(s)) == multiset(s)
    ensures forall d :: TrainsAt(SortByDeparture(s), d) == TrainsAt(s, d)
    decreases |s|
  {
    if |s| > 0 {
      var prefix, last := s[..|s| - 1], s[|s| - 1];
      SortFacts(prefix);
      InsertSorted(SortByDeparture(prefix), last);
      InsertMultiset(SortByDeparture(prefix), last);
      assert s == prefix + [last];
      forall d ensures TrainsAt(SortByDeparture(s), d) == TrainsAt(s, d) {
        InsertAt(SortByDeparture(prefix), last, d);
        TrainsAtAppend(prefix, last, d);
      }
    }
  }

  /** The trains shown, sorted by first departure. `start` is accepted but
      plays no part in the choice. */
  function FilterTrainsInWindow(parse: Parser, trains: seq<Train>, start: int, end: int, now: int): (r: seq<VisibleTrain>)
    // sorted ascending by first departure
    ensures SortedByDeparture(r)
    // exactly the visible trains, each with its parsed segments
    ensures forall v :: v in r ==> v.train in trains && Visible(parse, v.train, end, now) && v == Resolve(parse, v.train)
    ensures forall t :: t in trains && Visible(parse, t, end, now) ==> Resolve(parse, t) in r
    // trains departing together keep their input order
    ensures forall d :: TrainsAt(r, d) == VisibleAt(parse, trains, end, now, d)
  {
    var collected := Collect(parse, trains, end, now);
    CollectMembers(parse, trains, end, now);
    SortFacts(collected);
    SameMembers(SortByDeparture(collected), collected);
    forall d ensures TrainsAt(SortByDeparture(collected), d) == VisibleAt(parse, trains, end, now, d) {
      CollectAt(parse, trains, end, now, d);
    }
    SortByDeparture(collected)
  }

  lemma SameMembers(a: seq<VisibleTrain>, b: seq<VisibleTrain>)
    requires multiset(a) == multiset(b)
    ensures forall v :: v in a <==> v in b
  {
    forall v ensures v in a <==> v in b {
      assert v in a <==> v in multiset(a);
      assert v in b <==> v in multiset(b);
    }
  }

  /** A train that has already left (first departure before now) is never shown. */
  lemma DepartedTrainExcluded(parse: Parser, trains: seq<Train>, start: int, end: int, now: int, t: Train)
    requires FirstDeparture(parse, t).Some? && FirstDeparture(parse, t).value < now
    ensures forall v :: v in FilterTrainsInWindow(parse, trains, start, end, now) ==> v.train != t
  {
  }
}
