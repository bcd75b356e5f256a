/** The route matcher: which trains connect consecutive requested stations,
    and the segments each one covers, worked out from a train's own list of
    stops; and the trimming of an ISO-8601 timestamp to hours and minutes
    for display. Fetching the stations and trains over the network is not
    modelled: the trains that were fetched are the input. */
module Matching {
  import opened Types

  /** One stop in a train's own stop list; every field may be missing. */
  datatype StopRecord = StopRecord(
    code: Option<string>,
    name: Option<string>,
    schDep: Option<string>,
    dep: Option<string>,
    schArr: Option<string>,
    arr: Option<string>)

  /** A train as fetched: its identifiers and its stops in route order. */
  datatype FetchedTrain = FetchedTrain(
    id: string,
    num: Option<string>,
    routeName: Option<string>,
    state: Option<string>,
    stops: seq<StopRecord>)

  /** The index of the first stop whose code is `station`, if any. */
  function FirstIndex(stops: seq<StopRecord>, station: string): (r: Option<nat>)
    ensures r.None? <==> forall k :: 0 <= k < |stops| ==> stops[k].code != Some(station)
    ensures r.Some? ==> r.value < |stops| && stops[r.value].code == Some(station)
    ensures r.Some? ==> forall k :: 0 <= k < r.value ==> stops[k].code != Some(station)
  {
    if |stops| == 0 then None
    else if stops[0].code == Some(station) then Some(0)
    else
      match FirstIndex(stops[1..], station)
      case None => None
      case Some(k) => Some(k + 1)
  }

  /** The train serves requested stations i and i + 1 in that order, judged
      by the first stop of each. */
  predicate Covers(stations: seq<string>, stops: seq<StopRecord>, i: int)
    requires 0 <= i < |stations| - 1
  {
    var from := FirstIndex(stops, stations[i]);
    var to := FirstIndex(stops, stations[i + 1]);
    from.Some? && to.Some? && from.value < to.value
  }

  /** The segment for the pair (i, i + 1): the requested codes, with the
      departure side's scheduled and actual departure and the arrival
      side's scheduled and actual arrival. */
  function PairSegment(stations: seq<string>, stops: seq<StopRecord>, i: int): (s: Segment)
    requires 0 <= i < |stations| - 1 && Covers(stations, stops, i)
    ensures s.from.code == stations[i] && s.to.code == stations[i + 1]
  {
    var from := stops[FirstIndex(stops, stations[i]).value];
    var to := stops[FirstIndex(stops, stations[i + 1]).value];
    Segment(StationStop(stations[i], from.name, from.schDep, from.dep),
            StationStop(stations[i + 1], to.name, to.schArr, to.arr))
  }

  /** The pairs from i on that the train covers, in increasing order. */
  function CoveredPairs(stations: seq<string>, stops: seq<StopRecord>, i: nat): (r: seq<nat>)
    ensures forall j :: 0 <= j < |r| ==> i <= r[j] < |stations| - 1 && Covers(stations, stops, r[j])
    ensures forall k :: i <= k < |stations| - 1 && Covers(stations, stops, k) ==> k in r
    ensures forall a, b :: 0 <= a < b < |r| ==> r[a] < r[b]
    decreases |stations| - i
  {
    if i >= |stations| - 1 then []
    else if Covers(stations, stops, i) then [i] + CoveredPairs(stations, stops, i + 1)
    else CoveredPairs(stations, stops, i + 1)
  }

  /** The segments of one train, one per consecutive requested pair it
      covers, in the order of the requested list. */
  function BuildSegments(stations: seq<string>, stops: seq<StopRecord>, i: nat): (r: seq<Segment>)
    ensures |r| == |CoveredPairs(stations, stops, i)|
    ensures forall j :: 0 <= j < |r| ==> r[j] == PairSegment(stations, stops, CoveredPairs(stations, stops, i)[j])
    decreases |stations| - i
  {
    if i >= |stations| - 1 then []
    else
      var rest := BuildSegments(stations, stops, i + 1);
      var pairs := CoveredPairs(stations, stops, i + 1);
      if Covers(stations, stops, i) then
        assert CoveredPairs(stations, stops, i) == [i] + pairs;
        [PairSegment(stations, stops, i)] + rest
      else
        assert CoveredPairs(stations, stops, i) == pairs;
        rest
  }

  /** At most one segment per consecutive pair of requested stations. */
  lemma SegmentCountBound(stations: seq<string>, stops: seq<StopRecord>)
    requires |stations| >= 1
    ensures |BuildSegments(stations, stops, 0)| <= |stations| - 1
  {
    var pairs := CoveredPairs(stations, stops, 0);
    IncreasingBound(pairs, |stations| - 1);
  }

  /** A strictly increasing sequence of naturals below n has at most n members. */
  lemma {:induction false} IncreasingBound(r: seq<nat>, n: nat)
    requires forall j :: 0 <= j < |r| ==> r[j] < n
    requires forall a, b :: 0 <= a < b < |r| ==> r[a] < r[b]
    ensures |r| <= n
    decreases |r|
  {
    if |r| > 0 {
      var last := r[|r| - 1];
      var init := r[..|r| - 1];
      assert forall j :: 0 <= j < |init| ==> init[j] == r[j] < last;
      IncreasingBound(init, last);
      assert |r| == |init| + 1 <= last + 1 <= n;
    }
  }

  /** A station requested twice in a row never forms a segment. */
  lemma RepeatedStationNotCovered(stations: seq<string>, stops: seq<StopRecord>, i: int)
    requires 0 <= i < |stations| - 1 && stations[i] == stations[i + 1]
    ensures !Covers(stations, stops, i)
  {
  }

  /** A pair is covered exactly when both stations are stops of the train and
      the first stop of the earlier one comes before the first stop of the
      later one. */
  lemma CoversMeansOrderedStops(stations: seq<string>, stops: seq<StopRecord>, i: int)
    requires 0 <= i < |stations| - 1
    ensures Covers(stations, stops, i) <==>
      exists a, b :: 0 <= a < b < |stops| && stops[a].code == Some(stations[i]) && stops[b].code == Some(stations[i + 1])
        && (forall k :: 0 <= k < a ==> stops[k].code != Some(stations[i]))
        && (forall k :: 0 <= k < b ==> stops[k].code != Some(stations[i + 1]))
  {
    var from := FirstIndex(stops, stations[i]);
    var to := FirstIndex(stops, stations[i + 1]);
    if Covers(stations, stops, i) {
      var a, b := from.value, to.value;
      assert 0 <= a < b < |stops| && stops[a].code == Some(stations[i]) && stops[b].code == Some(stations[i + 1]);
    }
  }

  /** The connecting trains among those fetched, in fetch order: each
      fetched train with at least one covered pair, with its segments.
      Fewer than two requested stations give no trains at all. */
  function ConnectingTrains(stations: seq<string>, fetched: seq<FetchedTrain>): (r: seq<Train>)
    ensures |stations| < 2 ==> r == []
    ensures |r| <= |fetched|
    ensures forall t :: t in r ==> |t.segments| > 0
    ensures forall t :: t in r ==> exists f :: f in fetched && t == AsTrain(stations, f)
    ensures |stations| >= 2 ==> forall f :: f in fetched && |BuildSegments(stations, f.stops, 0)| > 0 ==> AsTrain(stations, f) in r
  {
    if |stations| < 2 then []
    else
      ConnectingMembers(stations, fetched);
      Connecting(stations, fetched)
  }

  function AsTrain(stations: seq<string>, f: FetchedTrain): Train
  {
    Train(f.id, f.num, f.routeName, f.state, BuildSegments(stations, f.stops, 0))
  }

  /** A fetched train connects when it covers at least one pair. */
  predicate Connects(stations: seq<string>, f: FetchedTrain)
  {
    |AsTrain(stations, f).segments| > 0
  }

  function Connecting(stations: seq<string>, fetched: seq<FetchedTrain>): (r: seq<Train>)
    ensures |r| <= |fetched|
  {
    if |fetched| == 0 then []
    else
      var rest := Connecting(stations, fetched[1..]);
      if Connects(stations, fetched[0]) then [AsTrain(stations, fetched[0])] + rest else rest
  }

  /** The connecting trains are exactly the fetched trains that connect. */
  lemma {:induction false} ConnectingMembers(stations: seq<string>, fetched: seq<FetchedTrain>)
    ensures forall t :: t in Connecting(stations, fetched) ==>
      |t.segments| > 0 && exists f :: f in fetched && t == AsTrain(stations, f)
    ensures forall f :: f in fetched && Connects(stations, f) ==> AsTrain(stations, f) in Connecting(stations, fetched)
  {
    if |fetched| > 0 {
      var tail := fetched[1..];
      ConnectingMembers(stations, tail);
      var r := Connecting(stations, fetched);
      var rest := Connecting(stations, tail);
      assert forall t :: t in rest ==> t in r;
      forall t | t in r
        ensures |t.segments| > 0 && exists f :: f in fetched && t == AsTrain(stations, f)
      {
        if t !in rest {
          assert t == AsTrain(stations, fetched[0]) && fetched[0] in fetched;
        } else {
          var f :| f in tail && t == AsTrain(stations, f);
          assert f in fetched;
        }
      }
      forall f | f in fetched && Connects(stations, f)
        ensures AsTrain(stations, f) in r
      {
        if f != fetched[0] {
          assert f in tail;
        }
      }
    }
  }

  function IndexOf(s: string, c: char): (r: Option<nat>)
    ensures r.None? <==> c !in s
    ensures r.Some? ==> r.value < |s| && s[r.value] == c && c !in s[..r.value]
    ensures r.Some? ==> forall k :: 0 <= k < r.value ==> s[k] != c
  {
    if |s| == 0 then None
    else if s[0] == c then Some(0)
    else
      match IndexOf(s[1..], c)
      case None => None
      case Some(k) =>
        assert s[..k + 1] == [s[0]] + s[1..][..k];
        Some(k + 1)
  }

  function LastIndexOf(s: string, c: char): (r: Option<nat>)
    ensures r.None? <==> c !in s
    ensures r.Some? ==> r.value < |s| && s[r.value] == c && c !in s[r.value + 1..]
  {
    if |s| == 0 then None
    else if s[|s| - 1] == c then Some(|s| - 1)
    else
      var init := s[..|s| - 1];
      match LastIndexOf(init, c)
      case None =>
        assert s == init + [s[|s| - 1]];
        None
      case Some(k) =>
        assert s[k + 1..] == init[k + 1..] + [s[|s| - 1]];
        Some(k)
  }

  /** The second field of `s` split at 'T': the text after the first 'T' up
      to the next 'T', or to the end. */
  function SecondField(s: string): (r: string)
    requires 'T' in s
    ensures 'T' !in r
    // r starts right after the first 'T' and runs to the next 'T' or the end
    ensures var k := IndexOf(s, 'T').value;
            k + 1 + |r| <= |s| && r == s[k + 1..k + 1 + |r|] && (k + 1 + |r| == |s| || s[k + 1 + |r|] == 'T')
  {
    var k := IndexOf(s, 'T').value;
    var after := s[k + 1..];
    match IndexOf(after, 'T')
    case None => after
    case Some(j) => after[..j]
  }

  /** The text before the last occurrence of c, or all of s when c is absent. */
  function BeforeLast(s: string, c: char): (r: string)
    ensures c in s ==> |r| < |s| && r == s[..|r|] && s[|r|] == c && c !in s[|r| + 1..]
    ensures c in s ==> |r| == LastIndexOf(s, c).value
    ensures c !in s ==> r == s
  {
    match LastIndexOf(s, c)
    case None => s
    case Some(k) => s[..k]
  }

  /** A timestamp trimmed for display: "N/A" when missing or empty; unchanged
      when it has no 'T'; otherwise the time after the first 'T', without
      its UTC offset (cut at the last '-', else at the last '+'), cut to
      five characters. */
  function FormatTime(s: Option<string>): (r: string)
    ensures s.None? || s.value == "" ==> r == "N/A"
    ensures s.Some? && s.value != "" && 'T' !in s.value ==> r == s.value
    ensures s.Some? && 'T' in s.value ==> |r| <= 5 && 'T' !in r
    ensures s.Some? && 'T' in s.value ==> |r| <= |SecondField(s.value)| && r == SecondField(s.value)[..|r|]
    // the offset is cut at the last '-' when there is one, else at the last '+'
    ensures s.Some? && 'T' in s.value ==> |r| == Min(5, OffsetCut(SecondField(s.value)))
  {
    if s.None? || s.value == "" then "N/A"
    else if 'T' !in s.value then s.value
    else
      var field := SecondField(s.value);
      var trimmed := TrimOffset(field);
      trimmed[..Min(5, |trimmed|)]
  }

  /** Where the time part's UTC offset starts: at the last '-', else at the
      last '+', else nowhere (the end). */
  function OffsetCut(f: string): nat
  {
    if '-' in f then LastIndexOf(f, '-').value
    else if '+' in f then LastIndexOf(f, '+').value
    else |f|
  }

  /** The time part without its UTC offset. */
  function TrimOffset(f: string): (t: string)
    ensures |t| == OffsetCut(f) <= |f| && t == f[..|t|]
  {
    if '-' in f then BeforeLast(f, '-')
    else if '+' in f then BeforeLast(f, '+')
    else f
  }

  /** The second field of a text with exactly one 'T' is everything after it. */
  lemma SecondFieldAfterDate(date: string, after: string)
    requires 'T' !in date && 'T' !in after
    ensures SecondField(date + "T" + after) == after
  {
    var s := date + "T" + after;
    forall k | 0 <= k < |date| ensures s[k] != 'T' {
      assert s[k] == date[k];
    }
    assert s[|date|] == 'T';
    var i := IndexOf(s, 'T').value;
    assert i == |date|;
    assert s[i + 1..] == after;
  }

  /** In `body + [c] + tail` with c absent from both parts, the last c is the
      one between them. */
  lemma LastOccurrence(body: string, c: char, tail: string)
    requires c !in body && c !in tail
    ensures BeforeLast(body + [c] + tail, c) == body
  {
    var s := body + [c] + tail;
    forall k | 0 <= k < |s| && k != |body| ensures s[k] != c {
      if k < |body| {
        assert s[k] == body[k];
      } else {
        assert s[k] == tail[k - |body| - 1];
      }
    }
    assert s[|body|] == c;
    var r := BeforeLast(s, c);
    assert |r| == |body|;
    assert r == s[..|body|] == body;
  }

  /** A time followed by a signed offset loses exactly the offset. */
  lemma TrimSignedOffset(body: string, sign: char, offset: string)
    requires sign == '-' || sign == '+'
    requires '-' !in body && '+' !in body
    requires '-' !in offset && (sign == '+' ==> '+' !in offset)
    ensures TrimOffset(body + [sign] + offset) == body
  {
    var after := body + [sign] + offset;
    LastOccurrence(body, sign, offset);
    assert after[|body|] == sign;
    if sign == '+' {
      assert '-' !in after;
    }
  }

  /** A full timestamp with a date, a 'T', a time and a signed UTC offset is
      trimmed to its hours and minutes. */
  lemma FormatTimeOfTimestamp(date: string, hhmm: string, seconds: string, sign: char, offset: string)
    requires 'T' !in date && |hhmm| == 5
    requires sign == '-' || sign == '+'
    requires forall c :: c in hhmm + seconds ==> c != 'T' && c != '-' && c != '+'
    requires 'T' !in offset && '-' !in offset && (sign == '+' ==> '+' !in offset)
    ensures FormatTime(Some(date + "T" + hhmm + seconds + [sign] + offset)) == hhmm
  {
    var body := hhmm + seconds;
    var after := body + [sign] + offset;
    assert 'T' !in body && '-' !in body && '+' !in body;
    assert date + "T" + hhmm + seconds + [sign] + offset == date + "T" + after;
    SecondFieldAfterDate(date, after);
    TrimSignedOffset(body, sign, offset);
    assert body[..5] == hhmm;
  }
}
