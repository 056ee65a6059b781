/** The file structure of a scan that is cut into restart intervals, each in a segment of its own between markers. */
module RestartIntervals {
  import opened ByteStream

  /** The MCUs left in the restart interval after the next one. */
  function RunTogo(restartInterval: nat, togo: nat): nat {
    if restartInterval == 0 then 0 else if togo == 0 then restartInterval - 1 else togo - 1
  }

  /** The n-th restart marker. */
  function RestartMarker(n: nat): seq<byte> {
    [0xFF, 0xD0 + n % 8]
  }

  /** Finished segments in the file, each followed by its restart marker. */
  function WithMarkers(segments: seq<seq<byte>>): seq<byte> {
    if segments == [] then []
    else
      var n := |segments| - 1;
      WithMarkers(segments[..n]) + Stuff(segments[n]) + RestartMarker(n)
  }

  lemma MarkersSnoc(segments: seq<seq<byte>>, data: seq<byte>)
    ensures WithMarkers(segments + [data]) == WithMarkers(segments) + Stuff(data) + RestartMarker(|segments|)
  {
    hide Stuff, RestartMarker;
    assert (segments + [data])[..|segments|] == segments;
  }

  /** The file after a segment: a marker and a segment for each further interval, then the end of the scan. */
  function Following(segments: seq<seq<byte>>, n: nat, tail: seq<byte>): seq<byte> {
    if segments == [] then tail
    else RestartMarker(n) + (Stuff(segments[0]) + Following(segments[1..], n + 1, tail))
  }

  /** The next marker, and the segment behind it. */
  lemma NextInFile(segments: seq<seq<byte>>, n: nat, tail: seq<byte>, fill: nat)
    requires segments != [] && Terminator(tail, fill)
    ensures var after := Following(segments, n, tail);
      && 1 < |after| && after[1] == 0xD0 + n % 8
      && after[2..] == Stuff(segments[0]) + Following(segments[1..], n + 1, tail)
    ensures Terminator(Following(segments[1..], n + 1, tail), if segments[1..] == [] then fill else 1)
  {
    hide Stuff;
  }

  /** The file of a whole scan, seen from its i-th segment or from its first. */
  lemma {:induction false} FileLayout(segments: seq<seq<byte>>, i: nat, tail: seq<byte>)
    requires i < |segments|
    ensures WithMarkers(segments[..i]) + (Stuff(segments[i]) + Following(segments[i + 1..], i, tail))
         == Stuff(segments[0]) + Following(segments[1..], 0, tail)
  {
    hide Stuff, RestartMarker;
    if i == 0 {
      assert WithMarkers(segments[..0]) == [];
    } else {
      FileLayout(segments, i - 1, tail);
      assert segments[..i] == segments[..i - 1] + [segments[i - 1]];
      MarkersSnoc(segments[..i - 1], segments[i - 1]);
      assert segments[i..][1..] == segments[i + 1..];
      Regroup4(WithMarkers(segments[..i - 1]), Stuff(segments[i - 1]), RestartMarker(i - 1),
               Stuff(segments[i]) + Following(segments[i + 1..], i, tail));
    }
  }

  lemma Regroup4<T>(a: seq<T>, b: seq<T>, c: seq<T>, d: seq<T>)
    ensures a + b + c + d == a + (b + (c + d))
  {
  }

  lemma NothingFollows(segments: seq<seq<byte>>, last: nat, tail: seq<byte>)
    requires last == |segments| - 1
    ensures Following(segments[last + 1..], last, tail) == tail
  {
  }

  lemma FollowingEnds(segments: seq<seq<byte>>, n: nat, tail: seq<byte>, fill: nat)
    requires Terminator(tail, fill)
    ensures Terminator(Following(segments, n, tail), if segments == [] then fill else 1)
  {
    hide Stuff;
  }

  // ---- the MCUs of the intervals ----

  function Joined<T>(intervals: seq<seq<T>>): seq<T> {
    if intervals == [] then [] else intervals[0] + Joined(intervals[1..])
  }

  lemma {:induction false} JoinedSnoc<T>(intervals: seq<seq<T>>, last: seq<T>)
    ensures Joined(intervals + [last]) == Joined(intervals) + last
  {
    if intervals == [] {
      assert ([last])[1..] == [];
    } else {
      JoinedSnoc(intervals[1..], last);
      assert (intervals + [last])[1..] == intervals[1..] + [last];
    }
  }

  lemma JoinedNone<T>()
    ensures Joined<T>([]) == []
  {
  }

  lemma JoinedFirst<T>(intervals: seq<seq<T>>)
    requires intervals != []
    ensures Joined(intervals) == intervals[0] + Joined(intervals[1..])
  {
  }

  /** Intervals that follow others: all full but the last, and none empty. */
  predicate FullIntervals<T>(restartInterval: nat, intervals: seq<seq<T>>) {
    forall i :: 0 <= i < |intervals| ==>
      0 < |intervals[i]| <= restartInterval && (i < |intervals| - 1 ==> |intervals[i]| == restartInterval)
  }

  lemma NextInterval<T>(restartInterval: nat, intervals: seq<seq<T>>)
    requires FullIntervals(restartInterval, intervals) && intervals != []
    ensures 0 < |intervals[0]| <= restartInterval && (intervals[1..] != [] ==> |intervals[0]| == restartInterval)
    ensures FullIntervals(restartInterval, intervals[1..])
  {
  }

  lemma FirstInterval<T>(restartInterval: nat, intervals: seq<seq<T>>)
    requires |intervals| == 1 || (|intervals| > 1 && restartInterval != 0 && FullIntervals(restartInterval, intervals))
    ensures intervals[1..] != [] ==> |intervals[0]| == restartInterval
    ensures FullIntervals(restartInterval, intervals[1..])
  {
  }

  /** The MCUs of a scan in intervals of n; 0 for no restarts. */
  function Cut<T>(n: nat, xs: seq<T>): (r: seq<seq<T>>)
    ensures |r| > 0
    decreases |xs|
  {
    if n == 0 || |xs| <= n then [xs] else [xs[..n]] + Cut(n, xs[n..])
  }

  lemma {:induction false} CutShape<T>(n: nat, xs: seq<T>)
    ensures Joined(Cut(n, xs)) == xs && (xs != [] ==> Cut(n, xs)[0] != [])
    ensures n == 0 ==> |Cut(n, xs)| == 1
    ensures n != 0 ==> |Cut(n, xs)[0]| <= n && (|Cut(n, xs)| > 1 ==> |Cut(n, xs)[0]| == n)
    ensures FullIntervals(n, Cut(n, xs)[1..])
    decreases |xs|
  {
    if n == 0 || |xs| <= n {
      assert Cut(n, xs)[1..] == [];
    } else {
      var rest := Cut(n, xs[n..]);
      CutShape(n, xs[n..]);
      assert Cut(n, xs)[1..] == rest;
      assert forall i :: 0 < i < |rest| ==> rest[i] == rest[1..][i - 1];
      assert xs[..n] + xs[n..] == xs;
    }
  }

  /** The first MCU of the interval that the i-th MCU of a scan is in. */
  function IntervalStart(restartInterval: nat, i: nat): (start: nat)
    ensures start <= i && (restartInterval != 0 ==> i - start < restartInterval)
  {
    if restartInterval == 0 || i < restartInterval then 0
    else restartInterval + IntervalStart(restartInterval, i - restartInterval)
  }

  /** One MCU further, a full interval is followed by a new one, and others go on. */
  lemma {:induction false} IntervalGoesOn(n: nat, i: nat)
    requires n != 0
    ensures IntervalStart(n, i + 1) == if i + 1 - IntervalStart(n, i) == n then i + 1 else IntervalStart(n, i)
  {
    if i >= n {
      IntervalGoesOn(n, i - n);
    }
  }

  lemma FirstOf<T>(a: seq<T>, b: seq<T>, x: T, more: seq<T>)
    requires a != [] && a + b == [x] + more
    ensures a[0] == x && a[1..] + b == more
  {
    assert a[0] == (a + b)[0];
    assert a[1..] + b == (a + b)[1..];
  }
}
