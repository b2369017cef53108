// The contraction tracker: the persisted history, the optional in-progress
// entry, the tracking flag, the four state operations and the summary.

module UseContractions {
  import opened Types

  /** `Math.round(ms / 1000)` for an integer `ms`: the nearest whole second, halves rounded up. */
  function RoundToSeconds(ms: int): (r: int)
    ensures 1000 * r - 500 <= ms < 1000 * r + 500
  {
    (ms + 500) / 1000
  }

  /** The history without every entry whose id is `id`. */
  function RemoveId(h: seq<Contraction>, id: string): (r: seq<Contraction>)
    ensures |r| <= |h|
    ensures forall c :: c in r <==> c in h && c.id != id
  {
    if h == [] then []
    else if h[0].id != id then [h[0]] + RemoveId(h[1..], id)
    else RemoveId(h[1..], id)
  }

  /** Removal works piecewise, so the kept entries stay in their original order. */
  lemma {:induction false} RemoveIdDistributes(a: seq<Contraction>, b: seq<Contraction>, id: string)
    ensures RemoveId(a + b, id) == RemoveId(a, id) + RemoveId(b, id)
  {
    if a != [] {
      assert (a + b)[1..] == a[1..] + b;
      RemoveIdDistributes(a[1..], b, id);
    } else {
      assert a + b == b;
    }
  }

  /** Deleting an id no entry carries leaves the history identical. */
  lemma {:induction false} RemoveUnknownId(h: seq<Contraction>, id: string)
    requires forall c :: c in h ==> c.id != id
    ensures RemoveId(h, id) == h
  {
    if h != [] {
      assert forall c :: c in h[1..] ==> c in h;
      RemoveUnknownId(h[1..], id);
      assert [h[0]] + h[1..] == h;
    }
  }

  /** With unique ids, deleting removes exactly the one matching entry. */
  lemma RemoveUniqueId(h: seq<Contraction>, id: string, k: nat)
    requires k < |h| && h[k].id == id
    requires forall j :: 0 <= j < |h| && j != k ==> h[j].id != id
    ensures RemoveId(h, id) == h[..k] + h[k + 1..]
  {
    assert h == h[..k] + ([h[k]] + h[k + 1..]);
    RemoveIdDistributes(h[..k], [h[k]] + h[k + 1..], id);
    RemoveIdDistributes([h[k]], h[k + 1..], id);
    assert forall c :: c in h[..k] ==> c.id != id;
    assert forall c :: c in h[k + 1..] ==> c.id != id;
    RemoveUnknownId(h[..k], id);
    RemoveUnknownId(h[k + 1..], id);
    assert RemoveId([h[k]], id) == [];
  }

  /**
   * Sum of the durations, with a null duration read as 0 (`c.duration || 0`):
   * 0 when no entry has a duration, and never negative when no duration is.
   */
  function SumDurations(cs: seq<Contraction>): (r: int)
    ensures (forall k :: 0 <= k < |cs| ==> cs[k].duration.None?) ==> r == 0
    ensures (forall k :: 0 <= k < |cs| && cs[k].duration.Some? ==> cs[k].duration.value >= 0) ==> r >= 0
  {
    if cs == [] then 0
    else (if cs[0].duration.Some? then cs[0].duration.value else 0) + SumDurations(cs[1..])
  }

  /**
   * The gap in seconds from the start of `older` to the start of `newer`:
   * non-negative exactly when `newer` did not start first, zero exactly for
   * equal starts.
   */
  function Gap(newer: Contraction, older: Contraction): (r: real)
    ensures r >= 0.0 <==> newer.startTime >= older.startTime
    ensures r == 0.0 <==> newer.startTime == older.startTime
  {
    (newer.startTime - older.startTime) as real / 1000.0
  }

  /** The gaps between adjacent entries, in order. */
  function Intervals(cs: seq<Contraction>): (r: seq<real>)
    ensures |r| == if |cs| < 2 then 0 else |cs| - 1
    ensures forall k :: 0 <= k < |r| ==> r[k] == Gap(cs[k], cs[k + 1])
  {
    if |cs| < 2 then [] else [Gap(cs[0], cs[1])] + Intervals(cs[1..])
  }

  function Sum(xs: seq<real>): real {
    if xs == [] then 0.0 else xs[0] + Sum(xs[1..])
  }

  /** The adjacent gaps telescope to the gap from the first entry to the last. */
  lemma {:induction false} IntervalsTelescope(cs: seq<Contraction>)
    requires |cs| >= 2
    ensures Sum(Intervals(cs)) == Gap(cs[0], cs[|cs| - 1])
  {
    var tail := cs[1..];
    if |cs| > 2 {
      IntervalsTelescope(tail);
      assert tail[|tail| - 1] == cs[|cs| - 1];
    }
  }

  /** Over a history sorted newest first, every adjacent gap is non-negative. */
  lemma {:induction false} IntervalsSumNonNegative(cs: seq<Contraction>)
    requires |cs| >= 2 && NewestFirst(cs)
    ensures Sum(Intervals(cs)) >= 0.0
  {
    IntervalsTelescope(cs);
  }

  /**
   * What `getSummary` returns for a history: it counts the completed entries,
   * the last contraction is one of them and is absent exactly when there are
   * none, and the averages are 0 when there is nothing to average.
   */
  function Summarize(h: seq<Contraction>): (r: ContractionSummary)
    ensures r.totalContractions == |Completed(h)| <= |h|
    ensures r.lastContraction.None? <==> r.totalContractions == 0
    ensures r.lastContraction.Some? ==> r.lastContraction.value in h && IsCompleted(r.lastContraction.value)
    ensures r.totalContractions == 0 ==> r.averageDuration == 0.0
    ensures r.totalContractions <= 1 ==> r.averageInterval == 0.0
  {
    var cs := Completed(h);
    if |cs| == 0 then ContractionSummary(0, 0.0, 0.0, None)
    else ContractionSummary(
      |cs|,
      SumDurations(cs) as real / |cs| as real,
      if |cs| > 1 then Sum(Intervals(cs)) / (|cs| - 1) as real else 0.0,
      Some(cs[0]))
  }

  /**
   * The most recent completed entry is the first entry of the history that is
   * completed, and there is none exactly when no entry is completed.
   */
  lemma LastContractionIsFirstCompleted(h: seq<Contraction>)
    ensures Summarize(h).lastContraction.None? <==> forall c :: c in h ==> !IsCompleted(c)
    ensures Summarize(h).lastContraction.Some? ==>
      exists i :: 0 <= i < |h| && h[i] == Summarize(h).lastContraction.value
                  && IsCompleted(h[i]) && forall j :: 0 <= j < i ==> !IsCompleted(h[j])
  {
    if Completed(h) != [] {
      FirstCompletedPosition(h);
      assert Completed(h)[0] in Completed(h);
    } else {
      assert forall c :: c in h && IsCompleted(c) ==> c in Completed(h);
    }
  }

  /** With no completed entry the summary is all zeros and no last entry. */
  lemma SummaryWithoutCompleted(h: seq<Contraction>)
    requires forall c :: c in h ==> !IsCompleted(c)
    ensures Summarize(h) == ContractionSummary(0, 0.0, 0.0, None)
  {
    AllOpenHasNoCompleted(h);
  }

  /**
   * The average interval is the gap from the oldest completed start to the
   * newest one, spread over the count minus one; 0 for a single entry.
   */
  lemma AverageIntervalSpansFirstToLast(h: seq<Contraction>)
    ensures var cs := Completed(h);
      Summarize(h).averageInterval ==
        if |cs| < 2 then 0.0 else Gap(cs[0], cs[|cs| - 1]) / (|cs| - 1) as real
  {
    var cs := Completed(h);
    if |cs| >= 2 {
      IntervalsTelescope(cs);
    }
  }

  /** A history sorted newest first never yields a negative average interval. */
  lemma AverageIntervalNonNegative(h: seq<Contraction>)
    requires NewestFirst(h)
    ensures Summarize(h).averageInterval >= 0.0
  {
    var cs := Completed(h);
    if |cs| >= 2 {
      CompletedKeepsNewestFirst(h);
      IntervalsSumNonNegative(cs);
      MeanOfNonNegativeTotal(Sum(Intervals(cs)), |cs| - 1);
    }
  }

  /** A non-negative total shared out over a positive count gives a non-negative mean. */
  lemma MeanOfNonNegativeTotal(total: real, count: nat)
    requires total >= 0.0 && count > 0
    ensures total / count as real >= 0.0
  {
  }

  /** When no recorded duration is negative, neither is the average duration. */
  lemma AverageDurationNonNegative(h: seq<Contraction>)
    requires forall c :: c in h && c.duration.Some? ==> c.duration.value >= 0
    ensures Summarize(h).averageDuration >= 0.0
  {
  }

  /** One completed entry: its duration is the average and the interval is 0. */
  lemma SingleCompletedSummary(h: seq<Contraction>, c: Contraction)
    requires Completed(h) == [c]
    ensures IsCompleted(c)
    ensures Summarize(h) == ContractionSummary(1, c.duration.value as real, 0.0, Some(c))
  {
    assert c in Completed(h);
    assert [c][1..] == [];
    assert SumDurations([c]) == c.duration.value;
  }

  /** Prepending a completed entry makes it the last contraction and adds one to the count. */
  lemma SummaryAfterPrepend(c: Contraction, h: seq<Contraction>)
    requires IsCompleted(c)
    ensures Summarize([c] + h).totalContractions == Summarize(h).totalContractions + 1
    ensures Summarize([c] + h).lastContraction == Some(c)
  {
    assert ([c] + h)[1..] == h;
  }

  /**
   * Starts at T0, T0 + 5 min, T0 + 12 min, newest first, average to an
   * interval of 6 minutes.
   */
  lemma ThreeStartsAverageInterval(t0: Instant, a: string, b: string, c: string)
    ensures Summarize([Contraction(a, t0 + 720000, Some(t0 + 720000 + 30000), Some(30)),
                       Contraction(b, t0 + 300000, Some(t0 + 300000 + 40000), Some(40)),
                       Contraction(c, t0, Some(t0 + 50000), Some(50))]).averageInterval == 360.0
  {
    var h := [Contraction(a, t0 + 720000, Some(t0 + 720000 + 30000), Some(30)),
              Contraction(b, t0 + 300000, Some(t0 + 300000 + 40000), Some(40)),
              Contraction(c, t0, Some(t0 + 50000), Some(50))];
    AllCompletedIsItself(h);
    AverageIntervalSpansFirstToLast(h);
    assert Gap(h[0], h[2]) == 720.0;
  }

  /** The state cells of the tracker hook. */
  class ContractionTracker {
    var contractions: seq<Contraction>
    var currentContraction: Option<Contraction>
    var isTracking: bool

    /** The flag agrees with the in-progress slot, and that entry is open. */
    ghost predicate Valid()
      reads this
    {
      && (isTracking <==> currentContraction.Some?)
      && (currentContraction.Some? ==>
            currentContraction.value.endTime.None? && currentContraction.value.duration.None?)
    }

    /** A fresh hook over the history read back from storage; nothing is in progress. */
    constructor (stored: seq<Contraction>)
      ensures contractions == stored
      ensures currentContraction == None && !isTracking
      ensures Valid()
    {
      contractions := stored;
      currentContraction := None;
      isTracking := false;
    }

    /**
     * Opens a new entry with the given id at `now`. There is no guard: an
     * entry already in progress is replaced.
     */
    method StartContraction(id: string, now: Instant)
      modifies this
      ensures contractions == old(contractions)
      ensures currentContraction == Some(Contraction(id, now, None, None))
      ensures isTracking
      ensures Valid()
    {
      var newContraction := Contraction(id, now, None, None);
      currentContraction := Some(newContraction);
      isTracking := true;
    }

    /**
     * Closes the entry in progress at `now` and puts it at the head of the
     * history; does nothing when no entry is in progress.
     */
    method StopContraction(now: Instant)
      modifies this
      ensures old(currentContraction).None? ==>
        contractions == old(contractions) && currentContraction == None
        && isTracking == old(isTracking)
      ensures old(currentContraction).Some? ==>
        var c := old(currentContraction).value;
        && |contractions| == |old(contractions)| + 1
        && contractions[1..] == old(contractions)
        && contractions[0] ==
             Contraction(c.id, c.startTime, Some(now), Some(RoundToSeconds(now - c.startTime)))
        && currentContraction == None && !isTracking
      ensures old(Valid()) ==> Valid()
    {
      if currentContraction.Some? {
        var c := currentContraction.value;
        var endTime := now;
        var duration := RoundToSeconds(endTime - c.startTime);
        var completedContraction := c.(endTime := Some(endTime), duration := Some(duration));
        contractions := [completedContraction] + contractions;
        currentContraction := None;
        isTracking := false;
      }
    }

    /** Drops every history entry with the given id; the in-progress entry is untouched. */
    method DeleteContraction(id: string)
      modifies this
      ensures contractions == RemoveId(old(contractions), id)
      ensures currentContraction == old(currentContraction) && isTracking == old(isTracking)
      ensures old(Valid()) ==> Valid()
    {
      contractions := RemoveId(contractions, id);
    }

    /** Empties the history and discards any entry in progress. */
    method ClearAllContractions()
      modifies this
      ensures contractions == [] && currentContraction == None && !isTracking
      ensures Valid()
    {
      contractions := [];
      currentContraction := None;
      isTracking := false;
    }

    /** The summary of the current history. */
    method GetSummary() returns (s: ContractionSummary)
      ensures s == Summarize(contractions)
    {
      var completedContractions := Completed(contractions);
      if |completedContractions| == 0 {
        return ContractionSummary(0, 0.0, 0.0, None);
      }
      var totalDuration := SumDurations(completedContractions);
      var averageDuration := totalDuration as real / |completedContractions| as real;
      var averageInterval := 0.0;
      if |completedContractions| > 1 {
        var intervals: seq<real> := [];
        for i := 0 to |completedContractions| - 1
          invariant |intervals| == i
          invariant forall k :: 0 <= k < i ==>
            intervals[k] == Gap(completedContractions[k], completedContractions[k + 1])
        {
          var current := completedContractions[i];
          var next := completedContractions[i + 1];
          var interval := Gap(current, next);
          intervals := intervals + [interval];
        }
        ghost var expected := Intervals(completedContractions);
        assert |intervals| == |expected|;
        forall k | 0 <= k < |intervals| ensures intervals[k] == expected[k] {
          assert intervals[k] == Gap(completedContractions[k], completedContractions[k + 1]);
        }
        assert intervals == expected;
        averageInterval := Sum(intervals) / |intervals| as real;
      }
      s := ContractionSummary(|completedContractions|, averageDuration, averageInterval,
                              Some(completedContractions[0]));
    }
  }
}
