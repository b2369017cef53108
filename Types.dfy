// The record shapes of the tracker (a contraction and the summary derived from
// a history of them), and the "completed" filter that both the tracker's
// summary and the chart apply to a history.

module Types {

  datatype Option<+T> = None | Some(value: T)

  /** An instant, as the integer number of milliseconds that `Date.getTime()` returns. */
  type Instant = int

  /**
   * One recorded contraction. `endTime` and `duration` (whole seconds) are
   * `None` while the contraction is in progress, and may stay `None` for an
   * entry recorded without an end.
   */
  datatype Contraction = Contraction(
    id: string,
    startTime: Instant,
    endTime: Option<Instant>,
    duration: Option<int>)

  /** The statistics computed on demand from a history. */
  datatype ContractionSummary = ContractionSummary(
    totalContractions: nat,
    averageDuration: real,
    averageInterval: real,
    lastContraction: Option<Contraction>)

  /** An entry whose duration is not null; a duration of 0 counts. */
  predicate IsCompleted(c: Contraction) {
    c.duration.Some?
  }

  /** The completed entries of a history, in history order. */
  function Completed(h: seq<Contraction>): (r: seq<Contraction>)
    ensures |r| <= |h|
    ensures forall c :: c in r <==> c in h && IsCompleted(c)
  {
    if h == [] then []
    else if IsCompleted(h[0]) then [h[0]] + Completed(h[1..])
    else Completed(h[1..])
  }

  /** The order the tracker maintains: most recent start first (ties allowed). */
  ghost predicate NewestFirst(h: seq<Contraction>) {
    forall i, j :: 0 <= i < j < |h| ==> h[i].startTime >= h[j].startTime
  }

  /** Filtering a history sorted newest first leaves it sorted newest first. */
  lemma {:induction false} CompletedKeepsNewestFirst(h: seq<Contraction>)
    requires NewestFirst(h)
    ensures NewestFirst(Completed(h))
  {
    if h != [] {
      var tail := h[1..];
      assert NewestFirst(tail) by {
        forall i, j | 0 <= i < j < |tail| ensures tail[i].startTime >= tail[j].startTime {
          assert tail[i] == h[i + 1] && tail[j] == h[j + 1];
        }
      }
      CompletedKeepsNewestFirst(tail);
      if IsCompleted(h[0]) {
        var r := Completed(h);
        var rest := Completed(tail);
        assert r == [h[0]] + rest;
        forall i, j | 0 <= i < j < |r| ensures r[i].startTime >= r[j].startTime {
          if i == 0 {
            assert r[j] == rest[j - 1];
            assert rest[j - 1] in tail;
            var m :| 0 <= m < |tail| && tail[m] == rest[j - 1];
            assert tail[m] == h[m + 1];
          } else {
            assert r[i] == rest[i - 1] && r[j] == rest[j - 1];
          }
        }
      }
    }
  }

  /**
   * The first completed entry is the earliest position of the history that is
   * completed: every entry before it is still open.
   */
  lemma {:induction false} FirstCompletedPosition(h: seq<Contraction>)
    requires Completed(h) != []
    ensures exists i :: 0 <= i < |h| && h[i] == Completed(h)[0]
                        && forall j :: 0 <= j < i ==> !IsCompleted(h[j])
  {
    if IsCompleted(h[0]) {
      assert h[0] == Completed(h)[0];
    } else {
      var tail := h[1..];
      assert Completed(h) == Completed(tail);
      FirstCompletedPosition(tail);
      var i :| 0 <= i < |tail| && tail[i] == Completed(tail)[0]
               && forall j :: 0 <= j < i ==> !IsCompleted(tail[j]);
      assert h[i + 1] == Completed(h)[0];
      forall j | 0 <= j < i + 1 ensures !IsCompleted(h[j]) {
        if j > 0 { assert h[j] == tail[j - 1]; }
      }
    }
  }

  /** A history with no completed entry filters to nothing. */
  lemma {:induction false} AllOpenHasNoCompleted(h: seq<Contraction>)
    requires forall c :: c in h ==> !IsCompleted(c)
    ensures Completed(h) == []
  {
    if h != [] {
      assert forall c :: c in h[1..] ==> c in h;
      AllOpenHasNoCompleted(h[1..]);
    }
  }

  /** A history whose entries are all completed filters to itself. */
  lemma {:induction false} AllCompletedIsItself(h: seq<Contraction>)
    requires forall k :: 0 <= k < |h| ==> IsCompleted(h[k])
    ensures Completed(h) == h
  {
    if h != [] {
      AllCompletedIsItself(h[1..]);
      assert [h[0]] + h[1..] == h;
    }
  }

  /**
   * The filter keeps the order and the repetitions of the history: filtering
   * two pieces and joining them is filtering the joined history.
   */
  lemma {:induction false} CompletedDistributes(a: seq<Contraction>, b: seq<Contraction>)
    ensures Completed(a + b) == Completed(a) + Completed(b)
  {
    if a == [] {
      assert a + b == b;
    } else {
      assert (a + b)[0] == a[0];
      assert (a + b)[1..] == a[1..] + b;
      CompletedDistributes(a[1..], b);
    }
  }
}
