/** What the apply worker tells the provider it may forget: a list that pairs the remote and local end
    of every commit, trimmed as local WAL is flushed, and the status messages built from it. */
module FlushFeedback {
  import Wal

  datatype FlushPosition = FlushPosition(localEnd: nat, remoteEnd: nat)

  /** A transaction that has been processed; an empty one has no local commit. */
  datatype Commit = Commit(remoteEnd: nat, empty: bool, localEnd: nat)

  /** A status message, and how far local WAL was flushed when it was sent. */
  datatype Report = Report(recv: nat, flush: nat, apply: nat, localFlush: nat)

  /** How many entries from the front are flushed locally. */
  function Flushed(m: seq<FlushPosition>, localFlush: nat): (k: nat)
    ensures k <= |m|
    ensures forall i :: 0 <= i < k ==> m[i].localEnd <= localFlush
    ensures k < |m| ==> m[k].localEnd > localFlush
  {
    if m != [] && m[0].localEnd <= localFlush then 1 + Flushed(m[1..], localFlush) else 0
  }

  /** Remote ends rise, local ends do not fall. */
  ghost predicate Ordered(m: seq<FlushPosition>) {
    forall i, j :: 0 <= i < j < |m| ==> m[i].remoteEnd < m[j].remoteEnd && m[i].localEnd <= m[j].localEnd
  }

  /** Nothing was reported flushed that was not: a transaction ending at or before the reported position
      is empty or its local commit had been flushed. */
  ghost predicate Honest(r: Report, done: seq<Commit>) {
    forall i :: 0 <= i < |done| ==> done[i].remoteEnd <= r.flush ==> done[i].empty || done[i].localEnd <= r.localFlush
  }

  ghost predicate Above(m: seq<FlushPosition>, reported: nat) {
    forall i :: 0 <= i < |m| ==> m[i].remoteEnd > reported
  }

  ghost predicate Within(m: seq<FlushPosition>, seen: nat) {
    forall i :: 0 <= i < |m| ==> m[i].remoteEnd <= seen
  }

  /** Every local commit not yet flushed is still in the list. */
  ghost predicate Complete(m: seq<FlushPosition>, done: seq<Commit>, flushed: nat) {
    forall i :: 0 <= i < |done| ==>
      done[i].empty || done[i].localEnd <= flushed || FlushPosition(done[i].localEnd, done[i].remoteEnd) in m
  }

  /** Reported positions never go backwards, and flush never passes apply. */
  ghost predicate Monotone(reports: seq<Report>, flush: nat, apply: nat) {
    && flush <= apply
    && (forall i, j :: 0 <= i < j < |reports| ==>
          reports[i].flush <= reports[j].flush && reports[i].apply <= reports[j].apply)
    && (forall i :: 0 <= i < |reports| ==>
          reports[i].flush <= reports[i].apply && reports[i].flush <= flush && reports[i].apply <= apply)
  }

  lemma {:induction false} StillListed(m: seq<FlushPosition>, p: FlushPosition, localFlush: nat)
    requires p in m && p.localEnd > localFlush
    ensures p in m[Flushed(m, localFlush)..]
  {
    var k := Flushed(m, localFlush);
    var j :| 0 <= j < |m| && m[j] == p;
    assert m[k..][j - k] == p;
  }

  lemma {:induction false} TrimKeepsComplete(m: seq<FlushPosition>, done: seq<Commit>, flushed: nat, localFlush: nat)
    requires Complete(m, done, flushed) && flushed <= localFlush
    ensures Complete(m[Flushed(m, localFlush)..], done, localFlush)
  {
    forall i | 0 <= i < |done| && !done[i].empty && done[i].localEnd > localFlush
      ensures FlushPosition(done[i].localEnd, done[i].remoteEnd) in m[Flushed(m, localFlush)..]
    {
      StillListed(m, FlushPosition(done[i].localEnd, done[i].remoteEnd), localFlush);
    }
  }

  /** What is left lies past the trimmed part. */
  lemma {:induction false} TrimRaisesFloor(m: seq<FlushPosition>, k: nat, floor: nat, seen: nat)
    requires Ordered(m) && k <= |m| && Above(m, floor) && Within(m, seen)
    ensures Ordered(m[k..]) && Above(m[k..], floor) && Within(m[k..], seen)
    ensures k > 0 ==> Above(m[k..], m[k - 1].remoteEnd) && m[k - 1].remoteEnd <= seen
    ensures 0 < k < |m| ==> m[k - 1].remoteEnd < m[|m| - 1].remoteEnd
  {
  }

  /** With local ends that do not fall, the flushed entries are exactly those in front. */
  lemma {:induction false} FlushedInFront(m: seq<FlushPosition>, localFlush: nat)
    requires Ordered(m)
    ensures forall i :: 0 <= i < |m| ==> (m[i].localEnd <= localFlush <==> i < Flushed(m, localFlush))
    ensures forall i :: 0 <= i < Flushed(m, localFlush) ==> m[i].remoteEnd <= m[Flushed(m, localFlush) - 1].remoteEnd
    ensures forall i :: 0 <= i < |m| ==> m[i].remoteEnd <= m[|m| - 1].remoteEnd
  {
  }

  /** Every commit is reported flushed or still listed. */
  ghost predicate Reported(m: seq<FlushPosition>, done: seq<Commit>, reported: nat) {
    forall i :: 0 <= i < |done| ==>
      done[i].empty || done[i].remoteEnd <= reported || FlushPosition(done[i].localEnd, done[i].remoteEnd) in m
  }

  lemma {:induction false} CompleteIsHonest(m: seq<FlushPosition>, done: seq<Commit>, r: Report)
    requires Complete(m, done, r.localFlush) && Above(m, r.flush)
    ensures Honest(r, done)
  {
  }

  lemma {:induction false} MonotoneSnoc(reports: seq<Report>, flush: nat, apply: nat, r: Report)
    requires Monotone(reports, flush, apply) && flush <= r.flush <= r.apply && apply <= r.apply
    ensures Monotone(reports + [r], r.flush, r.apply)
  {
  }

  /** The positions to report: everything received once nothing is outstanding, otherwise the last flushed
      and the last written commit. */
  function FlushGoal(m: seq<FlushPosition>, localFlush: nat, recv: nat): nat {
    var k := Flushed(m, localFlush);
    if k == |m| then recv else if k == 0 then 0 else m[k - 1].remoteEnd
  }

  function ApplyGoal(m: seq<FlushPosition>, localFlush: nat, recv: nat): nat {
    if Flushed(m, localFlush) == |m| then recv else m[|m| - 1].remoteEnd
  }

  lemma {:induction false} GoalsFit(m: seq<FlushPosition>, localFlush: nat, recv: nat, floor: nat, seen: nat)
    requires Ordered(m) && Above(m, floor) && Within(m, seen) && recv <= seen
    ensures FlushGoal(m, localFlush, recv) <= ApplyGoal(m, localFlush, recv) && FlushGoal(m, localFlush, recv) <= seen
    ensures Above(m[Flushed(m, localFlush)..], FlushGoal(m, localFlush, recv))
  {
    TrimRaisesFloor(m, Flushed(m, localFlush), floor, seen);
  }

  /** What is left of the list is exactly what is not flushed. */
  ghost predicate Keeps(m: seq<FlushPosition>, rest: seq<FlushPosition>, localFlush: nat) {
    forall p :: p in rest <==> p in m && p.localEnd > localFlush
  }

  /** A commit that is found flushed is reported exactly when others are outstanding or the position received
      has reached its end; with none outstanding everything received is. */
  ghost predicate ReportsFlushed(m: seq<FlushPosition>, rest: seq<FlushPosition>, localFlush: nat, recv: nat,
                                 flush: nat)
  {
    && (rest == [] ==> flush >= recv)
    && (forall p :: p in m ==>
          (flush >= p.remoteEnd <==> p.localEnd <= localFlush && (rest != [] || recv >= p.remoteEnd)))
  }

  /** Every commit tracked is reported written, under the same proviso. */
  ghost predicate ReportsWritten(m: seq<FlushPosition>, rest: seq<FlushPosition>, recv: nat, before: nat, write: nat) {
    && (rest == [] ==> write >= recv)
    && (forall p :: p in m ==> (write >= p.remoteEnd <==> rest != [] || recv >= p.remoteEnd || before >= p.remoteEnd))
  }

  lemma {:induction false} LeftIsUnflushed(m: seq<FlushPosition>, localFlush: nat, p: FlushPosition)
    requires Ordered(m) && p in m[Flushed(m, localFlush)..]
    ensures p in m && p.localEnd > localFlush
  {
    var k := Flushed(m, localFlush);
    var i :| 0 <= i < |m| - k && m[k..][i] == p;
    assert m[k + i] == p && m[k].localEnd > localFlush;
    assert i > 0 ==> m[k].localEnd <= m[k + i].localEnd;
  }

  lemma {:induction false} TrimKeeps(m: seq<FlushPosition>, localFlush: nat)
    requires Ordered(m)
    ensures Keeps(m, m[Flushed(m, localFlush)..], localFlush)
  {
    forall p ensures p in m[Flushed(m, localFlush)..] <==> p in m && p.localEnd > localFlush {
      if p in m[Flushed(m, localFlush)..] {
        LeftIsUnflushed(m, localFlush, p);
      } else if p in m && p.localEnd > localFlush {
        StillListed(m, p, localFlush);
      }
    }
  }

  lemma {:induction false} FlushGoalReports(m: seq<FlushPosition>, localFlush: nat, recv: nat, flush: nat)
    requires Ordered(m) && Above(m, flush)
    ensures ReportsFlushed(m, m[Flushed(m, localFlush)..], localFlush, recv,
                           Wal.Max(flush, FlushGoal(m, localFlush, recv)))
  {
    FlushedInFront(m, localFlush);
    var k := Flushed(m, localFlush);
    forall i | 0 <= i < |m|
      ensures Wal.Max(flush, FlushGoal(m, localFlush, recv)) >= m[i].remoteEnd
              <==> m[i].localEnd <= localFlush && (m[k..] != [] || recv >= m[i].remoteEnd)
    {
    }
  }

  lemma {:induction false} ApplyGoalReports(m: seq<FlushPosition>, localFlush: nat, recv: nat, write: nat)
    requires Ordered(m)
    ensures ReportsWritten(m, m[Flushed(m, localFlush)..], recv, write, Wal.Max(write, ApplyGoal(m, localFlush, recv)))
  {
    FlushedInFront(m, localFlush);
  }

  lemma {:induction false} GoalsReport(m: seq<FlushPosition>, localFlush: nat, recv: nat, flush: nat, write: nat)
    requires Ordered(m) && Above(m, flush)
    ensures var rest := m[Flushed(m, localFlush)..];
      && Keeps(m, rest, localFlush)
      && ReportsFlushed(m, rest, localFlush, recv, Wal.Max(flush, FlushGoal(m, localFlush, recv)))
      && ReportsWritten(m, rest, recv, write, Wal.Max(write, ApplyGoal(m, localFlush, recv)))
  {
    TrimKeeps(m, localFlush);
    FlushGoalReports(m, localFlush, recv, flush);
    ApplyGoalReports(m, localFlush, recv, write);
  }

  /** Nothing is forgotten when the position received covers the whole list. */
  lemma {:induction false} StillReported(m: seq<FlushPosition>, done: seq<Commit>, localFlush: nat, recv: nat,
                                         flush: nat)
    requires Ordered(m) && Above(m, flush) && Reported(m, done, flush)
    requires Within(m, recv)
    ensures Reported(m[Flushed(m, localFlush)..], done, Wal.Max(flush, FlushGoal(m, localFlush, recv)))
  {
    GoalsReport(m, localFlush, recv, flush, 0);
  }

  class Feedback {
    var mapping: seq<FlushPosition>
    var lastRecv: nat
    var lastWrite: nat
    var lastFlush: nat

    ghost var done: seq<Commit>
    ghost var reports: seq<Report>
    ghost var seen: nat          // largest position received so far
    ghost var flushed: nat       // how far local WAL was seen flushed

    ghost predicate Valid()
      reads this
    {
      && Ordered(mapping) && Above(mapping, lastFlush) && Complete(mapping, done, flushed)
      && Monotone(reports, lastFlush, lastWrite)
      && lastRecv <= seen && lastFlush <= seen
      && Within(mapping, seen)
      && (forall i :: 0 <= i < |reports| ==> Honest(reports[i], done))
    }

    /** Every local commit has been reported flushed or is still listed. */
    ghost predicate AllReported()
      reads this
    {
      Reported(mapping, done, lastFlush)
    }

    constructor ()
      ensures Valid() && AllReported() && done == [] && reports == []
    {
      mapping, lastRecv, lastWrite, lastFlush := [], 0, 0, 0;
      done, reports, seen, flushed := [], [], 0, 0;
    }

    /** The end of `handle_commit` for a transaction with a local commit. */
    method TrackCommit(localEnd: nat, remoteEnd: nat)
      requires Valid() && remoteEnd > seen
      requires forall i :: 0 <= i < |mapping| ==> mapping[i].localEnd <= localEnd
      modifies this`mapping, this`done, this`seen
      ensures Valid() && done == old(done) + [Commit(remoteEnd, false, localEnd)] && seen == remoteEnd
      ensures mapping == old(mapping) + [FlushPosition(localEnd, remoteEnd)] && (old(AllReported()) ==> AllReported())
    {
      mapping := mapping + [FlushPosition(localEnd, remoteEnd)];
      done := done + [Commit(remoteEnd, false, localEnd)];
      seen := remoteEnd;
    }

    /** An empty transaction leaves no entry. */
    ghost method SkipEmpty(remoteEnd: nat)
      requires Valid() && remoteEnd > seen
      modifies this`done, this`seen
      ensures Valid() && done == old(done) + [Commit(remoteEnd, true, 0)] && seen == remoteEnd
      ensures old(AllReported()) ==> AllReported()
    {
      done := done + [Commit(remoteEnd, true, 0)];
      seen := remoteEnd;
    }

    /** `get_flush_position`. */
    method GetFlushPosition(localFlush: nat) returns (none: bool, write: nat, flush: nat)
      modifies this`mapping
      ensures var m, k := old(mapping), Flushed(old(mapping), localFlush);
        && mapping == m[k..] && none == (mapping == [])
        && flush == (if k == 0 then 0 else m[k - 1].remoteEnd)
        && write == (if m == [] then 0 else m[|m| - 1].remoteEnd)
    {
      write, flush := 0, 0;
      ghost var m, k := mapping, 0;
      while mapping != []
        invariant k <= |m| && mapping == m[k..]
        invariant Flushed(m, localFlush) == k + Flushed(mapping, localFlush)
        invariant flush == (if k == 0 then 0 else m[k - 1].remoteEnd) && write == flush
        decreases |mapping|
      {
        var pos := mapping[0];
        write := pos.remoteEnd;
        if pos.localEnd <= localFlush {
          flush := pos.remoteEnd;
          mapping := mapping[1..];
          k := k + 1;
        } else {
          write := mapping[|mapping| - 1].remoteEnd;
          return false, write, flush;
        }
      }
      none := true;
    }

    method Trim(localFlush: nat) returns (none: bool, write: nat, flush: nat)
      requires Valid() && localFlush >= flushed
      modifies this`mapping, this`flushed
      ensures Valid() && flushed == localFlush && none == (mapping == [])
      ensures mapping == old(mapping)[Flushed(old(mapping), localFlush)..]
      ensures flush == (if |mapping| == |old(mapping)| then 0
                        else old(mapping)[|old(mapping)| - |mapping| - 1].remoteEnd)
      ensures write == if old(mapping) == [] then 0 else old(mapping)[|old(mapping)| - 1].remoteEnd
    {
      ghost var m, k := mapping, Flushed(mapping, localFlush);
      TrimKeepsComplete(m, done, flushed, localFlush);
      TrimRaisesFloor(m, k, lastFlush, seen);
      none, write, flush := GetFlushPosition(localFlush);
      flushed := localFlush;
    }

    /** The positions to report, before they are compared with the last ones. */
    method Aim(localFlush: nat, recv: nat) returns (write: nat, flush: nat)
      requires Valid() && localFlush >= flushed
      modifies this`mapping, this`flushed
      ensures Valid() && flushed == localFlush && mapping == old(mapping)[Flushed(old(mapping), localFlush)..]
      ensures flush == FlushGoal(old(mapping), localFlush, recv) && write == ApplyGoal(old(mapping), localFlush, recv)
    {
      var none;
      none, write, flush := Trim(localFlush);
      if none {
        flush, write := recv, recv;
      }
    }

    method SendPositions(recv: nat, write: nat, flush: nat, force: bool)
      requires Valid() && lastRecv <= recv <= seen && flush <= write && flush <= seen
      requires Above(mapping, flush)
      modifies this`lastRecv, this`lastWrite, this`lastFlush, this`reports
      ensures Valid() && lastFlush == Wal.Max(old(lastFlush), flush) && lastWrite == Wal.Max(old(lastWrite), write)
      ensures reports == old(reports) || reports == old(reports) + [Report(lastRecv, lastFlush, lastWrite, flushed)]
      ensures reports == old(reports) <==> !force && lastFlush == old(lastFlush) && lastWrite == old(lastWrite)
      ensures reports != old(reports) ==> lastRecv == recv
    {
      var writepos, flushpos := write, flush;
      if writepos < lastWrite {
        writepos := lastWrite;
      }
      if flushpos < lastFlush {
        flushpos := lastFlush;
      }
      if !force && writepos == lastWrite && flushpos == lastFlush {
        return;
      }
      CompleteIsHonest(mapping, done, Report(recv, flushpos, writepos, flushed));
      MonotoneSnoc(reports, lastFlush, lastWrite, Report(recv, flushpos, writepos, flushed));
      reports := reports + [Report(recv, flushpos, writepos, flushed)];
      lastRecv := Wal.Max(lastRecv, recv);
      lastWrite := Wal.Max(lastWrite, writepos);
      lastFlush := Wal.Max(lastFlush, flushpos);
    }

    method TrimAndSend(recvpos: nat, localFlush: nat, force: bool)
      requires Valid() && localFlush >= flushed
      modifies this`mapping, this`lastRecv, this`lastWrite, this`lastFlush, this`reports, this`seen, this`flushed
      ensures Valid() && seen == Wal.Max(old(seen), recvpos)
      ensures var recv := Wal.Max(recvpos, old(lastRecv));
        && lastFlush == Wal.Max(old(lastFlush), FlushGoal(old(mapping), localFlush, recv))
        && lastWrite == Wal.Max(old(lastWrite), ApplyGoal(old(mapping), localFlush, recv))
      ensures reports == old(reports) || reports == old(reports) + [Report(lastRecv, lastFlush, lastWrite, localFlush)]
      ensures reports == old(reports) <==> !force && lastFlush == old(lastFlush) && lastWrite == old(lastWrite)
      ensures reports != old(reports) ==> lastRecv == Wal.Max(recvpos, old(lastRecv))
      ensures mapping == old(mapping)[Flushed(old(mapping), localFlush)..]
    {
      seen := Wal.Max(seen, recvpos);
      var recv := if recvpos < lastRecv then lastRecv else recvpos;
      GoalsFit(mapping, localFlush, recv, lastFlush, seen);
      var writepos, flushpos := Aim(localFlush, recv);
      SendPositions(recv, writepos, flushpos, force);
    }

    /** `send_feedback`, with no synchronous standby defined.  A commit found flushed is reported so exactly
        when others are still outstanding or the position received has reached its end; a caller that
        passes the last position received leaves no flushed commit unreported. */
    method SendFeedback(recvpos: nat, localFlush: nat, force: bool)
      requires Valid() && localFlush >= flushed
      modifies this`mapping, this`lastRecv, this`lastWrite, this`lastFlush, this`reports, this`seen, this`flushed
      ensures Valid() && seen == Wal.Max(old(seen), recvpos)
      ensures reports == old(reports) || reports == old(reports) + [Report(lastRecv, lastFlush, lastWrite, localFlush)]
      ensures reports == old(reports) <==> !force && lastFlush == old(lastFlush) && lastWrite == old(lastWrite)
      ensures reports != old(reports) ==> lastRecv == Wal.Max(recvpos, old(lastRecv))
      ensures var recv := Wal.Max(recvpos, old(lastRecv));
        && Keeps(old(mapping), mapping, localFlush)
        && ReportsFlushed(old(mapping), mapping, localFlush, recv, lastFlush)
        && ReportsWritten(old(mapping), mapping, recv, old(lastWrite), lastWrite)
      ensures old(AllReported()) && recvpos >= old(seen) ==> AllReported()
    {
      GoalsReport(mapping, localFlush, Wal.Max(recvpos, lastRecv), lastFlush, lastWrite);
      if AllReported() && recvpos >= seen {
        StillReported(mapping, done, localFlush, Wal.Max(recvpos, lastRecv), lastFlush);
      }
      TrimAndSend(recvpos, localFlush, force);
    }
  }
}
