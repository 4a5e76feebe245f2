/** The output plugin's record of which relation descriptions the client already has.  Relcache
    invalidations may arrive at any time, also while a description is being written; one for the invalid
    OID is meant for all relations at once. */
module RelMetaCache {

  type Oid = nat

  const INVALID_OID: nat := 0
  const INITIAL_SIZE: nat := 128

  /** The OID of an actual relation. */
  type RelOid = n: nat | n != 0 witness 1

  datatype Entry = Entry(cached: bool, valid: bool)

  /** What happens, in order.  A row change remembers where its schema check took place. */
  datatype Event =
    | Invalidated(relid: Oid)
    | InvalidatedAll
    | Checked(relid: Oid)
    | RelationSent(relid: Oid)
    | RowSent(relid: Oid, check: nat)
    | SessionEnded

  // ---------- what the client is owed ----------

  /** Between `j` and `k` nothing outdates what the client knows of `relid`. */
  ghost predicate CurrentSince(log: seq<Event>, relid: Oid, j: nat, k: nat) {
    forall i :: j < i < k && i < |log| ==>
      log[i] != Invalidated(relid) && log[i] != InvalidatedAll && log[i] != SessionEnded
  }

  /** The client has a description of `relid`, sent in this session, newer than every invalidation before
      `k`. */
  ghost predicate Described(log: seq<Event>, relid: Oid, k: nat) {
    exists j :: 0 <= j < |log| && log[j] == RelationSent(relid) && CurrentSince(log, relid, j, k)
                && SessionEnded !in log[j..]
  }

  /** A row change at `k` found its client described as of its schema check. */
  ghost predicate RowCovered(log: seq<Event>, k: nat)
    requires k < |log| && log[k].RowSent?
  {
    Described(log[..k], log[k].relid, log[k].check)
  }

  // ---------- what the cache knows ----------

  /** No invalidation of `relid` by itself and no end of session at or after `c`. */
  ghost predicate Quiet(log: seq<Event>, relid: Oid, c: nat) {
    forall i :: c <= i < |log| ==> log[i] != Invalidated(relid) && log[i] != SessionEnded
  }

  /** A description was sent at `j` after a schema check at `c`, and since that check nothing has told the
      cache that it is out of date. */
  ghost predicate HeldSince(log: seq<Event>, relid: Oid, c: nat, j: nat) {
    c < j < |log| && log[c] == Checked(relid) && log[j] == RelationSent(relid) && Quiet(log, relid, c)
  }

  ghost predicate Held(log: seq<Event>, relid: Oid) {
    exists c: nat, j: nat :: HeldSince(log, relid, c, j)
  }

  /** A whole-cache invalidation came after the latest description the cache holds to be current. */
  ghost predicate Overtaken(log: seq<Event>, relid: Oid) {
    exists c: nat, j: nat, i: nat :: HeldSince(log, relid, c, j) && j < i < |log| && log[i] == InvalidatedAll
                      && RelationSent(relid) !in log[j + 1..]
  }

  /** Entries that are valid and cached are exactly the descriptions held to be current. */
  ghost predicate Accurate(entries: map<RelOid, Entry>, log: seq<Event>) {
    forall r: RelOid :: (r in entries && entries[r].valid && entries[r].cached) <==> Held(log, r)
  }

  /** Every row change is covered, except when a whole-cache invalidation had overtaken the description. */
  ghost predicate RowJudged(log: seq<Event>, k: nat)
    requires k < |log|
  {
    log[k].RowSent? ==>
      && log[k].check < k && log[log[k].check] == Checked(log[k].relid)
      && (RowCovered(log, k) <==> !Overtaken(log[..log[k].check], log[k].relid))
  }

  ghost predicate RowsJudged(log: seq<Event>) {
    forall k :: 0 <= k < |log| ==> RowJudged(log, k)
  }

  lemma {:induction false} SameJudgement(log: seq<Event>, more: seq<Event>, k: nat)
    requires k < |log| && RowJudged(log, k)
    ensures RowJudged(log + more, k)
  {
    assert (log + more)[..k] == log[..k];
    if log[k].RowSent? {
      assert (log + more)[..log[k].check] == log[..log[k].check];
    }
  }

  lemma {:induction false} RowsJudgedAppend(log: seq<Event>, more: seq<Event>)
    requires RowsJudged(log) && forall i :: 0 <= i < |more| ==> !more[i].RowSent?
    ensures RowsJudged(log + more)
  {
    forall k | 0 <= k < |log + more| ensures RowJudged(log + more, k) {
      if k < |log| {
        SameJudgement(log, more, k);
      }
    }
  }

  lemma {:induction false} RowsJudgedRow(log: seq<Event>, relid: Oid, check: nat)
    requires RowsJudged(log) && check < |log| && log[check] == Checked(relid)
    requires Described(log, relid, check) <==> !Overtaken(log[..check], relid)
    ensures RowsJudged(log + [RowSent(relid, check)])
  {
    var more := [RowSent(relid, check)];
    forall k | 0 <= k < |log + more| ensures RowJudged(log + more, k) {
      if k < |log| {
        SameJudgement(log, more, k);
      } else {
        assert (log + more)[..k] == log && (log + more)[..check] == log[..check];
      }
    }
  }

  // ---------- how single events change what is held ----------

  lemma {:induction false} SameBefore(log: seq<Event>, e: Event, relid: Oid, c: nat, j: nat)
    requires HeldSince(log + [e], relid, c, j) && j < |log|
    ensures HeldSince(log, relid, c, j)
  {
    assert forall i :: 0 <= i < |log| ==> (log + [e])[i] == log[i];
  }

  /** An event that is not a description of `relid` and does not outdate it changes nothing about it. */
  lemma {:induction false} HeldUnlessOutdated(log: seq<Event>, e: Event, relid: Oid)
    requires e != RelationSent(relid)
    ensures Held(log + [e], relid) <==> Held(log, relid) && e != Invalidated(relid) && e != SessionEnded
  {
    var after := log + [e];
    if Held(log, relid) && e != Invalidated(relid) && e != SessionEnded {
      var c: nat, j: nat :| HeldSince(log, relid, c, j);
      assert HeldSince(after, relid, c, j);
    }
    if Held(after, relid) {
      var c: nat, j: nat :| HeldSince(after, relid, c, j);
      assert after[|log|] == e;
      SameBefore(log, e, relid, c, j);
    }
  }

  /** A description just sent is held exactly when its relation was quiet since the schema check. */
  lemma {:induction false} HeldOnceSent(log: seq<Event>, relid: Oid, check: nat)
    requires check < |log| && log[check] == Checked(relid) && !Held(log, relid)
    requires forall i :: check < i < |log| ==> log[i] != Checked(relid)
    ensures Held(log + [RelationSent(relid)], relid) <==> Quiet(log, relid, check)
  {
    var after := log + [RelationSent(relid)];
    if Quiet(log, relid, check) {
      assert HeldSince(after, relid, check, |log|);
    }
    if Held(after, relid) {
      var c: nat, j: nat :| HeldSince(after, relid, c, j);
      if j < |log| {
        SameBefore(log, RelationSent(relid), relid, c, j);
      }
      assert forall i :: 0 <= i < |log| ==> after[i] == log[i];
    }
  }

  // ---------- arrivals ----------

  function EventOf(relid: Oid): Event {
    if relid == INVALID_OID then InvalidatedAll else Invalidated(relid)
  }

  function Events(relids: seq<Oid>): (es: seq<Event>)
    ensures |es| == |relids| && forall i :: 0 <= i < |es| ==> es[i] == EventOf(relids[i])
  {
    seq(|relids|, i requires 0 <= i < |relids| => EventOf(relids[i]))
  }

  function MarkAll(entries: map<RelOid, Entry>, relids: seq<Oid>): map<RelOid, Entry> {
    map r | r in entries :: entries[r].(valid := entries[r].valid && r !in relids)
  }

  predicate Knows(entries: map<RelOid, Entry>, relid: RelOid) {
    relid in entries && entries[relid].valid && entries[relid].cached
  }

  lemma {:induction false} AccurateAfter(entries: map<RelOid, Entry>, log: seq<Event>, after: map<RelOid, Entry>,
                                         e: Event)
    requires Accurate(entries, log) && !e.RelationSent?
    requires forall r: RelOid :: Knows(after, r) <==> Knows(entries, r) && e != Invalidated(r) && e != SessionEnded
    ensures Accurate(after, log + [e])
  {
    forall r: RelOid ensures Knows(after, r) <==> Held(log + [e], r) {
      HeldUnlessOutdated(log, e, r);
    }
  }

  lemma {:induction false} ArrivalsKeepAccurate(entries: map<RelOid, Entry>, log: seq<Event>, relids: seq<Oid>)
    requires Accurate(entries, log)
    ensures Accurate(MarkAll(entries, relids), log + Events(relids))
  {
    if relids == [] {
      assert log + Events(relids) == log && MarkAll(entries, relids) == entries;
    } else {
      var front, last := relids[..|relids| - 1], relids[|relids| - 1];
      assert relids == front + [last];
      ArrivalsKeepAccurate(entries, log, front);
      AccurateAfter(MarkAll(entries, front), log + Events(front), MarkAll(entries, relids), EventOf(last));
      assert log + Events(relids) == log + Events(front) + [EventOf(last)];
    }
  }

  /** The entry as it will be once marked cached. */
  function WithCached(entries: map<RelOid, Entry>, relid: RelOid): map<RelOid, Entry>
    requires relid in entries
  {
    entries[relid := entries[relid].(cached := true)]
  }

  lemma {:induction false} QuietWhileReading(log: seq<Event>, reading: seq<Oid>, relid: RelOid)
    requires log != [] && log[|log| - 1] == Checked(relid)
    ensures Quiet(log + Events(reading), relid, |log| - 1) <==> relid !in reading
    ensures forall i :: |log| - 1 < i < |log + Events(reading)| ==> (log + Events(reading))[i] != Checked(relid)
  {
    var all := log + Events(reading);
    assert forall i :: |log| <= i < |all| ==> all[i] == EventOf(reading[i - |log|]);
    if relid in reading {
      var i :| 0 <= i < |reading| && reading[i] == relid;
      assert all[|log| + i] == Invalidated(relid);
    }
  }

  lemma {:induction false} SendingKeepsAccurate(entries: map<RelOid, Entry>, log: seq<Event>, relid: RelOid,
                                                reading: seq<Oid>)
    requires Accurate(entries, log) && relid in entries && entries[relid] == Entry(false, true)
    requires log != [] && log[|log| - 1] == Checked(relid)
    ensures Accurate(WithCached(MarkAll(entries, reading), relid), log + Events(reading) + [RelationSent(relid)])
  {
    var marked, before := MarkAll(entries, reading), log + Events(reading);
    ArrivalsKeepAccurate(entries, log, reading);
    assert !Knows(marked, relid);
    assert Quiet(before, relid, |log| - 1) <==> relid !in reading by {
      QuietWhileReading(log, reading, relid);
    }
    HeldOnceSent(before, relid, |log| - 1);
    forall r: RelOid | r != relid
      ensures Knows(WithCached(marked, relid), r) <==> Held(before + [RelationSent(relid)], r)
    {
      HeldUnlessOutdated(before, RelationSent(relid), r);
    }
  }

  // ---------- when a row change is covered ----------

  lemma {:induction false} LastSent(log: seq<Event>, relid: Oid, from: nat) returns (j: nat)
    requires from < |log| && log[from] == RelationSent(relid)
    ensures from <= j < |log| && log[j] == RelationSent(relid) && RelationSent(relid) !in log[j + 1..]
    decreases |log| - from
  {
    j := from;
    if RelationSent(relid) in log[from + 1..] {
      var i :| from + 1 <= i < |log| && log[i] == RelationSent(relid);
      j := LastSent(log, relid, i);
    }
  }

  /** Nothing is sent because the cache holds the description to be current: the row is covered exactly
      when no whole-cache invalidation has overtaken it. */
  lemma {:induction false} CoveredWhenHeld(log: seq<Event>, more: seq<Event>, relid: Oid)
    requires Held(log, relid) && RelationSent(relid) !in more && SessionEnded !in more
    ensures Described(log + more, relid, |log|) <==> !Overtaken(log, relid)
  {
    var all := log + more;
    assert forall i :: 0 <= i < |log| ==> all[i] == log[i];
    if Overtaken(log, relid) {
      var c: nat, j: nat, i: nat :| HeldSince(log, relid, c, j) && j < i < |log| && log[i] == InvalidatedAll
                                    && RelationSent(relid) !in log[j + 1..];
      forall d: nat | d < |all| && all[d] == RelationSent(relid) ensures !CurrentSince(all, relid, d, |log|) {
        assert all[i] == InvalidatedAll;
      }
    }
    if !Overtaken(log, relid) {
      var c: nat, from: nat :| HeldSince(log, relid, c, from);
      var j := LastSent(log, relid, from);
      assert HeldSince(log, relid, c, j);
      assert CurrentSince(all, relid, j, |log|);
      assert all[j] == RelationSent(relid) && SessionEnded !in all[j..] by {
        assert forall i :: j <= i < |all| ==> all[i] == if i < |log| then log[i] else more[i - |log|];
      }
    }
  }

  /** A description is overtaken exactly when a whole-cache invalidation arrives while the cache holds it to
      be current, until the relation is invalidated by itself, described again or the session ends. */
  lemma {:induction false} OvertakenStep(log: seq<Event>, e: Event, relid: Oid)
    ensures Overtaken(log + [e], relid) <==>
      if e == InvalidatedAll then Held(log, relid)
      else Overtaken(log, relid) && e != Invalidated(relid) && e != SessionEnded && e != RelationSent(relid)
  {
    var all := log + [e];
    assert all[|log|] == e && forall i :: 0 <= i < |log| ==> all[i] == log[i];
    if e == InvalidatedAll && Held(log, relid) {
      var c: nat, from: nat :| HeldSince(log, relid, c, from);
      var j := LastSent(log, relid, from);
      assert all[j + 1..] == log[j + 1..] + [e];
      assert HeldSince(all, relid, c, j);
    } else if Overtaken(log, relid) && e != Invalidated(relid) && e != SessionEnded && e != RelationSent(relid) {
      var c: nat, j: nat, i: nat :| HeldSince(log, relid, c, j) && j < i < |log| && log[i] == InvalidatedAll
                                    && RelationSent(relid) !in log[j + 1..];
      assert all[j + 1..] == log[j + 1..] + [e];
      assert HeldSince(all, relid, c, j) && all[i] == InvalidatedAll;
    }
    if Overtaken(all, relid) {
      var c: nat, j: nat, i: nat :| HeldSince(all, relid, c, j) && j < i < |all| && all[i] == InvalidatedAll
                                    && RelationSent(relid) !in all[j + 1..];
      SameBefore(log, e, relid, c, j);
      assert all[j + 1..] == log[j + 1..] + [e];
    }
  }

  /** A description sent after the check covers the row whatever came before. */
  lemma {:induction false} CoveredWhenSent(log: seq<Event>, more: seq<Event>, relid: Oid, d: nat)
    requires !Held(log, relid) && d < |more| && more[d] == RelationSent(relid) && SessionEnded !in more
    ensures Described(log + more, relid, |log|) && !Overtaken(log, relid)
  {
    var all, j := log + more, |log| + d;
    assert all[j] == RelationSent(relid) && SessionEnded !in all[j..] by {
      assert forall i :: j <= i < |all| ==> all[i] == more[i - |log|];
    }
  }

  /** Without whole-cache invalidations every row change is covered. */
  lemma {:induction false} CoveredWithoutWholeInvalidations(log: seq<Event>, k: nat)
    requires RowsJudged(log) && InvalidatedAll !in log && k < |log| && log[k].RowSent?
    ensures RowCovered(log, k)
  {
    assert RowJudged(log, k);
  }

  /** What one row change puts into the log after its schema check, up to the row itself. */
  function EventsOfChange(known: bool, relid: RelOid, reading: seq<Oid>, writing: seq<Oid>,
                          later: seq<Oid>): seq<Event>
  {
    [Checked(relid)]
    + (if known then [] else Events(reading) + [RelationSent(relid)] + Events(writing))
    + Events(later)
  }

  /** What it makes of the entries. */
  function AfterSchema(entries: map<RelOid, Entry>, relid: RelOid, reading: seq<Oid>,
                       writing: seq<Oid>): map<RelOid, Entry>
  {
    if Knows(entries, relid) then entries
    else WithCached(MarkAll(MarkAll(entries[relid := Entry(false, true)], reading), writing), relid)
  }

  lemma {:induction false} ChangeJudged(entries: map<RelOid, Entry>, log: seq<Event>, relid: RelOid,
                                        reading: seq<Oid>, writing: seq<Oid>, later: seq<Oid>)
    requires Accurate(entries, log)
    ensures var since := EventsOfChange(Knows(entries, relid), relid, reading, writing, later);
      Described(log + since, relid, |log|) <==> !Overtaken(log, relid)
  {
    var since := EventsOfChange(Knows(entries, relid), relid, reading, writing, later);
    if Knows(entries, relid) {
      CoveredWhenHeld(log, since, relid);
    } else {
      assert since[1 + |reading|] == RelationSent(relid);
      CoveredWhenSent(log, since, relid, 1 + |reading|);
    }
  }

  // ---------- the cache ----------

  class Cache {
    var entries: map<RelOid, Entry>
    var invalidCount: nat

    ghost var log: seq<Event>

    /** Over the whole log, a row change is covered exactly when no whole-cache invalidation had overtaken
        the description of its relation. */
    ghost predicate Valid()
      reads this
    {
      RowsJudged(log) && Accurate(entries, log)
    }

    constructor ()
      ensures Valid() && entries == map[] && invalidCount == 0 && log == []
    {
      entries, invalidCount, log := map[], 0, [];
    }

    /** `relmetacache_invalidation_cb`: the invalid OID is not among the entries, so nothing is marked. */
    method InvalidationCallback(relid: Oid)
      modifies this
      ensures log == old(log) + [EventOf(relid)] && entries == MarkAll(old(entries), [relid])
      ensures invalidCount == old(invalidCount) + (if relid in old(entries) then 1 else 0)
      ensures old(Valid()) ==> Valid()
    {
      if Valid() {
        assert [EventOf(relid)] == Events([relid]);
        RowsJudgedAppend(log, Events([relid]));
        ArrivalsKeepAccurate(entries, log, [relid]);
      }
      if relid in entries {
        entries := entries[relid := entries[relid].(valid := false)];
        invalidCount := invalidCount + 1;
      }
      assert entries == MarkAll(old(entries), [relid]);
      log := log + [EventOf(relid)];
    }

    /** Invalidations that arrive while something else is going on. */
    method Arrive(relids: seq<Oid>)
      modifies this
      ensures log == old(log) + Events(relids) && entries == MarkAll(old(entries), relids)
    {
      for i := 0 to |relids|
        invariant log == old(log) + Events(relids[..i]) && entries == MarkAll(old(entries), relids[..i])
      {
        InvalidationCallback(relids[i]);
        assert relids[..i + 1] == relids[..i] + [relids[i]];
        assert Events(relids[..i + 1]) == Events(relids[..i]) + [EventOf(relids[i])];
      }
      assert relids[..|relids|] == relids;
    }

    /** `relmetacache_get_relation`. */
    method GetRelation(relid: RelOid)
      requires Valid()
      modifies this`entries, this`log
      ensures Valid() && log == old(log) + [Checked(relid)]
      ensures entries == old(entries)[relid := if relid in old(entries) && old(entries)[relid].valid
                                               then old(entries)[relid] else Entry(false, true)]
    {
      RowsJudgedAppend(log, [Checked(relid)]);
      ghost var before := entries;
      if relid !in entries || !entries[relid].valid {
        entries := entries[relid := Entry(false, true)];
      }
      AccurateAfter(before, log, entries, Checked(relid));
      log := log + [Checked(relid)];
    }

    /** Writing the description.  `reading` and `writing`: invalidations that arrive before and after the
        relation message goes out, while the entry is not yet marked cached. */
    method SendSchema(relid: RelOid, reading: seq<Oid>, writing: seq<Oid>) returns (ghost more: seq<Event>)
      requires Valid() && relid in entries && entries[relid] == Entry(false, true)
      requires log != [] && log[|log| - 1] == Checked(relid)
      modifies this
      ensures Valid() && entries == WithCached(MarkAll(MarkAll(old(entries), reading), writing), relid)
      ensures log == old(log) + more && more == Events(reading) + [RelationSent(relid)] + Events(writing)
    {
      SendingKeepsAccurate(entries, log, relid, reading);
      Arrive(reading);
      log := log + [RelationSent(relid)];
      ArrivalsKeepAccurate(WithCached(entries, relid), log, writing);
      Arrive(writing);
      assert WithCached(entries, relid) == MarkAll(WithCached(MarkAll(old(entries), reading), relid), writing);
      entries := entries[relid := entries[relid].(cached := true)];
      more := Events(reading) + [RelationSent(relid)] + Events(writing);
      assert log == old(log) + more;
      RowsJudgedAppend(old(log), more);
    }

    /** `maybe_send_schema`: a description is sent unless the entry is valid and cached. */
    method MaybeSendSchema(relid: RelOid, reading: seq<Oid>, writing: seq<Oid>) returns (ghost more: seq<Event>)
      requires Valid()
      modifies this
      ensures Valid() && entries == AfterSchema(old(entries), relid, reading, writing)
      ensures log == old(log) + [Checked(relid)] + more
      ensures more == if Knows(old(entries), relid) then []
                      else Events(reading) + [RelationSent(relid)] + Events(writing)
    {
      GetRelation(relid);
      if !entries[relid].cached {
        more := SendSchema(relid, reading, writing);
      } else {
        more := [];
      }
    }

    /** A row change: schema check, invalidations that arrive before the row is written, the row. */
    method Change(relid: RelOid, reading: seq<Oid>, writing: seq<Oid>, later: seq<Oid>)
      requires Valid()
      modifies this
      ensures Valid() && entries == MarkAll(AfterSchema(old(entries), relid, reading, writing), later)
      ensures log == old(log) + EventsOfChange(Knows(old(entries), relid), relid, reading, writing, later)
                     + [RowSent(relid, |old(log)|)]
      ensures RowCovered(log, |log| - 1) <==> !Overtaken(old(log), relid)
    {
      ghost var start := log;
      ChangeJudged(entries, log, relid, reading, writing, later);
      BeforeRow(relid, reading, writing, later);
      assert log[|start|] == Checked(relid) && log[..|start|] == start;
      SendRow(relid, |start|);
    }

    method BeforeRow(relid: RelOid, reading: seq<Oid>, writing: seq<Oid>, later: seq<Oid>)
      requires Valid()
      modifies this
      ensures Valid() && entries == MarkAll(AfterSchema(old(entries), relid, reading, writing), later)
      ensures log == old(log) + EventsOfChange(Knows(old(entries), relid), relid, reading, writing, later)
    {
      ghost var start := log;
      ghost var more := MaybeSendSchema(relid, reading, writing);
      ArriveInOrder(later);
      assert (start + [Checked(relid)] + more) + Events(later) == start + ([Checked(relid)] + more + Events(later));
    }

    ghost method SendRow(relid: RelOid, check: nat)
      requires Valid() && check < |log| && log[check] == Checked(relid)
      requires Described(log, relid, check) <==> !Overtaken(log[..check], relid)
      modifies this`log
      ensures Valid() && log == old(log) + [RowSent(relid, check)]
      ensures RowCovered(log, |log| - 1) <==> Described(old(log), relid, check)
    {
      RowsJudgedRow(log, relid, check);
      AccurateAfter(entries, log, entries, RowSent(relid, check));
      log := log + [RowSent(relid, check)];
      assert log[..|log| - 1] == old(log);
    }

    method ArriveInOrder(relids: seq<Oid>)
      requires Valid()
      modifies this
      ensures Valid() && log == old(log) + Events(relids) && entries == MarkAll(old(entries), relids)
    {
      RowsJudgedAppend(log, Events(relids));
      ArrivalsKeepAccurate(entries, log, relids);
      Arrive(relids);
    }

    /** `relmetacache_prune`; `order` is the order in which the hash table is scanned. */
    method Prune(order: seq<RelOid>)
      requires forall r :: r in entries <==> r in order
      modifies this`entries, this`invalidCount
      ensures old(Valid()) ==> Valid()
      ensures old(invalidCount) < INITIAL_SIZE / 2 || old(entries) == map[] ==>
        entries == old(entries) && invalidCount == old(invalidCount)
      ensures old(invalidCount) >= INITIAL_SIZE / 2 && old(entries) != map[] ==>
        entries == (map r | r in old(entries) && old(entries)[r].valid :: old(entries)[r]) && invalidCount == 0
    {
      if invalidCount < INITIAL_SIZE / 2 || |entries| == 0 {
        return;
      }
      RemoveInvalid(order);
      invalidCount := 0;
      if old(Valid()) {
        assert forall r: RelOid :: Knows(entries, r) <==> Knows(old(entries), r);
      }
    }

    /** Two passes, because entries cannot be removed during the scan. */
    method RemoveInvalid(order: seq<RelOid>)
      requires forall r :: r in entries <==> r in order
      modifies this`entries
      ensures entries == map r | r in old(entries) && old(entries)[r].valid :: old(entries)[r]
    {
      var doomed: seq<RelOid> := [];
      for i := 0 to |order|
        invariant forall r :: r in doomed <==> r in order[..i] && !entries[r].valid
      {
        if !entries[order[i]].valid {
          doomed := doomed + [order[i]];
        }
        assert order[..i + 1] == order[..i] + [order[i]];
      }
      assert order[..|order|] == order;
      for i := 0 to |doomed|
        invariant entries == map r | r in old(entries) && r !in doomed[..i] :: old(entries)[r]
      {
        entries := entries - {doomed[i]};
        assert doomed[..i + 1] == doomed[..i] + [doomed[i]];
      }
      assert doomed[..|doomed|] == doomed;
    }

    /** `relmetacache_flush` at the end of the session; the next client starts with nothing. */
    method Flush(order: seq<RelOid>)
      requires Valid() && forall r :: r in entries <==> r in order
      modifies this`entries, this`log
      ensures Valid() && entries == map[] && log == old(log) + [SessionEnded]
    {
      for i := 0 to |order|
        modifies this`entries
        invariant forall r :: r in entries ==> r in order[i..]
      {
        entries := entries - {order[i]};
        assert order[i..] == [order[i]] + order[i + 1..];
      }
      assert entries == map[];
      RowsJudgedAppend(log, [SessionEnded]);
      AccurateAfter(old(entries), log, entries, SessionEnded);
      log := log + [SessionEnded];
    }
  }

  /** Whenever a whole-cache invalidation arrives while the relation's entry is valid and cached, the next
      row change goes out with the description it made obsolete. */
  method WholeInvalidationMissed(cache: Cache, relid: RelOid)
    requires cache.Valid() && Knows(cache.entries, relid)
    modifies cache
    ensures cache.Valid() && cache.log != [] && cache.log[|cache.log| - 1].RowSent?
    ensures !RowCovered(cache.log, |cache.log| - 1)
  {
    OvertakenStep(cache.log, InvalidatedAll, relid);
    cache.InvalidationCallback(INVALID_OID);
    cache.Change(relid, [], [], []);
  }

  /** A fresh session reaches that point after one row change. */
  method MissedInFreshSession(relid: RelOid) returns (cache: Cache)
    ensures cache.Valid() && cache.log != [] && cache.log[|cache.log| - 1].RowSent?
    ensures !RowCovered(cache.log, |cache.log| - 1)
  {
    cache := new Cache();
    cache.Change(relid, [], [], []);
    WholeInvalidationMissed(cache, relid);
  }
}
