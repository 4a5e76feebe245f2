/** Holding back logical WAL until enough named standby slots have flushed it, with a cached lower bound
    that lets later calls skip the scan. */
module StandbyConfirmation {
  import Wal

  /** `flush`: restart position of a physical slot, confirmed flush position of a logical one. */
  datatype Slot = Slot(inUse: bool, name: string, flush: nat)

  /** Flush positions of the named slots, in slot order. */
  function Flushes(names: seq<string>, slots: seq<Slot>): seq<nat> {
    if slots == [] then []
    else
      var s := slots[|slots| - 1];
      Flushes(names, slots[..|slots| - 1]) + (if s.inUse && s.name in names then [s.flush] else [])
  }

  /** How many of them have reached `lsn`. */
  function Count(fs: seq<nat>, lsn: nat): nat {
    if fs == [] then 0 else Count(fs[..|fs| - 1], lsn) + (if fs[|fs| - 1] >= lsn then 1 else 0)
  }

  /** The setting; -1 stands for all that are named. */
  type MinConfirmed = n: int | -1 <= n

  /** How many must have. */
  function Required(names: seq<string>, minConfirmed: MinConfirmed): nat {
    if minConfirmed == -1 || minConfirmed > |names| then |names| else minConfirmed
  }

  /** The minimum as the scan computes it, where 0 doubles as "none yet". */
  function ScanOldest(fs: seq<nat>): nat {
    if fs == [] then 0
    else
      var oldest, f := ScanOldest(fs[..|fs| - 1]), fs[|fs| - 1];
      if oldest == 0 || oldest > f then f else oldest
  }

  // ---------- what a confirmation is ----------

  /** The slots that confirm `lsn`: in use, named, and flushed that far. */
  ghost function Confirming(names: seq<string>, slots: seq<Slot>, lsn: nat): set<nat> {
    set i | 0 <= i < |slots| && slots[i].inUse && slots[i].name in names && slots[i].flush >= lsn
  }

  /** As many as the setting asks for, or as there are names. */
  ghost predicate Enough(names: seq<string>, minConfirmed: MinConfirmed, slots: seq<Slot>, lsn: nat) {
    var n := |Confirming(names, slots, lsn)|;
    n >= |names| || (minConfirmed >= 0 && n >= minConfirmed)
  }

  lemma {:induction false} CountSnoc(fs: seq<nat>, f: nat, lsn: nat)
    ensures Count(fs + [f], lsn) == Count(fs, lsn) + if f >= lsn then 1 else 0
  {
    assert (fs + [f])[..|fs|] == fs;
  }

  /** The positions counted are those of the confirming slots. */
  lemma {:induction false} CountIsConfirming(names: seq<string>, slots: seq<Slot>, lsn: nat)
    ensures Count(Flushes(names, slots), lsn) == |Confirming(names, slots, lsn)|
  {
    if slots == [] {
      assert Confirming(names, slots, lsn) == {};
    } else {
      var n := |slots| - 1;
      var front, s := slots[..n], slots[n];
      CountIsConfirming(names, front, lsn);
      var here := if s.inUse && s.name in names && s.flush >= lsn then {n} else {};
      assert Confirming(names, slots, lsn) == Confirming(names, front, lsn) + here;
      assert n !in Confirming(names, front, lsn);
      if s.inUse && s.name in names {
        CountSnoc(Flushes(names, front), s.flush, lsn);
      } else {
        assert Flushes(names, slots) == Flushes(names, front);
      }
    }
  }

  /** Enough slots confirm exactly when the count reaches what is required. */
  lemma {:induction false} EnoughExactly(names: seq<string>, minConfirmed: MinConfirmed, slots: seq<Slot>, lsn: nat)
    ensures Enough(names, minConfirmed, slots, lsn) <==>
      Count(Flushes(names, slots), lsn) >= Required(names, minConfirmed)
  {
    CountIsConfirming(names, slots, lsn);
  }

  // ---------- the scan ----------

  method Scan(names: seq<string>, slots: seq<Slot>, lsn: nat, required: nat) returns (oldest: nat, remaining: nat)
    ensures oldest == ScanOldest(Flushes(names, slots))
    ensures var c := Count(Flushes(names, slots), lsn); remaining == if c >= required then 0 else required - c
    ensures var c := |Confirming(names, slots, lsn)|; remaining == if c >= required then 0 else required - c
  {
    oldest, remaining := 0, required;
    for i := 0 to |slots|
      invariant oldest == ScanOldest(Flushes(names, slots[..i]))
      invariant var c := Count(Flushes(names, slots[..i]), lsn); remaining == if c >= required then 0 else required - c
    {
      var s := slots[i];
      assert slots[..i + 1][..i] == slots[..i];
      ghost var fs := Flushes(names, slots[..i]);
      if s.inUse && s.name in names {
        assert (fs + [s.flush])[..|fs|] == fs;
        if oldest == 0 || oldest > s.flush {
          oldest := s.flush;
        }
        if s.flush >= lsn && remaining > 0 {
          remaining := remaining - 1;
        }
      } else {
        assert fs + [] == fs;
      }
    }
    assert slots[..|slots|] == slots;
    CountIsConfirming(names, slots, lsn);
  }

  /** The scan finds the true minimum exactly when no named slot reports 0, or the last one scanned does. */
  lemma {:induction false} ScanOldestExactly(fs: seq<nat>)
    requires fs != []
    ensures (ScanOldest(fs) in fs && forall f :: f in fs ==> ScanOldest(fs) <= f) <==> (0 !in fs || fs[|fs| - 1] == 0)
    ensures ScanOldest(fs) in fs
    ensures 0 !in fs ==> ScanOldest(fs) > 0
    ensures 0 in fs && fs[|fs| - 1] != 0 ==> ScanOldest(fs) > 0
  {
    var t := fs[..|fs| - 1];
    assert fs == t + [fs[|fs| - 1]];
    if t != [] {
      ScanOldestExactly(t);
    }
  }

  // ---------- the cached bound ----------

  lemma {:induction false} CountBound(fs: seq<nat>, lsn: nat)
    ensures Count(fs, lsn) <= |fs|
    ensures (forall f :: f in fs ==> f >= lsn) ==> Count(fs, lsn) == |fs|
  {
    if fs == [] {
    } else {
      var t, last := fs[..|fs| - 1], fs[|fs| - 1];
      CountBound(t, lsn);
      assert last in fs && forall f :: f in t ==> f in fs;
    }
  }

  lemma {:induction false} CountFalls(fs: seq<nat>, lsn: nat, higher: nat)
    requires lsn <= higher
    ensures Count(fs, lsn) >= Count(fs, higher)
  {
    if fs == [] {
    } else {
      CountFalls(fs[..|fs| - 1], lsn, higher);
    }
  }

  /** The shortcut may be taken: whatever position it lets through, enough named slots have reached it. */
  ghost predicate ShortcutSafe(cache: nat, fs: seq<nat>, required: nat) {
    forall lsn :: 0 < lsn <= cache ==> Count(fs, lsn) >= required
  }

  lemma {:induction false} SafeAtTheTop(cache: nat, fs: seq<nat>, required: nat)
    ensures ShortcutSafe(cache, fs, required) <==> cache == 0 || Count(fs, cache) >= required
  {
    if cache > 0 && Count(fs, cache) >= required {
      forall lsn | 0 < lsn <= cache ensures Count(fs, lsn) >= required {
        CountFalls(fs, lsn, cache);
      }
    }
  }

  /** The least position scanned after the last 0, or 0 if that came last. */
  function LeastSinceZero(fs: seq<nat>): nat {
    if fs == [] || fs[|fs| - 1] == 0 then 0
    else
      var least := LeastSinceZero(fs[..|fs| - 1]);
      if least == 0 || fs[|fs| - 1] < least then fs[|fs| - 1] else least
  }

  lemma {:induction false} ScanIsLeastSinceZero(fs: seq<nat>)
    ensures ScanOldest(fs) == LeastSinceZero(fs)
  {
    if fs == [] {
    } else {
      ScanIsLeastSinceZero(fs[..|fs| - 1]);
    }
  }

  /** No named slot reports 0, or the last one scanned does, or enough of them are past the least position
      scanned after the last 0. */
  ghost predicate Harmless(fs: seq<nat>, required: nat) {
    0 !in fs || fs[|fs| - 1] == 0 || Count(fs, LeastSinceZero(fs)) >= required
  }

  /** After a scan that releases, the shortcut with the new bound is safe exactly when the positions found
      are harmless. */
  lemma {:induction false} ShortcutSafeExactlyWhen(cache: nat, fs: seq<nat>, required: nat, lsn: nat)
    requires ShortcutSafe(cache, fs, required) && 0 < required <= Count(fs, lsn)
    ensures ShortcutSafe(Wal.Max(cache, ScanOldest(fs)), fs, required) <==> Harmless(fs, required)
  {
    CountBound(fs, lsn);
    CountBound(fs, ScanOldest(fs));
    ScanOldestExactly(fs);
    ScanIsLeastSinceZero(fs);
    SafeAtTheTop(cache, fs, required);
    SafeAtTheTop(Wal.Max(cache, ScanOldest(fs)), fs, required);
    if cache >= ScanOldest(fs) {
      CountFalls(fs, ScanOldest(fs), cache);
    }
  }

  /** The named slots stay the same and their positions do not fall. */
  ghost predicate Advances(a: seq<nat>, b: seq<nat>) {
    |a| == |b| && forall i :: 0 <= i < |a| ==> a[i] <= b[i]
  }

  lemma {:induction false} CountRises(a: seq<nat>, b: seq<nat>, lsn: nat)
    requires Advances(a, b)
    ensures Count(a, lsn) <= Count(b, lsn)
  {
    if a == [] {
    } else {
      CountRises(a[..|a| - 1], b[..|b| - 1], lsn);
    }
  }

  lemma {:induction false} SafetySurvivesAdvance(cache: nat, a: seq<nat>, b: seq<nat>, required: nat)
    requires ShortcutSafe(cache, a, required) && Advances(a, b)
    ensures ShortcutSafe(cache, b, required)
  {
    forall lsn | 0 < lsn <= cache ensures Count(b, lsn) >= required {
      CountRises(a, b, lsn);
    }
  }

  /** The slots as they were found after `k` scans. */
  ghost function SlotsAt(now: seq<Slot>, polls: seq<seq<Slot>>, k: nat): seq<Slot>
    requires k <= |polls|
  {
    if k == 0 then now else polls[k - 1]
  }

  /** Every scan finds the same named slots, at positions no lower than before. */
  ghost predicate Rising(names: seq<string>, now: seq<Slot>, polls: seq<seq<Slot>>) {
    && (forall k :: 0 <= k < |polls| ==> Advances(Flushes(names, now), Flushes(names, polls[k])))
    && (forall j, k :: 0 <= j < k < |polls| ==> Advances(Flushes(names, polls[j]), Flushes(names, polls[k])))
  }

  // ---------- the walsender's side ----------

  class Waiter {
    const names: seq<string>
    const minConfirmed: MinConfirmed
    var oldestFlush: nat            // cached lower bound

    ghost var seen: seq<nat>        // positions of the named slots, as last known to hold

    /** The cached bound lets nothing through too early. */
    ghost predicate Safe()
      reads this
    {
      ShortcutSafe(oldestFlush, seen, Required(names, minConfirmed))
    }

    constructor (names: seq<string>, minConfirmed: MinConfirmed, ghost start: seq<nat>)
      ensures this.names == names && this.minConfirmed == minConfirmed && seen == start
      ensures oldestFlush == 0 && Safe()
    {
      this.names, this.minConfirmed := names, minConfirmed;
      oldestFlush, seen := 0, start;
    }

    /** One scan; the bound is raised when it releases. */
    method Poll(lsn: nat, slots: seq<Slot>, required: nat) returns (released: bool)
      requires required == Required(names, minConfirmed) > 0 && Advances(seen, Flushes(names, slots))
      modifies this`oldestFlush, this`seen
      ensures seen == Flushes(names, slots)
      ensures released <==> Count(seen, lsn) >= required
      ensures oldestFlush == if released then Wal.Max(old(oldestFlush), ScanOldest(seen)) else old(oldestFlush)
      ensures old(Safe()) ==> (Safe() <==> (released ==> Harmless(seen, required)))
    {
      if Safe() {
        SafetySurvivesAdvance(oldestFlush, seen, Flushes(names, slots), required);
      }
      seen := Flushes(names, slots);
      var oldest, remaining := Scan(names, slots, lsn, required);
      released := remaining == 0;
      if released {
        if Safe() {
          ShortcutSafeExactlyWhen(oldestFlush, seen, required, lsn);
        }
        if oldestFlush < oldest {
          oldestFlush := oldest;
        }
      }
    }

    method PollUntil(lsn: nat, ghost now: seq<Slot>, polls: seq<seq<Slot>>, required: nat)
      returns (released: bool, scans: nat)
      requires required == Required(names, minConfirmed) > 0 && seen == Flushes(names, now) && Rising(names, now, polls)
      modifies this`oldestFlush, this`seen
      ensures scans <= |polls| && seen == Flushes(names, SlotsAt(now, polls, scans))
      ensures released ==> scans > 0 && Count(seen, lsn) >= required
      ensures released && scans > 1 ==> Count(Flushes(names, polls[scans - 2]), lsn) < required
      ensures !released ==> scans == |polls| && (scans > 0 ==> Count(seen, lsn) < required)
      ensures oldestFlush == if released then Wal.Max(old(oldestFlush), ScanOldest(seen)) else old(oldestFlush)
      ensures old(Safe()) ==> (Safe() <==> (released ==> Harmless(seen, required)))
    {
      for i := 0 to |polls|
        invariant seen == Flushes(names, SlotsAt(now, polls, i)) && oldestFlush == old(oldestFlush)
        invariant i > 0 ==> Count(seen, lsn) < required
        invariant old(Safe()) ==> Safe()
      {
        released := Poll(lsn, polls[i], required);
        if released {
          return true, i + 1;
        }
      }
      return false, |polls|;
    }

    /** `wait_for_standby_confirmation`.  `now`: the slots when it is called; `polls`: what each scan finds.
        The first scan to find enough named slots past `lsn` releases, and none before it; the shortcut
        (`scans` is 0) releases only then too while the bound is safe.  A safe bound stays so exactly when
        the positions found by a releasing scan are harmless. */
    method Wait(lsn: nat, ghost now: seq<Slot>, polls: seq<seq<Slot>>) returns (released: bool, scans: nat)
      requires lsn > 0 && Advances(seen, Flushes(names, now)) && Rising(names, now, polls)
      modifies this`oldestFlush, this`seen
      ensures scans <= |polls| && seen == Flushes(names, SlotsAt(now, polls, scans))
      ensures released && scans == 0 <==> old(oldestFlush) >= lsn || minConfirmed == 0 || names == []
      ensures released && (old(Safe()) || scans > 0) ==> Enough(names, minConfirmed, SlotsAt(now, polls, scans), lsn)
      ensures released && scans > 1 ==> !Enough(names, minConfirmed, polls[scans - 2], lsn)
      ensures !released ==> scans == |polls| && (scans > 0 ==> !Enough(names, minConfirmed, polls[scans - 1], lsn))
      ensures oldestFlush
           == if released && scans > 0 then Wal.Max(old(oldestFlush), ScanOldest(seen)) else old(oldestFlush)
      ensures old(Safe()) ==>
        (Safe() <==> (released && scans > 0 ==> Harmless(seen, Required(names, minConfirmed))))
    {
      if Safe() {
        SafetySurvivesAdvance(oldestFlush, seen, Flushes(names, now), Required(names, minConfirmed));
      }
      seen := Flushes(names, now);
      if oldestFlush >= lsn || minConfirmed == 0 || |names| == 0 {
        EnoughExactly(names, minConfirmed, now, lsn);
        return true, 0;
      }
      var required :=
        if minConfirmed == -1 then |names| else if minConfirmed < |names| then minConfirmed else |names|;
      released, scans := PollUntil(lsn, now, polls, required);
      EnoughExactly(names, minConfirmed, SlotsAt(now, polls, scans), lsn);
      if scans > 1 {
        EnoughExactly(names, minConfirmed, polls[scans - 2], lsn);
      }
    }
  }

  /** Whenever a scan releases on positions that are not harmless, the next call may let WAL through that
      too few slots have flushed, although nothing has moved. */
  method HarmfulScanReleasesEarly(names: seq<string>, minConfirmed: MinConfirmed, slots: seq<Slot>, lsn: nat)
    returns (next: nat, first: bool, second: bool)
    requires lsn > 0 && minConfirmed != 0 && names != [] && Enough(names, minConfirmed, slots, lsn)
    requires !Harmless(Flushes(names, slots), Required(names, minConfirmed))
    ensures first && second && next > 0 && !Enough(names, minConfirmed, slots, next)
  {
    ghost var fs := Flushes(names, slots);
    var w := new Waiter(names, minConfirmed, fs);
    var scans;
    first, scans := w.Wait(lsn, slots, [slots]);
    ScanIsLeastSinceZero(fs);
    SafeAtTheTop(w.oldestFlush, fs, Required(names, minConfirmed));
    next := w.oldestFlush;
    EnoughExactly(names, minConfirmed, slots, next);
    second, scans := w.Wait(next, slots, []);
  }

  /** Two of three slots are required; with a 0 between 10 and 20 position 20 counts as confirmed. */
  lemma {:induction false} ZeroBetweenIsHarmful()
    ensures Count([10, 0, 20], 5) == 2 && LeastSinceZero([10, 0, 20]) == 20 && !Harmless([10, 0, 20], 2)
    ensures Harmless([0, 20, 20], 2)
  {
    var fs: seq<nat>, gs: seq<nat> := [10, 0, 20], [0, 20, 20];
    assert fs[..2] == [10, 0] && fs[..2][..1] == [10];
    assert gs[..2] == [0, 20] && gs[..2][..1] == [0];
    assert Count([10], 5) == 1 && Count([10, 0], 5) == 1;
    assert Count([10], 20) == 0 && Count([10, 0], 20) == 0 && fs[1] == 0;
    assert Count([0], 20) == 0 && Count([0, 20], 20) == 1;
    assert LeastSinceZero([10, 0]) == 0 && LeastSinceZero([0]) == 0 && LeastSinceZero([0, 20]) == 20;
  }
}
