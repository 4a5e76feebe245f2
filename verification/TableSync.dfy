/** Handing one table over from its initial copy, through a sync worker that catches up, to the main apply
    worker, while the main worker goes on applying everything else. */
module TableSync {
  import Wal

  datatype Status = Init | Started | SyncWait | Catchup | SyncDone | Ready

  /** A transaction of the provider.  `empty` ones carry no changes at all. */
  datatype Txn = Txn(commitLsn: nat, endLsn: nat, empty: bool, touches: bool)

  /** The provider's stream: commit records occupy disjoint increasing intervals. */
  ghost predicate WellFormed(wal: seq<Txn>) {
    && (forall i :: 0 <= i < |wal| ==> wal[i].commitLsn < wal[i].endLsn && (wal[i].empty ==> !wal[i].touches))
    && (forall i, j :: 0 <= i < j < |wal| ==> wal[i].endLsn <= wal[j].commitLsn)
  }

  /** The transactions among the first `m` that change the table. */
  function Touching(wal: seq<Txn>, m: nat): seq<nat>
    requires m <= |wal|
  {
    if m == 0 then [] else Touching(wal, m - 1) + (if wal[m - 1].touches then [m - 1] else [])
  }

  /** A record boundary at which exactly the first `k` transactions are over. */
  ghost predicate Splits(wal: seq<Txn>, lsn: nat, k: nat) {
    && k <= |wal|
    && (forall i :: 0 <= i < k ==> wal[i].endLsn <= lsn)
    && (forall i :: k <= i < |wal| ==> lsn <= wal[i].commitLsn)
  }

  // ---------- should_apply_changes_for_rel ----------

  datatype SyncEntry = SyncEntry(table: string, status: Status, statusLsn: nat)

  predicate Applies(status: Status, statusLsn: nat, origin: nat) {
    status == Ready || (status == SyncDone && statusLsn <= origin)
  }

  /** A change is applied unless some entry for its table holds it back. */
  method ShouldApplyChangesForRel(syncing: seq<SyncEntry>, table: string, origin: nat) returns (r: bool)
    ensures r <==> forall e :: e in syncing && e.table == table ==> Applies(e.status, e.statusLsn, origin)
  {
    for i := 0 to |syncing|
      invariant forall e :: e in syncing[..i] && e.table == table ==> Applies(e.status, e.statusLsn, origin)
    {
      var sync := syncing[i];
      if sync.table == table && sync.status != Ready && !(sync.status == SyncDone && sync.statusLsn <= origin) {
        return false;
      }
      assert syncing[..i + 1] == syncing[..i] + [sync];
    }
    assert syncing[..|syncing|] == syncing;
    r := true;
  }

  // ---------- the protocol ----------

  /** Main worker: transactions done, its session origin, the last position received, and the table's
      status as it sees it.  Sync worker: where it must not stop before, how far it is, how many
      transactions that covers.  `effects`: which transactions' changes the local table holds, in order. */
  datatype State = State(pos: nat, origin: nat, received: nat, status: Status, statusLsn: nat,
                         stop: nat, at: nat, next: nat, effects: seq<nat>)

  datatype Step =
    | MainTxn                     // the main worker handles its next transaction
    | Keepalive(lsn: nat)         // the provider has nothing to send before `lsn`
    | StartWorker                 // the main worker launches the sync worker
    | Copy(lsn: nat, k: nat)      // slot and snapshot at `lsn`, then the copy
    | Process(lsn: nat)           // process_syncing_tables
    | SyncTxn                     // the sync worker handles its next transaction, or stops

  function Initial(start: nat): State {
    State(0, start, 0, Init, 0, 0, 0, 0, [])
  }

  ghost predicate Enabled(wal: seq<Txn>, start: nat, s: State, step: Step) {
    match step
    case MainTxn => s.pos < |wal| && s.status != Catchup
    case Keepalive(lsn) => forall i :: s.pos <= i < |wal| ==> lsn <= wal[i].commitLsn
    case StartWorker => s.status == Init
    case Copy(lsn, k) => s.status == Started && Splits(wal, lsn, k) && start <= lsn
    case Process(lsn) => lsn <= s.received && s.status != Catchup
    case SyncTxn => s.status == Catchup && (s.at >= s.stop || s.next < |wal|)
  }

  function MainApplies(wal: seq<Txn>, s: State): seq<nat>
    requires s.pos < |wal|
  {
    var t := wal[s.pos];
    if t.touches && Applies(s.status, s.statusLsn, t.commitLsn) then [s.pos] else []
  }

  ghost function Next(wal: seq<Txn>, start: nat, s: State, step: Step): State
    requires Enabled(wal, start, s, step)
  {
    match step
    case MainTxn =>
      var t := wal[s.pos];
      s.(pos := s.pos + 1, origin := if t.empty then t.commitLsn else t.endLsn,
         received := Wal.Max(s.received, t.endLsn), effects := s.effects + MainApplies(wal, s))
    case Keepalive(lsn) => s.(received := Wal.Max(s.received, lsn))
    case StartWorker => s.(status := Started, stop := s.origin)
    case Copy(lsn, k) => s.(status := SyncWait, at := lsn, next := k, effects := s.effects + Touching(wal, k))
    case Process(lsn) =>
      if s.status == SyncWait && s.origin >= s.stop then s.(status := Catchup, stop := s.origin)
      else if s.status == SyncDone && lsn >= s.statusLsn then s.(status := Ready)
      else s
    case SyncTxn =>
      if s.at >= s.stop then s.(status := SyncDone, statusLsn := s.at)
      else
        s.(at := wal[s.next].endLsn, next := s.next + 1,
           effects := s.effects + (if wal[s.next].touches then [s.next] else []))
  }

  /** The state after a schedule; a step that is not enabled does nothing. */
  ghost function After(wal: seq<Txn>, start: nat, steps: seq<Step>): State {
    if steps == [] then Initial(start)
    else
      var s, step := After(wal, start, steps[..|steps| - 1]), steps[|steps| - 1];
      if Enabled(wal, start, s, step) then Next(wal, start, s, step) else s
  }

  // ---------- invariant ----------

  /** The main worker's position lies between what it has done and what is to come. */
  ghost predicate MainSound(wal: seq<Txn>, start: nat, s: State) {
    && s.pos <= |wal|
    && (forall i :: 0 <= i < s.pos && !wal[i].empty ==> wal[i].endLsn <= s.origin)
    && (forall i :: s.pos <= i < |wal| ==> s.received <= wal[i].commitLsn)
    && (s.pos == 0 ==> s.origin == start)
    && (s.pos > 0 ==> s.origin <= wal[s.pos - 1].endLsn)
  }

  /** Where the table stands.  Before the copy it holds nothing; then what the sync worker covers; from
      SYNCDONE on, everything up to the further of the two workers. */
  ghost predicate TableSound(wal: seq<Txn>, start: nat, s: State) {
    match s.status
    case Init => s.effects == []
    case Started => s.effects == []
    case SyncWait => Splits(wal, s.at, s.next) && start <= s.at && s.effects == Touching(wal, s.next)
    case Catchup =>
      Splits(wal, s.at, s.next) && start <= s.at && s.stop == s.origin && s.effects == Touching(wal, s.next)
    case SyncDone =>
      Splits(wal, s.statusLsn, s.next) && s.pos <= |wal| && s.effects == Touching(wal, Wal.Max(s.pos, s.next))
    case Ready => s.next <= s.pos <= |wal| && s.effects == Touching(wal, s.pos)
  }

  ghost predicate Inv(wal: seq<Txn>, start: nat, s: State) {
    MainSound(wal, start, s) && TableSound(wal, start, s)
  }

  lemma {:induction false} TouchingSame(wal: seq<Txn>, a: nat, b: nat)
    requires a <= b <= |wal| && forall i :: a <= i < b ==> !wal[i].touches
    ensures Touching(wal, b) == Touching(wal, a)
  {
    if a == b {
    } else {
      TouchingSame(wal, a, b - 1);
    }
  }

  /** The sync worker stops no earlier than the main worker's position: what the main worker has passed
      and the sync worker has not covered has no changes. */
  lemma {:induction false} SyncSideCoversMain(wal: seq<Txn>, start: nat, s: State)
    requires WellFormed(wal) && Inv(wal, start, s) && s.status == Catchup && s.at >= s.stop
    ensures s.effects == Touching(wal, Wal.Max(s.pos, s.next))
  {
    if s.next < s.pos {
      forall i | s.next <= i < s.pos ensures !wal[i].touches {
        assert s.at <= wal[i].commitLsn < wal[i].endLsn;
      }
      TouchingSame(wal, s.next, s.pos);
    }
  }

  /** The main worker takes exactly the transactions whose commit record starts at or after the position
      where the sync worker stopped. */
  lemma {:induction false} MainTakesTheRest(wal: seq<Txn>, start: nat, s: State)
    requires WellFormed(wal) && Inv(wal, start, s) && s.status == SyncDone && s.pos < |wal|
    ensures Applies(s.status, s.statusLsn, wal[s.pos].commitLsn) <==> s.next <= s.pos
    ensures s.effects + MainApplies(wal, s) == Touching(wal, Wal.Max(s.pos + 1, s.next))
  {
    if s.pos < s.next {
      assert wal[s.pos].endLsn <= s.statusLsn;
      assert s.effects + [] == s.effects;
    }
  }

  /** Once the main worker has received past that position it has passed everything the sync worker did. */
  lemma {:induction false} ReadyMeansPassed(wal: seq<Txn>, start: nat, s: State, lsn: nat)
    requires WellFormed(wal) && Inv(wal, start, s) && s.status == SyncDone && s.statusLsn <= lsn <= s.received
    ensures s.next <= s.pos
  {
    assert s.pos < |wal| ==> s.received <= wal[s.pos].commitLsn;
  }

  lemma {:induction false} StepKeepsMain(wal: seq<Txn>, start: nat, s: State, step: Step)
    requires WellFormed(wal) && MainSound(wal, start, s) && Enabled(wal, start, s, step)
    ensures MainSound(wal, start, Next(wal, start, s, step))
  {
  }

  lemma {:induction false} MainTxnKeepsTable(wal: seq<Txn>, start: nat, s: State)
    requires WellFormed(wal) && Inv(wal, start, s) && Enabled(wal, start, s, MainTxn)
    ensures TableSound(wal, start, Next(wal, start, s, MainTxn))
  {
    if s.status == SyncDone {
      MainTakesTheRest(wal, start, s);
    } else if s.status != Ready {
      assert s.effects + [] == s.effects;
    }
  }

  lemma {:induction false} SyncTxnKeepsTable(wal: seq<Txn>, start: nat, s: State)
    requires WellFormed(wal) && Inv(wal, start, s) && Enabled(wal, start, s, SyncTxn)
    ensures TableSound(wal, start, Next(wal, start, s, SyncTxn))
  {
    if s.at >= s.stop {
      SyncSideCoversMain(wal, start, s);
    } else {
      assert Splits(wal, wal[s.next].endLsn, s.next + 1);
    }
  }

  lemma {:induction false} StepKeepsTable(wal: seq<Txn>, start: nat, s: State, step: Step)
    requires WellFormed(wal) && Inv(wal, start, s) && Enabled(wal, start, s, step)
    ensures TableSound(wal, start, Next(wal, start, s, step))
  {
    match step
    case MainTxn => MainTxnKeepsTable(wal, start, s);
    case SyncTxn => SyncTxnKeepsTable(wal, start, s);
    case Process(lsn) =>
      if s.status == SyncDone && lsn >= s.statusLsn {
        ReadyMeansPassed(wal, start, s, lsn);
      }
    case Copy(lsn, k) => assert [] + Touching(wal, k) == Touching(wal, k);
    case _ =>
  }

  lemma {:induction false} Reachable(wal: seq<Txn>, start: nat, steps: seq<Step>)
    requires WellFormed(wal)
    ensures Inv(wal, start, After(wal, start, steps))
  {
    if steps == [] {
    } else {
      Reachable(wal, start, steps[..|steps| - 1]);
      var s, step := After(wal, start, steps[..|steps| - 1]), steps[|steps| - 1];
      if Enabled(wal, start, s, step) {
        StepKeepsMain(wal, start, s, step);
        StepKeepsTable(wal, start, s, step);
      }
    }
  }

  // ---------- the handover is exact ----------

  lemma {:induction false} TouchingSorted(wal: seq<Txn>, m: nat, n: nat)
    requires m <= |wal|
    ensures forall i :: 0 <= i < |Touching(wal, m)| ==> Touching(wal, m)[i] < m && wal[Touching(wal, m)[i]].touches
    ensures forall i, j :: 0 <= i < j < |Touching(wal, m)| ==> Touching(wal, m)[i] < Touching(wal, m)[j]
    ensures n < m && wal[n].touches ==> n in Touching(wal, m)
  {
    if m == 0 {
    } else {
      TouchingSorted(wal, m - 1, n);
    }
  }

  /** On every schedule the table never holds a transaction twice, out of order, or one that does not
      change it; and once handed over it holds all of them as far as the main worker got. */
  lemma {:induction false} ExactlyOnce(wal: seq<Txn>, start: nat, steps: seq<Step>, n: nat)
    requires WellFormed(wal)
    ensures var s := After(wal, start, steps);
      && (forall i, j :: 0 <= i < j < |s.effects| ==> s.effects[i] < s.effects[j])
      && (forall i :: 0 <= i < |s.effects| ==> s.effects[i] < |wal| && wal[s.effects[i]].touches)
      && (s.status in {SyncDone, Ready} && n < s.pos && n < |wal| && wal[n].touches ==> n in s.effects)
  {
    var s := After(wal, start, steps);
    Reachable(wal, start, steps);
    var m := match s.status
      case Init => 0
      case Started => 0
      case SyncWait => s.next
      case Catchup => s.next
      case SyncDone => Wal.Max(s.pos, s.next)
      case Ready => s.pos;
    assert s.effects == Touching(wal, m);
    TouchingSorted(wal, m, n);
  }

  /** While the main worker waits, the sync worker always has a transaction left or may stop. */
  lemma {:induction false} CatchupNeverStuck(wal: seq<Txn>, start: nat, steps: seq<Step>)
    requires WellFormed(wal) && After(wal, start, steps).status == Catchup
    ensures Enabled(wal, start, After(wal, start, steps), SyncTxn)
  {
    Reachable(wal, start, steps);
    var s := After(wal, start, steps);
    if s.pos > 0 && s.next == |wal| {
      assert wal[s.pos - 1].endLsn <= s.at;
    }
  }

  // ---------- the handover takes place ----------

  lemma {:induction false} Extend(wal: seq<Txn>, start: nat, steps: seq<Step>, step: Step)
    ensures var s := After(wal, start, steps);
      After(wal, start, steps + [step]) == if Enabled(wal, start, s, step) then Next(wal, start, s, step) else s
  {
    assert (steps + [step])[..|steps|] == steps;
  }

  /** The main worker hands over to the sync worker at the first `process_syncing_tables` at which it has
      reached the position the sync worker was started with, and takes the table back at the first one
      whose position has reached the stop point; until then the status stays. */
  lemma {:induction false} ProcessMovesOn(wal: seq<Txn>, start: nat, steps: seq<Step>, lsn: nat)
    requires Enabled(wal, start, After(wal, start, steps), Process(lsn))
    ensures var s, s' := After(wal, start, steps), After(wal, start, steps + [Process(lsn)]);
      && (s.status == SyncWait ==> s'.status == if s.origin >= s.stop then Catchup else SyncWait)
      && (s.status == SyncWait && s'.status == Catchup ==> s'.stop == s.origin)
      && (s.status == SyncDone ==> s'.status == if lsn >= s.statusLsn then Ready else SyncDone)
      && (s.status != SyncWait && s.status != SyncDone ==> s' == s)
  {
    Extend(wal, start, steps, Process(lsn));
  }

  /** The state that further steps lead to. */
  ghost function From(wal: seq<Txn>, start: nat, s: State, more: seq<Step>): State
    decreases |more|
  {
    if more == [] then s
    else From(wal, start, if Enabled(wal, start, s, more[0]) then Next(wal, start, s, more[0]) else s, more[1..])
  }

  lemma {:induction false} FromCons(wal: seq<Txn>, start: nat, s: State, step: Step, rest: seq<Step>)
    requires Enabled(wal, start, s, step)
    ensures From(wal, start, s, [step] + rest) == From(wal, start, Next(wal, start, s, step), rest)
  {
    assert ([step] + rest)[1..] == rest;
  }

  lemma {:induction false} FromConcat(wal: seq<Txn>, start: nat, s: State, a: seq<Step>, b: seq<Step>)
    ensures From(wal, start, s, a + b) == From(wal, start, From(wal, start, s, a), b)
    decreases |a|
  {
    if a == [] {
      assert a + b == b;
    } else {
      var s' := if Enabled(wal, start, s, a[0]) then Next(wal, start, s, a[0]) else s;
      FromConcat(wal, start, s', a[1..], b);
      assert (a + b)[0] == a[0] && (a + b)[1..] == a[1..] + b;
    }
  }

  lemma {:induction false} AfterFrom(wal: seq<Txn>, start: nat, steps: seq<Step>, more: seq<Step>)
    ensures After(wal, start, steps + more) == From(wal, start, After(wal, start, steps), more)
    decreases |more|
  {
    if more == [] {
      assert steps + more == steps;
    } else {
      Extend(wal, start, steps, more[0]);
      AfterFrom(wal, start, steps + [more[0]], more[1..]);
      assert steps + more == (steps + [more[0]]) + more[1..];
    }
  }

  lemma {:induction false} StepKeepsInv(wal: seq<Txn>, start: nat, s: State, step: Step)
    requires WellFormed(wal) && Inv(wal, start, s) && Enabled(wal, start, s, step)
    ensures Inv(wal, start, Next(wal, start, s, step))
  {
    StepKeepsMain(wal, start, s, step);
    StepKeepsTable(wal, start, s, step);
  }

  lemma {:induction false} FromKeepsInv(wal: seq<Txn>, start: nat, s: State, more: seq<Step>)
    requires WellFormed(wal) && Inv(wal, start, s)
    ensures Inv(wal, start, From(wal, start, s, more))
    decreases |more|
  {
    if more == [] {
    } else if Enabled(wal, start, s, more[0]) {
      StepKeepsInv(wal, start, s, more[0]);
      FromKeepsInv(wal, start, Next(wal, start, s, more[0]), more[1..]);
    } else {
      FromKeepsInv(wal, start, s, more[1..]);
    }
  }

  lemma {:induction false} SyncTxnEnabled(wal: seq<Txn>, start: nat, s: State)
    requires Inv(wal, start, s) && s.status == Catchup
    ensures Enabled(wal, start, s, SyncTxn)
  {
    if s.pos > 0 && s.next == |wal| {
      assert wal[s.pos - 1].endLsn <= s.at;
    }
  }

  /** The sync worker reaches its stop point. */
  lemma {:induction false} CatchupEnds(wal: seq<Txn>, start: nat, s: State) returns (more: seq<Step>)
    requires WellFormed(wal) && Inv(wal, start, s) && s.status == Catchup
    ensures From(wal, start, s, more).status == SyncDone
    decreases |wal| - s.next
  {
    SyncTxnEnabled(wal, start, s);
    var s' := Next(wal, start, s, SyncTxn);
    if s.at >= s.stop {
      more := [SyncTxn] + [];
      FromCons(wal, start, s, SyncTxn, []);
    } else {
      StepKeepsInv(wal, start, s, SyncTxn);
      var rest := CatchupEnds(wal, start, s');
      FromCons(wal, start, s, SyncTxn, rest);
      more := [SyncTxn] + rest;
    }
  }

  /** The main worker passes everything the sync worker covered. */
  lemma {:induction false} MainPasses(wal: seq<Txn>, start: nat, s: State) returns (more: seq<Step>)
    requires WellFormed(wal) && Inv(wal, start, s) && s.status == SyncDone
    ensures var e := From(wal, start, s, more); e.status == SyncDone && e.next <= e.pos
    decreases s.next - s.pos
  {
    if s.next <= s.pos {
      more := [];
    } else {
      StepKeepsInv(wal, start, s, MainTxn);
      var rest := MainPasses(wal, start, Next(wal, start, s, MainTxn));
      FromCons(wal, start, s, MainTxn, rest);
      more := [MainTxn] + rest;
    }
  }

  /** The table is handed over and holds every touching transaction the main worker has passed. */
  ghost predicate HandedOver(wal: seq<Txn>, s: State) {
    s.status == Ready && s.pos <= |wal| && s.effects == Touching(wal, s.pos)
  }

  lemma {:induction false} PassedBecomesReady(wal: seq<Txn>, start: nat, s: State) returns (more: seq<Step>)
    requires WellFormed(wal) && Inv(wal, start, s) && s.status == SyncDone && s.next <= s.pos
    ensures HandedOver(wal, From(wal, start, s, more))
  {
    var keepalive, process := Keepalive(s.statusLsn), Process(s.statusLsn);
    var told := Next(wal, start, s, keepalive);
    StepKeepsInv(wal, start, s, keepalive);
    StepKeepsInv(wal, start, told, process);
    FromCons(wal, start, told, process, []);
    FromCons(wal, start, s, keepalive, [process] + []);
    more := [keepalive] + ([process] + []);
  }

  lemma {:induction false} HandoverFromDone(wal: seq<Txn>, start: nat, s: State) returns (more: seq<Step>)
    requires WellFormed(wal) && Inv(wal, start, s) && s.status == SyncDone
    ensures HandedOver(wal, From(wal, start, s, more))
  {
    var passed := MainPasses(wal, start, s);
    FromKeepsInv(wal, start, s, passed);
    var rest := PassedBecomesReady(wal, start, From(wal, start, s, passed));
    FromConcat(wal, start, s, passed, rest);
    more := passed + rest;
  }

  lemma {:induction false} HandoverFromCatchup(wal: seq<Txn>, start: nat, s: State) returns (more: seq<Step>)
    requires WellFormed(wal) && Inv(wal, start, s) && s.status == Catchup
    ensures HandedOver(wal, From(wal, start, s, more))
  {
    var caught := CatchupEnds(wal, start, s);
    FromKeepsInv(wal, start, s, caught);
    var rest := HandoverFromDone(wal, start, From(wal, start, s, caught));
    FromConcat(wal, start, s, caught, rest);
    more := caught + rest;
  }

  lemma {:induction false} HandoverFromWait(wal: seq<Txn>, start: nat, s: State) returns (more: seq<Step>)
    requires WellFormed(wal) && Inv(wal, start, s) && s.status == SyncWait && s.origin >= s.stop
    ensures HandedOver(wal, From(wal, start, s, more))
  {
    StepKeepsInv(wal, start, s, Process(0));
    var rest := HandoverFromCatchup(wal, start, Next(wal, start, s, Process(0)));
    FromCons(wal, start, s, Process(0), rest);
    more := [Process(0)] + rest;
  }

  /** Once the copy is made and the main worker has reached the position the sync worker was started with,
      the table can be handed over, with every touching transaction the main worker has passed in it. */
  lemma {:induction false} HandoverFromSyncWait(wal: seq<Txn>, start: nat, steps: seq<Step>) returns (more: seq<Step>)
    requires WellFormed(wal) && After(wal, start, steps).status == SyncWait
    requires After(wal, start, steps).origin >= After(wal, start, steps).stop
    ensures HandedOver(wal, After(wal, start, steps + more))
  {
    Reachable(wal, start, steps);
    more := HandoverFromWait(wal, start, After(wal, start, steps));
    AfterFrom(wal, start, steps, more);
  }

  /** The stream starts at the main worker's start position. */
  ghost predicate StartsAt(wal: seq<Txn>, start: nat) {
    forall i :: 0 <= i < |wal| ==> start <= wal[i].commitLsn
  }

  /** The main worker has reached the position the sync worker was started with. */
  ghost predicate StopReached(s: State) {
    s.status == Started || s.status == SyncWait ==> s.stop <= s.origin
  }

  lemma {:induction false} StepKeepsStop(wal: seq<Txn>, start: nat, s: State, step: Step)
    requires WellFormed(wal) && StartsAt(wal, start) && MainSound(wal, start, s) && StopReached(s)
    requires Enabled(wal, start, s, step)
    ensures StopReached(Next(wal, start, s, step))
  {
    if step == MainTxn && s.pos > 0 {
      assert wal[s.pos - 1].endLsn <= wal[s.pos].commitLsn;
    }
  }

  lemma {:induction false} StopIsReached(wal: seq<Txn>, start: nat, steps: seq<Step>)
    requires WellFormed(wal) && StartsAt(wal, start)
    ensures StopReached(After(wal, start, steps))
  {
    if steps == [] {
    } else {
      var front, step := steps[..|steps| - 1], steps[|steps| - 1];
      StopIsReached(wal, start, front);
      Reachable(wal, start, front);
      if Enabled(wal, start, After(wal, start, front), step) {
        StepKeepsStop(wal, start, After(wal, start, front), step);
      }
    }
  }

  lemma {:induction false} HandoverFromStarted(wal: seq<Txn>, start: nat, s: State) returns (more: seq<Step>)
    requires WellFormed(wal) && StartsAt(wal, start) && Inv(wal, start, s) && StopReached(s) && s.status == Started
    ensures HandedOver(wal, From(wal, start, s, more))
  {
    var lsn := if wal == [] then start else wal[|wal| - 1].endLsn;
    var copy := Copy(lsn, |wal|);
    assert Splits(wal, lsn, |wal|);
    StepKeepsInv(wal, start, s, copy);
    var rest := HandoverFromWait(wal, start, Next(wal, start, s, copy));
    FromCons(wal, start, s, copy, rest);
    more := [copy] + rest;
  }

  lemma {:induction false} HandoverFrom(wal: seq<Txn>, start: nat, s: State) returns (more: seq<Step>)
    requires WellFormed(wal) && StartsAt(wal, start) && Inv(wal, start, s) && StopReached(s)
    ensures HandedOver(wal, From(wal, start, s, more))
  {
    match s.status {
      case Init =>
        StepKeepsInv(wal, start, s, StartWorker);
        var rest := HandoverFromStarted(wal, start, Next(wal, start, s, StartWorker));
        FromCons(wal, start, s, StartWorker, rest);
        more := [StartWorker] + rest;
      case Started => more := HandoverFromStarted(wal, start, s);
      case SyncWait => more := HandoverFromWait(wal, start, s);
      case Catchup => more := HandoverFromCatchup(wal, start, s);
      case SyncDone => more := HandoverFromDone(wal, start, s);
      case Ready => more := [];
    }
  }

  /** From every reachable state the handover can be completed. */
  lemma {:induction false} HandoverCompletes(wal: seq<Txn>, start: nat, steps: seq<Step>) returns (more: seq<Step>)
    requires WellFormed(wal) && StartsAt(wal, start)
    ensures HandedOver(wal, After(wal, start, steps + more))
  {
    Reachable(wal, start, steps);
    StopIsReached(wal, start, steps);
    more := HandoverFrom(wal, start, After(wal, start, steps));
    AfterFrom(wal, start, steps, more);
  }
}
