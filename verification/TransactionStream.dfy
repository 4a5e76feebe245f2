/** What one remote transaction leaves for the next: the try-mode flag and the exception log entry, over whole
    streams of transactions with failures, restarts of the worker and disabled subscriptions in between. */
module TransactionStream {
  import opened ApplyExceptions

  // ---------- from one transaction to the next ----------

  /** Once a transaction is committed the next one is met plainly, whatever its commit position. */
  lemma {:induction false} CommittedLeavesTryMode(g: Settings, w: Worker, t: Txn, a: Attempt, next: Txn, b: Attempt)
    requires |t.changes| == |a.deliveries| && Attempted(g, w, t, a).1 == Committed
    ensures !TriesOn(Attempted(g, w, t, a).0, next, b)
  {
    assert Attempted(g, w, t, a).0.firstBegin == Attempted(g, w, t, a).0.useTry == false;
  }

  /** The exception log entry is reset: a try-mode pass of TRANSDISCARD or SUB_DISABLE comes to the commit of
      a local transaction and finds no relation missing, or, for SUB_DISABLE, the commit succeeds. */
  ghost predicate ClearsSlot(g: Settings, tried: bool, t: Txn, a: Attempt)
    requires |t.changes| == |a.deliveries|
  {
    var n := |t.changes|;
    && tried && n > 0
    && match g.behaviour
       case Discard => false
       case TransDiscard => (forall i :: 0 <= i < n ==> !a.deliveries[i].result.Breaks?) && !Lacks(a, n)
       case SubDisable => Unhindered(a, n) && (!Lacks(a, n) || !a.commitFails)
  }

  lemma {:induction false} DiscardedWalk(g: Settings, t: Txn, a: Attempt, n: nat)
    requires n <= |t.changes| == |a.deliveries| && g.behaviour == TransDiscard
    ensures var p := Walk(g, true, t, a, n);
      && (p.flow == Going <==> forall i :: 0 <= i < n ==> !a.deliveries[i].result.Breaks?)
      && (p.flow == Going ==> p.open == (n > 0) && (p.had <==> Lacks(a, n)))
  {
    if n == 0 {
    } else {
      DiscardedWalk(g, t, a, n - 1);
      assert Lacks(a, n) <==> Lacks(a, n - 1) || a.deliveries[n - 1].result == Missing;
    }
  }

  /** What an attempt leaves in the exception log entry. */
  lemma {:induction false} SlotAfterAttempt(g: Settings, w: Worker, t: Txn, a: Attempt)
    requires |t.changes| == |a.deliveries|
    ensures Attempted(g, w, t, a).0.slot == if ClearsSlot(g, TriesOn(w, t, a), t, a) then Slot(0) else Slot(t.commitLsn)
  {
    var n := |t.changes|;
    if !TriesOn(w, t, a) {
      PlainPass(g, t, a, n);
    } else {
      match g.behaviour
      case Discard =>
      case TransDiscard => DiscardedWalk(g, t, a, n);
      case SubDisable => UnhinderedWalk(g, t, a, n);
    }
  }

  /** After an attempt that does not commit, the next delivery is met in try mode exactly when the entry was
      not reset and the server is not restarted in between. */
  lemma {:induction false} NextAttemptTriesExactlyWhen(g: Settings, w: Worker, t: Txn, a: Attempt, next: Attempt)
    requires |t.changes| == |a.deliveries| && 0 < t.commitLsn && Attempted(g, w, t, a).1 != Committed
    ensures TriesOn(Attempted(g, w, t, a).0, t, next) <==> !next.rebooted && !ClearsSlot(g, TriesOn(w, t, a), t, a)
  {
    SlotAfterAttempt(g, w, t, a);
    var n := |t.changes|;
    if TriesOn(w, t, a) && g.behaviour == TransDiscard {
      DiscardedWalk(g, t, a, n);
    } else if TriesOn(w, t, a) && g.behaviour == SubDisable {
      UnhinderedWalk(g, t, a, n);
    }
  }

  lemma {:induction false} SlotAfterRun(g: Settings, w: Worker, t: Txn, attempts: seq<Attempt>, i: nat)
    requires Delivers(t, attempts) && i < |attempts|
    ensures var o := Run(g, w, t, attempts, i);
      && i <= o.made < |attempts|
      && o.worker.slot == (if ClearsSlot(g, o.tried, t, attempts[o.made]) then Slot(0) else Slot(t.commitLsn))
      && (o.ending == Committed ==> !o.worker.useTry && !o.worker.firstBegin)
    decreases |attempts| - i
  {
    SlotAfterAttempt(g, w, t, attempts[i]);
    var (v, e) := Attempted(g, w, t, attempts[i]);
    if e != Committed && e != Disables && i + 1 < |attempts| {
      SlotAfterRun(g, v, t, attempts, i + 1);
    }
  }

  // ---------- a stream of transactions ----------

  /** A transaction and the deliveries made of it.  `restarted`: it meets a newly started worker process, the
      subscription having been enabled again if it was disabled. */
  datatype Item = Item(txn: Txn, attempts: seq<Attempt>, restarted: bool)

  ghost predicate Deliverable(items: seq<Item>) {
    forall k :: 0 <= k < |items| ==>
      items[k].attempts != [] && Delivers(items[k].txn, items[k].attempts) && 0 < items[k].txn.commitLsn
  }

  /** What comes of an item that meets `w`. */
  ghost function Met(g: Settings, w: Worker, item: Item): Outcome
    requires item.attempts != [] && Delivers(item.txn, item.attempts)
  {
    Run(g, Resumed(w, item.restarted), item.txn, item.attempts, 0)
  }

  /** The worker after the first `n` items. */
  ghost function AfterItems(g: Settings, w: Worker, items: seq<Item>, n: nat): Worker
    requires n <= |items| && Deliverable(items)
  {
    if n == 0 then w else Met(g, AfterItems(g, w, items, n - 1), items[n - 1]).worker
  }

  ghost function ItemOutcome(g: Settings, w: Worker, items: seq<Item>, k: nat): Outcome
    requires k < |items| && Deliverable(items)
  {
    Met(g, AfterItems(g, w, items, k), items[k])
  }

  /** The item follows one that was committed, or meets a newly started process. */
  ghost predicate Follows(g: Settings, w: Worker, items: seq<Item>, k: nat)
    requires 0 < k < |items| && Deliverable(items)
  {
    items[k].restarted || ItemOutcome(g, w, items, k - 1).ending == Committed
  }

  ghost predicate Streamed(g: Settings, w: Worker, items: seq<Item>)
    requires Deliverable(items)
  {
    forall k :: 0 < k < |items| ==> Follows(g, w, items, k)
  }

  /** The item is the one before it sent again to a newly started process of the same server run, and the
      last delivery of that one had not reset the exception log entry. */
  ghost predicate Marked(g: Settings, w: Worker, items: seq<Item>, k: nat)
    requires 0 < k < |items| && Deliverable(items)
  {
    var o, prev := ItemOutcome(g, w, items, k - 1), items[k - 1];
    && items[k].restarted && !items[k].attempts[0].rebooted && items[k].txn.commitLsn == prev.txn.commitLsn
    && o.made < |prev.attempts| && !ClearsSlot(g, o.tried, prev.txn, prev.attempts[o.made])
  }

  /** The first delivery of an item enters try mode exactly when the item is marked. */
  lemma {:induction false} EntersTryModeExactlyWhen(g: Settings, w: Worker, items: seq<Item>, k: nat)
    requires 0 < k < |items| && Deliverable(items) && Streamed(g, w, items)
    ensures var met := Resumed(AfterItems(g, w, items, k), items[k].restarted);
      TriesOn(met, items[k].txn, items[k].attempts[0]) <==> Marked(g, w, items, k)
  {
    var prev := items[k - 1];
    assert Follows(g, w, items, k);
    SlotAfterRun(g, Resumed(AfterItems(g, w, items, k - 1), prev.restarted), prev.txn, prev.attempts, 0);
    assert AfterItems(g, w, items, k) == ItemOutcome(g, w, items, k - 1).worker;
  }

  /** A clean first delivery met plainly is the only one, and applies everything. */
  lemma {:induction false} CleanRun(g: Settings, w: Worker, t: Txn, attempts: seq<Attempt>)
    requires attempts != [] && Delivers(t, attempts) && Clean(t, attempts[0]) && !TriesOn(w, t, attempts[0])
    ensures var o := Run(g, w, t, attempts, 0);
      o.ending == Committed && o.made == 0 && o.worker.db.applied == w.db.applied + Live(t, |t.changes|)
  {
    CleanPass(g, false, t, attempts[0], |t.changes|);
    CleanAttemptAppliesAllExactlyWhen(g, w, t, attempts[0]);
    assert Attempted(g, w, t, attempts[0]).1 == Committed;
  }

  /** Whatever came before, an item whose first delivery is clean adds exactly its live changes, unless the
      item is marked, the mode is not DISCARD and it has live changes; then it adds none of them at that
      delivery. */
  lemma {:induction false} CleanItemAppliesExactlyWhen(g: Settings, w: Worker, items: seq<Item>, k: nat)
    requires 0 < k < |items| && Deliverable(items) && Streamed(g, w, items)
    requires Clean(items[k].txn, items[k].attempts[0]) && |items[k].attempts| == 1
    ensures var live := Live(items[k].txn, |items[k].txn.changes|);
      AfterItems(g, w, items, k + 1).db.applied == AfterItems(g, w, items, k).db.applied + live
      <==> !Marked(g, w, items, k) || g.behaviour == Discard || live == []
  {
    var met := Resumed(AfterItems(g, w, items, k), items[k].restarted);
    EntersTryModeExactlyWhen(g, w, items, k);
    CleanAttemptAppliesAllExactlyWhen(g, met, items[k].txn, items[k].attempts[0]);
  }

  /** What an item adds to the tables: all its live changes if its first delivery is clean; otherwise what
      its last delivery is due to add if that was committed, and nothing if it was not. */
  ghost function Added(g: Settings, item: Item, o: Outcome): seq<int>
    requires item.attempts != [] && Delivers(item.txn, item.attempts)
  {
    if Clean(item.txn, item.attempts[0]) then Live(item.txn, |item.txn.changes|)
    else if o.ending == Committed && o.made < |item.attempts| then Effect(g, o.tried, item.txn, item.attempts[o.made]).0
    else []
  }

  lemma {:induction false} RunAdds(g: Settings, w: Worker, t: Txn, attempts: seq<Attempt>, i: nat)
    requires Delivers(t, attempts) && i < |attempts|
    ensures var o := Run(g, w, t, attempts, i);
      && i <= o.made < |attempts|
      && o.worker.db.applied
         == w.db.applied + if o.ending == Committed then Effect(g, o.tried, t, attempts[o.made]).0 else []
    decreases |attempts| - i
  {
    AttemptOutcome(g, w, t, attempts[i]);
    assert w.db.applied + [] == w.db.applied;
    var (v, e) := Attempted(g, w, t, attempts[i]);
    if e != Committed && e != Disables && i + 1 < |attempts| {
      RunAdds(g, v, t, attempts, i + 1);
    }
  }

  /** No item of the stream is marked, and the first does not enter try mode. */
  ghost predicate Unmarked(g: Settings, w: Worker, items: seq<Item>)
    requires Deliverable(items)
  {
    && (items != [] ==> !TriesOn(Resumed(w, items[0].restarted), items[0].txn, items[0].attempts[0]))
    && forall k :: 0 < k < |items| ==> !Marked(g, w, items, k)
  }

  lemma {:induction false} ItemAdds(g: Settings, w: Worker, items: seq<Item>, k: nat)
    requires k < |items| && Deliverable(items) && Streamed(g, w, items) && Unmarked(g, w, items)
    ensures var o := ItemOutcome(g, w, items, k);
      && o.made < |items[k].attempts|
      && AfterItems(g, w, items, k + 1).db.applied == AfterItems(g, w, items, k).db.applied + Added(g, items[k], o)
      && (Clean(items[k].txn, items[k].attempts[0]) ==> o.ending == Committed && o.made == 0)
  {
    var met := Resumed(AfterItems(g, w, items, k), items[k].restarted);
    RunAdds(g, met, items[k].txn, items[k].attempts, 0);
    if k > 0 {
      EntersTryModeExactlyWhen(g, w, items, k);
    }
    if Clean(items[k].txn, items[k].attempts[0]) {
      CleanRun(g, met, items[k].txn, items[k].attempts);
    }
  }

  /** What each item adds. */
  ghost function AddedByEach(g: Settings, w: Worker, items: seq<Item>): seq<seq<int>>
    requires Deliverable(items)
  {
    seq(|items|, k requires 0 <= k < |items| => Added(g, items[k], ItemOutcome(g, w, items, k)))
  }

  function Concat(parts: seq<seq<int>>, n: nat): seq<int>
    requires n <= |parts|
  {
    if n == 0 then [] else Concat(parts, n - 1) + parts[n - 1]
  }

  lemma {:induction false} Telescopes(held: seq<seq<int>>, parts: seq<seq<int>>, n: nat)
    requires n <= |parts| == |held| - 1
    requires forall k {:trigger parts[k]} :: 0 <= k < n ==> held[k + 1] == held[k] + parts[k]
    ensures held[n] == held[0] + Concat(parts, n)
  {
    if n == 0 {
    } else {
      Telescopes(held, parts, n - 1);
      assert held[n - 1 + 1] == held[n - 1] + parts[n - 1];
    }
  }

  /** The tables before each item and after the last. */
  ghost function HeldByEach(g: Settings, w: Worker, items: seq<Item>): seq<seq<int>>
    requires Deliverable(items)
  {
    seq(|items| + 1, k requires 0 <= k <= |items| => AfterItems(g, w, items, k).db.applied)
  }

  lemma {:induction false} HeldAt(g: Settings, w: Worker, items: seq<Item>, k: nat)
    requires k <= |items| && Deliverable(items)
    ensures HeldByEach(g, w, items)[k] == AfterItems(g, w, items, k).db.applied
  {
  }

  lemma {:induction false} AddedAt(g: Settings, w: Worker, items: seq<Item>, k: nat)
    requires k < |items| && Deliverable(items)
    ensures AddedByEach(g, w, items)[k] == Added(g, items[k], ItemOutcome(g, w, items, k))
  {
  }

  lemma {:induction false} HeldGrows(g: Settings, w: Worker, items: seq<Item>, k: nat)
    requires k < |items| && Deliverable(items) && Streamed(g, w, items) && Unmarked(g, w, items)
    ensures HeldByEach(g, w, items)[k + 1] == HeldByEach(g, w, items)[k] + AddedByEach(g, w, items)[k]
  {
    HeldAt(g, w, items, k);
    HeldAt(g, w, items, k + 1);
    AddedAt(g, w, items, k);
    ItemAdds(g, w, items, k);
  }

  lemma {:induction false} StreamTelescopes(g: Settings, w: Worker, items: seq<Item>, held: seq<seq<int>>,
                                            parts: seq<seq<int>>, n: nat)
    requires n <= |items| && Deliverable(items) && Streamed(g, w, items) && Unmarked(g, w, items)
    requires held == HeldByEach(g, w, items) && parts == AddedByEach(g, w, items)
    ensures held[n] == held[0] + Concat(parts, n)
  {
    forall k {:trigger parts[k]} | 0 <= k < n ensures held[k + 1] == held[k] + parts[k] {
      HeldGrows(g, w, items, k);
    }
    Telescopes(held, parts, n);
  }

  /** Over a whole stream, with any failures of the other items and any restarts between them, the tables
      gain for each item in turn what that item adds: for one delivered cleanly, all its live changes. */
  lemma {:induction false} StreamApplies(g: Settings, w: Worker, items: seq<Item>, n: nat)
    requires n <= |items| && Deliverable(items) && Streamed(g, w, items) && Unmarked(g, w, items)
    ensures AfterItems(g, w, items, n).db.applied == w.db.applied + Concat(AddedByEach(g, w, items), n)
  {
    StreamTelescopes(g, w, items, HeldByEach(g, w, items), AddedByEach(g, w, items), n);
  }

  /** SUB_DISABLE has disabled the subscription, it is enabled again, and the transaction is sent again to
      the new process with nothing failing: it is applied in full exactly when the disabling error had not
      struck before the first change had begun, or there is nothing to apply. */
  lemma {:induction false} ResentAfterDisableExactlyWhen(g: Settings, w: Worker, t: Txn, a: Attempt, next: Attempt)
    requires |t.changes| == |a.deliveries| && g.behaviour == SubDisable && w.db.enabled && 0 < t.commitLsn
    requires Attempted(g, w, t, a).1 == Disables && Clean(t, next) && !next.rebooted
    ensures t.changes != []
    ensures var live, v := Live(t, |t.changes|), Resumed(Attempted(g, w, t, a).0, true);
      Attempted(g, v, t, next).0.db.applied == w.db.applied + live
      <==> a.deliveries[0].result != Breaks(false, false) || live == []
  {
    var v := Resumed(Attempted(g, w, t, a).0, true);
    DisabledExactlyWhen(g, w, t, a);
    SlotAfterAttempt(g, w, t, a);
    AttemptOutcome(g, w, t, a);
    CleanAttemptAppliesAllExactlyWhen(g, v, t, next);
  }

  /** In the failing case the clean delivery disables the subscription once more, and only the next one,
      after it is enabled a second time, applies the transaction. */
  lemma {:induction false} SecondResendApplies(g: Settings, w: Worker, t: Txn, a: Attempt, next: Attempt, last: Attempt)
    requires |t.changes| == |a.deliveries| && g.behaviour == SubDisable && w.db.enabled && 0 < t.commitLsn
    requires Attempted(g, w, t, a).1 == Disables && t.changes != [] && a.deliveries[0].result == Breaks(false, false)
    requires Clean(t, next) && !next.rebooted && !next.lost && Clean(t, last)
    ensures var (v, e) := Attempted(g, Resumed(Attempted(g, w, t, a).0, true), t, next);
      && e == Disables && v.db.applied == w.db.applied
      && Attempted(g, Resumed(v, true), t, last).0.db.applied == w.db.applied + Live(t, |t.changes|)
  {
    var u := Resumed(Attempted(g, w, t, a).0, true);
    assert u.slot == Slot(t.commitLsn) && u.db.applied == w.db.applied && u.db.enabled by {
      SlotAfterAttempt(g, w, t, a);
      AttemptOutcome(g, w, t, a);
    }
    assert TriesOn(u, t, next) && Unhindered(next, |t.changes|) && !Lacks(next, |t.changes|);
    var (v, e) := Attempted(g, u, t, next);
    assert e == Disables && v.slot == Slot(0) && v.db.applied == u.db.applied by {
      DisabledExactlyWhen(g, u, t, next);
      SlotAfterAttempt(g, u, t, next);
      AttemptOutcome(g, u, t, next);
    }
    CleanAttemptAppliesAllExactlyWhen(g, Resumed(v, true), t, last);
  }

  // ---------- the worker ----------

  /** One transaction after the other. */
  method ApplyStream(worker: ApplyWorker, items: seq<Item>)
    requires Deliverable(items) && worker.Idle()
    modifies worker
    ensures worker.State() == AfterItems(worker.settings, old(worker.State()), items, |items|)
    ensures var g, was := worker.settings, old(worker.State());
      Streamed(g, was, items) && Unmarked(g, was, items) ==>
        worker.applied == old(worker.applied) + Concat(AddedByEach(g, was, items), |items|)
  {
    ghost var was := worker.State();
    for n := 0 to |items|
      invariant worker.Idle() && worker.State() == AfterItems(worker.settings, was, items, n)
    {
      if items[n].restarted {
        worker.Restart();
      }
      var _, _, _ := worker.Apply(items[n].txn, items[n].attempts);
    }
    if Streamed(worker.settings, was, items) && Unmarked(worker.settings, was, items) {
      StreamApplies(worker.settings, was, items, |items|);
    }
  }
}
