/** How the apply worker carries one remote transaction through failures: a plain first pass, then, after
    an error, replays in try mode whose effect depends on `spock.exception_behaviour`.  Where errors strike
    is given per delivery of the transaction, so every statement is about all failure patterns. */
module ApplyExceptions {
  import Wal

  datatype Behaviour = Discard | TransDiscard | SubDisable

  datatype Logging = LogNone | LogDiscard | LogAll

  datatype Settings = Settings(behaviour: Behaviour, logging: Logging)

  /** A row change; `syncing` when its table is still being synchronised and the change is to be skipped. */
  datatype Change = Change(id: int, syncing: bool)

  datatype Txn = Txn(changes: seq<Change>, commitLsn: nat, endLsn: nat)

  /** What meets a change when it is handled: the row operation would succeed or fail (`xid`: having taken a
      transaction id), its relation cannot be found, or an error outside the row operation strikes (`lost`:
      of the connection class; `begun`: after the change's own step had begun). */
  datatype Result = Succeeds(xid: bool) | Fails(xid: bool) | Missing | Breaks(lost: bool, begun: bool)

  /** `batchEnds`: the receive buffer runs empty after this change. */
  datatype Delivery = Delivery(result: Result, batchEnds: bool)

  /** One delivery of the whole transaction.  `commitFails`: the local commit raises; `lost`: the
      connection is down when the COMMIT message raises; `rebooted`: the server was restarted before it. */
  datatype Attempt = Attempt(deliveries: seq<Delivery>, commitFails: bool, lost: bool, rebooted: bool)

  /** The subscription's entry in the shared exception log; position 0 is invalid. */
  datatype Slot = NoSlot | Slot(lsn: nat)

  /** `logged`: the changes whose row is in the exception log; `blanks`: how many of its entries hold none. */
  datatype Database = Database(applied: seq<int>, logged: seq<int>, blanks: nat, origin: nat, enabled: bool)

  /** What survives from one attempt to the next. */
  datatype Worker = Worker(db: Database, slot: Slot, useTry: bool, firstBegin: bool)

  datatype Flow = Going | Raised(lost: bool) | Halted

  /** The local transaction: `open` once a change has begun one, `wrote` once it has a transaction id. */
  datatype Pass = Pass(rows: seq<int>, log: seq<int>, blanks: nat, had: bool, open: bool, wrote: bool, flow: Flow)

  /** `Undone`: the subscription was to be disabled, but inside a transaction that the exit rolls back. */
  datatype Ending = Committed | Replays | Exits | Disables | Undone

  // ---------- one attempt ----------

  /** A restart of the server clears shared memory. */
  function Meets(w: Worker, a: Attempt): Worker {
    if a.rebooted then Worker(w.db, NoSlot, false, true) else w
  }

  /** Whether BEGIN puts the worker into try mode. */
  function Tries(w: Worker, lsn: nat): bool {
    if !w.firstBegin then w.useTry
    else match w.slot
      case NoSlot => false
      case Slot(l) => l == lsn || w.useTry
  }

  function TriesOn(w: Worker, t: Txn, a: Attempt): bool {
    Tries(Meets(w, a), t.commitLsn)
  }

  /** A new worker process, the subscription having been enabled again if it was disabled. */
  function Resumed(w: Worker, restarted: bool): Worker {
    if restarted then Worker(w.db.(enabled := true), w.slot, false, true) else w
  }

  /** `should_log_exception`. */
  predicate ShouldLog(g: Settings, failed: bool) {
    g.logging != LogNone && (failed || g.logging == LogAll || g.behaviour != Discard)
  }

  function Only(wanted: bool, c: Change): seq<int> {
    if wanted then [c.id] else []
  }

  /** `log_insert_exception`; for a missing relation there is no row to log. */
  function Note(g: Settings, failed: bool, missing: bool, p: Pass, c: Change): Pass {
    if !ShouldLog(g, failed) then p
    else if missing then p.(blanks := p.blanks + 1, wrote := true)
    else p.(log := p.log + [c.id], wrote := true)
  }

  function HandleChange(g: Settings, tries: bool, before: Pass, c: Change, d: Delivery): Pass {
    var p := before.(open := true);
    var r := d.result;
    var q :=
      if r.Breaks? then before.(open := before.open || r.begun, flow := Raised(r.lost))
      else if r.Missing? then if tries then Note(g, true, true, p.(had := true), c) else p.(flow := Raised(false))
      else if c.syncing then p
      else if tries && g.behaviour != Discard then Note(g, false, false, p, c)
      else if r.Succeeds? then p.(rows := p.rows + [c.id], wrote := p.wrote || r.xid)
      else if tries then Note(g, true, false, p.(had := true, wrote := p.wrote || r.xid), c)
      else p.(flow := Raised(false));
    if q.flow == Going && d.batchEnds && q.had && g.behaviour == SubDisable then q.(flow := Halted) else q
  }

  const NEW_PASS := Pass([], [], 0, false, false, false, Going)

  /** The first `n` changes. */
  function Walk(g: Settings, tries: bool, t: Txn, a: Attempt, n: nat): Pass
    requires n <= |t.changes| == |a.deliveries|
  {
    if n == 0 then NEW_PASS
    else
      var p := Walk(g, tries, t, a, n - 1);
      if p.flow == Going then HandleChange(g, tries, p, t.changes[n - 1], a.deliveries[n - 1]) else p
  }

  lemma {:induction false} StoppedWalk(g: Settings, tries: bool, t: Txn, a: Attempt, n: nat, m: nat)
    requires n <= m <= |t.changes| == |a.deliveries| && (n == m || Walk(g, tries, t, a, n).flow != Going)
    ensures Walk(g, tries, t, a, m) == Walk(g, tries, t, a, n)
  {
    if n == m {
    } else {
      StoppedWalk(g, tries, t, a, n, m - 1);
    }
  }

  /** COMMIT: the database and slot afterwards, and the error it raises if any.  Only a commit of a
      transaction with an id records the session's origin position. */
  function HandleCommit(b: Behaviour, tries: bool, w: Worker, t: Txn, a: Attempt, p: Pass): (Worker, Flow) {
    if !p.open then
      (w.(db := w.db.(origin := Wal.Max(w.db.origin, t.endLsn))), Going)
    else
      var session := if (!p.had && !(tries && b == SubDisable)) || b != SubDisable then t.endLsn else t.commitLsn;
      var w1 := if !p.had && tries && b != Discard then w.(slot := Slot(0)) else w;
      if a.commitFails then (w1, Raised(a.lost))
      else
        var origin := if p.wrote then Wal.Max(w.db.origin, session) else w.db.origin;
        var db := Database(w.db.applied + p.rows, w.db.logged + p.log, w.db.blanks + p.blanks, origin, w.db.enabled);
        if b == SubDisable && (p.had || tries) then (w1.(db := db, slot := Slot(0)), Raised(a.lost))
        else (w1.(db := db), Going)
  }

  /** What comes of disabling the subscription: only a transaction begun for it is committed. */
  function Disabling(open: bool): Ending {
    if open then Undone else Disables
  }

  /** What the error handler decides; `open`: whether it runs inside the local transaction. */
  function Catch(b: Behaviour, tries: bool, had: bool, open: bool, lost: bool): Ending {
    if lost then Exits
    else if b == SubDisable && (had || tries) then Disabling(open)
    else if !had && tries then Exits
    else Replays
  }

  /** The worker that meets the next BEGIN: replaying in the same process, or newly started. */
  function Left(w: Worker, e: Ending): Worker {
    match e
    case Committed => w.(useTry := false, firstBegin := false)
    case Replays => w.(useTry := true, firstBegin := true)
    case Exits => w.(useTry := false, firstBegin := true)
    case Undone => w.(useTry := false, firstBegin := true)
    case Disables => w.(db := w.db.(enabled := false, blanks := w.db.blanks + 1), useTry := false, firstBegin := true)
  }

  /** COMMIT or the error handler, after the changes were walked. */
  function Finished(b: Behaviour, tries: bool, w: Worker, t: Txn, a: Attempt, p: Pass): (Worker, Ending) {
    match p.flow
    case Raised(lost) => var e := Catch(b, tries, p.had, p.open, lost); (Left(w, e), e)
    case Halted => (Left(w, Disabling(p.open)), Disabling(p.open))
    case Going =>
      var (done, flow) := HandleCommit(b, tries, w, t, a, p);
      var e := if flow.Raised? then Catch(b, tries, p.had, a.commitFails, flow.lost) else Committed;
      (Left(done, e), e)
  }

  function Attempted(g: Settings, w: Worker, t: Txn, a: Attempt): (Worker, Ending)
    requires |t.changes| == |a.deliveries|
  {
    var tries := TriesOn(w, t, a);
    var begun := Worker(w.db, Slot(t.commitLsn), tries, false);
    Finished(g.behaviour, tries, begun, t, a, Walk(g, tries, t, a, |t.changes|))
  }

  // ---------- all attempts ----------

  ghost predicate Delivers(t: Txn, attempts: seq<Attempt>) {
    forall i :: 0 <= i < |attempts| ==> |attempts[i].deliveries| == |t.changes|
  }

  /** `tried`: whether the last attempt made ran in try mode. */
  datatype Outcome = Outcome(worker: Worker, ending: Ending, made: nat, tried: bool)

  /** Attempts `i`, `i + 1`, ... until one commits or the subscription is disabled. */
  ghost function Run(g: Settings, w: Worker, t: Txn, attempts: seq<Attempt>, i: nat): Outcome
    requires Delivers(t, attempts) && i < |attempts|
    decreases |attempts| - i
  {
    var (v, e) := Attempted(g, w, t, attempts[i]);
    if e == Committed || e == Disables || i + 1 == |attempts| then Outcome(v, e, i, TriesOn(w, t, attempts[i]))
    else Run(g, v, t, attempts, i + 1)
  }

  // ---------- what the attempts must amount to ----------

  /** Changes that are to be applied. */
  function Live(t: Txn, n: nat): seq<int>
    requires n <= |t.changes|
  {
    if n == 0 then [] else Live(t, n - 1) + Only(!t.changes[n - 1].syncing, t.changes[n - 1])
  }

  predicate Survives(c: Change, r: Result) {
    !c.syncing && r.Succeeds?
  }

  predicate Fallen(c: Change, r: Result) {
    !c.syncing && r.Fails?
  }

  predicate HasRow(c: Change, r: Result) {
    !c.syncing && !r.Missing?
  }

  /** Changes whose own row operation succeeded. */
  function Survivors(t: Txn, a: Attempt, n: nat): seq<int>
    requires n <= |t.changes| == |a.deliveries|
  {
    if n == 0 then []
    else Survivors(t, a, n - 1) + Only(Survives(t.changes[n - 1], a.deliveries[n - 1].result), t.changes[n - 1])
  }

  /** Changes whose operation failed. */
  function Casualties(t: Txn, a: Attempt, n: nat): seq<int>
    requires n <= |t.changes| == |a.deliveries|
  {
    if n == 0 then []
    else Casualties(t, a, n - 1) + Only(Fallen(t.changes[n - 1], a.deliveries[n - 1].result), t.changes[n - 1])
  }

  /** Changes to be applied whose relation is found. */
  function Found(t: Txn, a: Attempt, n: nat): seq<int>
    requires n <= |t.changes| == |a.deliveries|
  {
    if n == 0 then []
    else Found(t, a, n - 1) + Only(HasRow(t.changes[n - 1], a.deliveries[n - 1].result), t.changes[n - 1])
  }

  /** How many changes have no relation. */
  function Lacking(a: Attempt, n: nat): nat
    requires n <= |a.deliveries|
  {
    if n == 0 then 0 else Lacking(a, n - 1) + if a.deliveries[n - 1].result.Missing? then 1 else 0
  }

  /** `ids` are those of the changes at the wanted positions, each once and in order; `at` gives them. */
  ghost predicate Lists(t: Txn, ids: seq<int>, at: seq<nat>, wanted: set<nat>) {
    && |at| == |ids| && (set i | i in at) == wanted
    && (forall k :: 0 <= k < |at| ==> at[k] < |t.changes| && ids[k] == t.changes[at[k]].id)
    && forall j, k :: 0 <= j < k < |at| ==> at[j] < at[k]
  }

  lemma {:induction false} ListsOneMore(t: Txn, ids: seq<int>, at: seq<nat>, wanted: set<nat>, n: nat, add: bool)
    returns (more: seq<nat>)
    requires Lists(t, ids, at, wanted) && n < |t.changes| && forall i :: i in wanted ==> i < n
    ensures Lists(t, ids + Only(add, t.changes[n]), more, if add then wanted + {n} else wanted)
  {
    more := if add then at + [n] else at;
    if add {
      assert (set i | i in more) == wanted + {n};
      forall j, k | 0 <= j < k < |more| ensures more[j] < more[k] {
        assert at[j] in wanted;
      }
    } else {
      assert ids + [] == ids;
    }
  }

  /** The live changes are those not skipped for synchronisation. */
  lemma {:induction false} LiveLists(t: Txn, n: nat) returns (at: seq<nat>)
    requires n <= |t.changes|
    ensures Lists(t, Live(t, n), at, set i: nat | i < n && !t.changes[i].syncing)
  {
    if n == 0 {
      at := [];
    } else {
      at := LiveLists(t, n - 1);
      at := ListsOneMore(t, Live(t, n - 1), at, (set i: nat | i < n - 1 && !t.changes[i].syncing), n - 1,
                         !t.changes[n - 1].syncing);
    }
  }

  /** The survivors are those of them whose operation succeeds. */
  lemma {:induction false} SurvivorsList(t: Txn, a: Attempt, n: nat) returns (at: seq<nat>)
    requires n <= |t.changes| == |a.deliveries|
    ensures Lists(t, Survivors(t, a, n), at,
                  set i: nat | i < n && !t.changes[i].syncing && a.deliveries[i].result.Succeeds?)
  {
    if n == 0 {
      at := [];
    } else {
      at := SurvivorsList(t, a, n - 1);
      at := ListsOneMore(t, Survivors(t, a, n - 1), at,
                         (set i: nat | i < n - 1 && !t.changes[i].syncing && a.deliveries[i].result.Succeeds?), n - 1,
                         Survives(t.changes[n - 1], a.deliveries[n - 1].result));
    }
  }

  /** The casualties are those whose operation fails. */
  lemma {:induction false} CasualtiesList(t: Txn, a: Attempt, n: nat) returns (at: seq<nat>)
    requires n <= |t.changes| == |a.deliveries|
    ensures Lists(t, Casualties(t, a, n), at,
                  set i: nat | i < n && !t.changes[i].syncing && a.deliveries[i].result.Fails?)
  {
    if n == 0 {
      at := [];
    } else {
      at := CasualtiesList(t, a, n - 1);
      at := ListsOneMore(t, Casualties(t, a, n - 1), at,
                         (set i: nat | i < n - 1 && !t.changes[i].syncing && a.deliveries[i].result.Fails?), n - 1,
                         Fallen(t.changes[n - 1], a.deliveries[n - 1].result));
    }
  }

  /** Found are all of them whose relation is not missing. */
  lemma {:induction false} FoundLists(t: Txn, a: Attempt, n: nat) returns (at: seq<nat>)
    requires n <= |t.changes| == |a.deliveries|
    ensures Lists(t, Found(t, a, n), at,
                  set i: nat | i < n && !t.changes[i].syncing && !a.deliveries[i].result.Missing?)
  {
    if n == 0 {
      at := [];
    } else {
      at := FoundLists(t, a, n - 1);
      at := ListsOneMore(t, Found(t, a, n - 1), at,
                         (set i: nat | i < n - 1 && !t.changes[i].syncing && !a.deliveries[i].result.Missing?), n - 1,
                         HasRow(t.changes[n - 1], a.deliveries[n - 1].result));
    }
  }

  /** What reaches the exception log of what should. */
  function Noted(g: Settings, ids: seq<int>): seq<int> {
    if g.logging == LogNone then [] else ids
  }

  function NotedCount(g: Settings, count: nat): nat {
    if g.logging == LogNone then 0 else count
  }

  /** Changes with a row that a committed attempt did not apply. */
  function Unapplied(b: Behaviour, tried: bool, t: Txn, a: Attempt): seq<int>
    requires |t.changes| == |a.deliveries|
  {
    if !tried then [] else if b == Discard then Casualties(t, a, |t.changes|) else Found(t, a, |t.changes|)
  }

  /** Whether handling a change gives the local transaction an id. */
  predicate Writes(g: Settings, tries: bool, c: Change, r: Result) {
    if r.Missing? then tries && g.logging != LogNone
    else if c.syncing || r.Breaks? then false
    else if tries && g.behaviour != Discard then g.logging != LogNone
    else r.xid || (tries && r.Fails? && g.logging != LogNone)
  }

  ghost predicate WritesSomething(g: Settings, tries: bool, t: Txn, a: Attempt, n: nat)
    requires n <= |t.changes| == |a.deliveries|
  {
    exists i :: 0 <= i < n && Writes(g, tries, t.changes[i], a.deliveries[i].result)
  }

  /** What a committed transaction must have added to the database: rows, logged rows, blank entries. */
  function Effect(g: Settings, tried: bool, t: Txn, a: Attempt): (seq<int>, seq<int>, nat)
    requires |t.changes| == |a.deliveries|
  {
    var n := |t.changes|;
    (if !tried then Live(t, n) else if g.behaviour == Discard then Survivors(t, a, n) else [],
     Noted(g, Unapplied(g.behaviour, tried, t, a)),
     if tried then NotedCount(g, Lacking(a, n)) else 0)
  }

  /** The origin passes a committed transaction if it has no changes or its local commit wrote something. */
  ghost predicate Passes(g: Settings, tried: bool, t: Txn, a: Attempt)
    requires |t.changes| == |a.deliveries|
  {
    t.changes == [] || WritesSomething(g, tried, t, a, |t.changes|)
  }

  // ---------- one pass in each mode ----------

  lemma {:induction false} WroteExactlyWhen(g: Settings, tries: bool, t: Txn, a: Attempt, n: nat)
    requires n <= |t.changes| == |a.deliveries|
    ensures var p := Walk(g, tries, t, a, n);
      && (p.flow == Going ==> (p.wrote <==> WritesSomething(g, tries, t, a, n)))
      && (p.flow == Going ==> p.open == (n > 0))
  {
    if n == 0 {
    } else {
      WroteExactlyWhen(g, tries, t, a, n - 1);
    }
  }

  /** On a plain pass a change goes through if its operation succeeds or is not attempted. */
  predicate GoesThrough(c: Change, r: Result) {
    r.Succeeds? || (c.syncing && r.Fails?)
  }

  lemma {:induction false} PlainStep(g: Settings, p: Pass, c: Change, d: Delivery)
    requires p.flow == Going && !p.had
    ensures var q := HandleChange(g, false, p, c, d);
      && !q.had && q.log == p.log && q.blanks == p.blanks
      && q.flow == (if GoesThrough(c, d.result) then Going else Raised(d.result.Breaks? && d.result.lost))
      && (q.flow == Going ==> q.rows == p.rows + Only(!c.syncing, c) && HasRow(c, d.result) == !c.syncing)
  {
    assert p.rows + [] == p.rows;
  }

  lemma {:induction false} PlainPass(g: Settings, t: Txn, a: Attempt, n: nat)
    requires n <= |t.changes| == |a.deliveries|
    ensures var p := Walk(g, false, t, a, n);
      && !p.had && p.log == [] && p.blanks == 0 && p.flow != Halted
      && (p.flow == Going ==> p.rows == Live(t, n) == Found(t, a, n) && Lacking(a, n) == 0)
  {
    if n == 0 {
    } else {
      PlainPass(g, t, a, n - 1);
      var p := Walk(g, false, t, a, n - 1);
      if p.flow == Going {
        PlainStep(g, p, t.changes[n - 1], a.deliveries[n - 1]);
      }
    }
  }

  lemma {:induction false} DiscardStep(g: Settings, p: Pass, c: Change, d: Delivery, rows: seq<int>, fallen: seq<int>)
    requires p.flow == Going && p.rows == rows && p.log == Noted(g, fallen) && g.behaviour == Discard
    ensures var q := HandleChange(g, true, p, c, d);
      && q.flow != Halted
      && (q.flow == Going ==> q.rows == rows + Only(Survives(c, d.result), c)
                              && q.log == Noted(g, fallen + Only(Fallen(c, d.result), c))
                              && q.blanks == p.blanks + NotedCount(g, if d.result.Missing? then 1 else 0))
  {
    assert rows + [] == rows && fallen + [] == fallen;
  }

  lemma {:induction false} DiscardPass(g: Settings, t: Txn, a: Attempt, n: nat)
    requires n <= |t.changes| == |a.deliveries| && g.behaviour == Discard
    ensures var p := Walk(g, true, t, a, n);
      && p.flow != Halted
      && (p.flow == Going ==> p.rows == Survivors(t, a, n) && p.log == Noted(g, Casualties(t, a, n)))
      && (p.flow == Going ==> p.blanks == NotedCount(g, Lacking(a, n)))
  {
    if n == 0 {
    } else {
      DiscardPass(g, t, a, n - 1);
      var p := Walk(g, true, t, a, n - 1);
      if p.flow == Going {
        DiscardStep(g, p, t.changes[n - 1], a.deliveries[n - 1], Survivors(t, a, n - 1), Casualties(t, a, n - 1));
      }
    }
  }

  lemma {:induction false} ReadOnlyStep(g: Settings, p: Pass, c: Change, d: Delivery, found: seq<int>)
    requires p.flow == Going && p.log == Noted(g, found) && g.behaviour != Discard
    ensures var q := HandleChange(g, true, p, c, d);
      && q.rows == p.rows && (q.flow == Halted ==> g.behaviour == SubDisable)
      && (q.flow == Going ==> q.log == Noted(g, found + Only(HasRow(c, d.result), c))
                              && q.blanks == p.blanks + NotedCount(g, if d.result.Missing? then 1 else 0))
  {
    assert found + [] == found && p.log + [] == p.log;
  }

  lemma {:induction false} ReadOnlyPass(g: Settings, t: Txn, a: Attempt, n: nat)
    requires n <= |t.changes| == |a.deliveries| && g.behaviour != Discard
    ensures var p := Walk(g, true, t, a, n);
      && p.rows == [] && (p.flow == Halted ==> g.behaviour == SubDisable)
      && (p.flow == Going ==> p.log == Noted(g, Found(t, a, n)) && p.blanks == NotedCount(g, Lacking(a, n)))
  {
    if n == 0 {
    } else {
      ReadOnlyPass(g, t, a, n - 1);
      var p := Walk(g, true, t, a, n - 1);
      if p.flow == Going {
        ReadOnlyStep(g, p, t.changes[n - 1], a.deliveries[n - 1], Found(t, a, n - 1));
      }
    }
  }

  // ---------- what attempts come to ----------

  /** What one attempt must come to. */
  ghost predicate Proper(g: Settings, w: Worker, t: Txn, a: Attempt, v: Worker, e: Ending)
    requires |t.changes| == |a.deliveries|
  {
    var tried := TriesOn(w, t, a);
    if e == Committed then
      var (rows, log, blanks) := Effect(g, tried, t, a);
      && v.db.applied == w.db.applied + rows && v.db.logged == w.db.logged + log && v.db.blanks == w.db.blanks + blanks
      && v.db.origin == (if Passes(g, tried, t, a) then Wal.Max(w.db.origin, t.endLsn) else w.db.origin)
      && v.db.enabled == w.db.enabled && (g.behaviour == SubDisable && tried ==> t.changes == [])
    else
      && v.db.applied == w.db.applied && w.db.origin <= v.db.origin <= Wal.Max(w.db.origin, t.commitLsn)
      && (e == Disables || e == Undone ==> g.behaviour == SubDisable)
      && (v.db.enabled <==> w.db.enabled && e != Disables)
      && (g.behaviour != SubDisable || e == Undone ==> v.db == w.db)
  }

  lemma {:induction false} PlainOutcome(g: Settings, w: Worker, t: Txn, a: Attempt)
    requires |t.changes| == |a.deliveries| && !TriesOn(w, t, a)
    ensures var (v, e) := Attempted(g, w, t, a); Proper(g, w, t, a, v, e)
  {
    PlainPass(g, t, a, |t.changes|);
    WroteExactlyWhen(g, false, t, a, |t.changes|);
    assert w.db.applied + [] == w.db.applied && w.db.logged + [] == w.db.logged;
  }

  lemma {:induction false} DiscardOutcome(g: Settings, w: Worker, t: Txn, a: Attempt)
    requires |t.changes| == |a.deliveries| && TriesOn(w, t, a) && g.behaviour == Discard
    ensures var (v, e) := Attempted(g, w, t, a); Proper(g, w, t, a, v, e)
  {
    DiscardPass(g, t, a, |t.changes|);
    WroteExactlyWhen(g, true, t, a, |t.changes|);
    assert w.db.applied + [] == w.db.applied && w.db.logged + [] == w.db.logged;
  }

  lemma {:induction false} ReadOnlyOutcome(g: Settings, w: Worker, t: Txn, a: Attempt)
    requires |t.changes| == |a.deliveries| && TriesOn(w, t, a) && g.behaviour != Discard
    ensures var (v, e) := Attempted(g, w, t, a); Proper(g, w, t, a, v, e)
  {
    ReadOnlyPass(g, t, a, |t.changes|);
    WroteExactlyWhen(g, true, t, a, |t.changes|);
    assert w.db.applied + [] == w.db.applied && w.db.logged + [] == w.db.logged;
  }

  lemma {:induction false} AttemptOutcome(g: Settings, w: Worker, t: Txn, a: Attempt)
    requires |t.changes| == |a.deliveries|
    ensures var (v, e) := Attempted(g, w, t, a); Proper(g, w, t, a, v, e)
  {
    if !TriesOn(w, t, a) {
      PlainOutcome(g, w, t, a);
    } else if g.behaviour == Discard {
      DiscardOutcome(g, w, t, a);
    } else {
      ReadOnlyOutcome(g, w, t, a);
    }
  }

  /** Any failure pattern over any number of attempts.  A transaction that commits is applied in full if
      its last attempt was a plain one; in try mode DISCARD applies exactly the surviving changes and
      TRANSDISCARD none, and SUB_DISABLE never gets a non-empty transaction through.  The origin passes
      the transaction exactly when it commits and has no changes or its local commit wrote something; until
      then it would be sent again after a restart. */
  lemma {:induction false} RunOutcome(g: Settings, w: Worker, t: Txn, attempts: seq<Attempt>, i: nat)
    requires Delivers(t, attempts) && i < |attempts| && t.commitLsn < t.endLsn
    ensures var o := Run(g, w, t, attempts, i);
      && i <= o.made < |attempts|
      && (o.ending == Committed ==>
            var (rows, log, blanks) := Effect(g, o.tried, t, attempts[o.made]);
            && o.worker.db.applied == w.db.applied + rows
            && (g.behaviour != SubDisable ==>
                  o.worker.db.logged == w.db.logged + log && o.worker.db.blanks == w.db.blanks + blanks)
            && o.worker.db.enabled == w.db.enabled
            && (g.behaviour == SubDisable && o.tried ==> t.changes == []))
      && (o.ending != Committed ==>
            && o.worker.db.applied == w.db.applied
            && (o.ending == Disables ==> g.behaviour == SubDisable)
            && (o.worker.db.enabled <==> w.db.enabled && o.ending != Disables))
      && w.db.origin <= o.worker.db.origin <= Wal.Max(w.db.origin, t.endLsn)
      && (o.worker.db.origin >= t.endLsn <==>
            w.db.origin >= t.endLsn || (o.ending == Committed && Passes(g, o.tried, t, attempts[o.made])))
    decreases |attempts| - i
  {
    AttemptOutcome(g, w, t, attempts[i]);
    var (v, e) := Attempted(g, w, t, attempts[i]);
    if e != Committed && e != Disables && i + 1 < |attempts| {
      RunOutcome(g, v, t, attempts, i + 1);
    }
  }

  // ---------- what is lost without trace ----------

  /** Every change that has to be accounted for: all but those skipped because their table is being
      synchronised. */
  function Owed(t: Txn, a: Attempt, n: nat): seq<int>
    requires n <= |t.changes| == |a.deliveries|
  {
    if n == 0 then []
    else
      var c, r := t.changes[n - 1], a.deliveries[n - 1].result;
      Owed(t, a, n - 1) + Only(!c.syncing || r.Missing?, c)
  }

  lemma {:induction false} OneAccount(c: Change, r: Result)
    requires !r.Breaks?
    ensures multiset(Only(Survives(c, r), c)) + multiset(Only(Fallen(c, r), c)) == multiset(Only(HasRow(c, r), c))
    ensures |Only(!c.syncing || r.Missing?, c)| == |Only(HasRow(c, r), c)| + if r.Missing? then 1 else 0
    ensures !r.Missing? ==> Only(!c.syncing || r.Missing?, c) == Only(HasRow(c, r), c)
  {
    if Survives(c, r) {
      assert !Fallen(c, r);
    }
  }

  /** Every change with a row either survives or falls; those without one are the rest of what is owed. */
  lemma {:induction false} Accounts(t: Txn, a: Attempt, n: nat)
    requires n <= |t.changes| == |a.deliveries|
    requires forall i :: 0 <= i < n ==> !a.deliveries[i].result.Breaks?
    ensures multiset(Survivors(t, a, n)) + multiset(Casualties(t, a, n)) == multiset(Found(t, a, n))
    ensures |Owed(t, a, n)| == |Found(t, a, n)| + Lacking(a, n)
    ensures Lacking(a, n) == 0 ==> Owed(t, a, n) == Found(t, a, n)
  {
    if n == 0 {
    } else {
      Accounts(t, a, n - 1);
      OneAccount(t.changes[n - 1], a.deliveries[n - 1].result);
    }
  }

  lemma {:induction false} GoingMeansUnbroken(g: Settings, tries: bool, t: Txn, a: Attempt, n: nat)
    requires n <= |t.changes| == |a.deliveries| && Walk(g, tries, t, a, n).flow == Going
    ensures forall i :: 0 <= i < n ==> !a.deliveries[i].result.Breaks?
  {
    if n == 0 {
    } else {
      GoingMeansUnbroken(g, tries, t, a, n - 1);
    }
  }

  /** The condition: no relation was missing, and logging was on or nothing was left unapplied. */
  predicate Traceable(g: Settings, tried: bool, t: Txn, a: Attempt)
    requires |t.changes| == |a.deliveries|
  {
    Lacking(a, |t.changes|) == 0 && (g.logging != LogNone || Unapplied(g.behaviour, tried, t, a) == [])
  }

  lemma {:induction false} Balanced(g: Settings, rows: seq<int>, left: seq<int>, found: seq<int>, owed: seq<int>,
                                    lacking: nat)
    requires multiset(rows) + multiset(left) == multiset(found)
    requires |owed| == |found| + lacking && (lacking == 0 ==> owed == found)
    ensures multiset(rows) + multiset(Noted(g, left)) == multiset(owed)
       <==> lacking == 0 && (g.logging != LogNone || left == [])
  {
    assert |multiset(rows)| == |rows| && |multiset(left)| == |left|;
    assert |multiset(found)| == |found| && |multiset(owed)| == |owed|;
    assert |multiset(rows) + multiset(left)| == |rows| + |left|;
    assert |multiset(rows) + multiset(Noted(g, left))| == |rows| + |Noted(g, left)| by {
      assert |multiset(Noted(g, left))| == |Noted(g, left)|;
    }
  }

  lemma {:induction false} CommittedWalk(g: Settings, w: Worker, t: Txn, a: Attempt)
    requires |t.changes| == |a.deliveries| && Attempted(g, w, t, a).1 == Committed
    ensures var n, tried := |t.changes|, TriesOn(w, t, a);
      && (forall i :: 0 <= i < n ==> !a.deliveries[i].result.Breaks?)
      && (!tried ==> Live(t, n) == Found(t, a, n))
  {
    GoingMeansUnbroken(g, TriesOn(w, t, a), t, a, |t.changes|);
    if !TriesOn(w, t, a) {
      PlainPass(g, t, a, |t.changes|);
    }
  }

  lemma {:induction false} EffectAccounts(g: Settings, tried: bool, t: Txn, a: Attempt)
    requires |t.changes| == |a.deliveries|
    requires forall i :: 0 <= i < |t.changes| ==> !a.deliveries[i].result.Breaks?
    requires !tried ==> Live(t, |t.changes|) == Found(t, a, |t.changes|)
    ensures var (rows, log, _) := Effect(g, tried, t, a);
      multiset(rows) + multiset(log) == multiset(Owed(t, a, |t.changes|)) <==> Traceable(g, tried, t, a)
  {
    var n := |t.changes|;
    var rows, left := Effect(g, tried, t, a).0, Unapplied(g.behaviour, tried, t, a);
    Accounts(t, a, n);
    Balanced(g, rows, left, Found(t, a, n), Owed(t, a, n), Lacking(a, n));
  }

  lemma {:induction false} AttemptAccounts(g: Settings, w: Worker, t: Txn, a: Attempt)
    requires |t.changes| == |a.deliveries| && Attempted(g, w, t, a).1 == Committed
    ensures var (rows, log, _) := Effect(g, TriesOn(w, t, a), t, a);
      multiset(rows) + multiset(log) == multiset(Owed(t, a, |t.changes|)) <==> Traceable(g, TriesOn(w, t, a), t, a)
  {
    CommittedWalk(g, w, t, a);
    EffectAccounts(g, TriesOn(w, t, a), t, a);
  }

  lemma {:induction false} SplitSum(m: multiset<int>, x: multiset<int>, y: multiset<int>)
    ensures m + x == m + y <==> x == y
  {
    if m + x == m + y {
      assert x == (m + x) - m && y == (m + y) - m;
    }
  }

  /** What DISCARD and TRANSDISCARD leave behind over a whole run: the row of every change is in the table or
      in the exception log, none in both, exactly when no relation was missing and logging is on or nothing
      was left unapplied. */
  lemma {:induction false} NothingLostExactlyWhen(g: Settings, w: Worker, t: Txn, attempts: seq<Attempt>, i: nat)
    requires Delivers(t, attempts) && i < |attempts|
    requires g.behaviour != SubDisable && Run(g, w, t, attempts, i).ending == Committed
    ensures var o := Run(g, w, t, attempts, i);
      o.made < |attempts| &&
      (multiset(o.worker.db.applied) + multiset(o.worker.db.logged)
       == multiset(w.db.applied) + multiset(w.db.logged) + multiset(Owed(t, attempts[o.made], |t.changes|))
       <==> Traceable(g, o.tried, t, attempts[o.made]))
    decreases |attempts| - i
  {
    AttemptOutcome(g, w, t, attempts[i]);
    var (v, e) := Attempted(g, w, t, attempts[i]);
    if e == Committed {
      AttemptAccounts(g, w, t, attempts[i]);
      var (rows, log, _) := Effect(g, TriesOn(w, t, attempts[i]), t, attempts[i]);
      SplitSum(multiset(w.db.applied) + multiset(w.db.logged), multiset(rows) + multiset(log),
               multiset(Owed(t, attempts[i], |t.changes|)));
    } else {
      NothingLostExactlyWhen(g, v, t, attempts, i + 1);
    }
  }

  // ---------- when SUB_DISABLE disables ----------

  /** In try mode the first `n` changes are walked without an error and without the check made when the
      buffer runs empty finding a missing relation. */
  ghost predicate Unhindered(a: Attempt, n: nat) {
    && (forall i :: 0 <= i < n && i < |a.deliveries| ==> !a.deliveries[i].result.Breaks?)
    && (forall i, j :: 0 <= i <= j < n && j < |a.deliveries| ==>
          !(a.deliveries[i].result == Missing && a.deliveries[j].batchEnds))
  }

  /** The first `n` changes include one without a relation. */
  ghost predicate Lacks(a: Attempt, n: nat)
    requires n <= |a.deliveries|
  {
    exists i :: 0 <= i < n && a.deliveries[i].result == Missing
  }

  lemma {:induction false} UnhinderedOneMore(a: Attempt, n: nat)
    requires 0 < n <= |a.deliveries|
    ensures var d := a.deliveries[n - 1];
      && (Unhindered(a, n) <==> Unhindered(a, n - 1) && !d.result.Breaks? && !(Lacks(a, n) && d.batchEnds))
      && (Lacks(a, n) <==> Lacks(a, n - 1) || d.result == Missing)
  {
  }

  lemma {:induction false} UnhinderedStep(g: Settings, p: Pass, c: Change, d: Delivery)
    requires p.flow == Going && g.behaviour == SubDisable
    ensures var q, r := HandleChange(g, true, p, c, d), d.result;
      && q.open == (!r.Breaks? || p.open || r.begun) && q.had == (p.had || r == Missing)
      && q.flow == if r.Breaks? then Raised(r.lost) else if q.had && d.batchEnds then Halted else Going
  {
  }

  lemma {:induction false} UnhinderedWalk(g: Settings, t: Txn, a: Attempt, n: nat)
    requires n <= |t.changes| == |a.deliveries| && g.behaviour == SubDisable
    ensures var p := Walk(g, true, t, a, n);
      && (p.flow == Going <==> Unhindered(a, n))
      && (p.flow == Going ==> (p.had <==> Lacks(a, n)))
      && (p.flow == Going ==> p.open == (n > 0)) && (p.flow == Halted ==> p.open)
      && (p.flow == Raised(false) && !p.open <==> n > 0 && a.deliveries[0].result == Breaks(false, false))
  {
    if n == 0 {
    } else {
      UnhinderedWalk(g, t, a, n - 1);
      UnhinderedOneMore(a, n);
      var p := Walk(g, true, t, a, n - 1);
      if p.flow == Going {
        UnhinderedStep(g, p, t.changes[n - 1], a.deliveries[n - 1]);
      }
    }
  }

  /** A SUB_DISABLE attempt ends with the subscription disabled exactly when it runs in try mode and the
      disable is not made inside the open local transaction: the whole transaction was walked and its
      log entries committed, or the error struck before any change had begun. */
  lemma {:induction false} DisabledExactlyWhen(g: Settings, w: Worker, t: Txn, a: Attempt)
    requires |t.changes| == |a.deliveries| && g.behaviour == SubDisable && w.db.enabled
    ensures var (v, e) := Attempted(g, w, t, a);
      && (!v.db.enabled <==> e == Disables)
      && (e == Disables <==>
            && TriesOn(w, t, a) && t.changes != []
            && (a.deliveries[0].result == Breaks(false, false)
                || (Unhindered(a, |t.changes|) && !a.commitFails && !a.lost)))
  {
    UnhinderedWalk(g, t, a, |t.changes|);
    PlainPass(g, t, a, |t.changes|);
  }

  /** The transaction is walked to its end and its log entries are committed. */
  ghost predicate LogsCommitted(t: Txn, a: Attempt) {
    t.changes != [] && Unhindered(a, |t.changes|) && !a.commitFails
  }

  /** What a SUB_DISABLE attempt that does not commit the transaction leaves in the database: nothing after a
      plain pass; in try mode, if the transaction is walked to its end, the row of every change whose
      relation is found and an entry for every other, with the origin at the start of the commit record so
      that the transaction is sent again; and one entry more for the disabling. */
  lemma {:induction false} SubDisableLeaves(g: Settings, w: Worker, t: Txn, a: Attempt)
    requires |t.changes| == |a.deliveries| && g.behaviour == SubDisable && Attempted(g, w, t, a).1 != Committed
    ensures var ((v, e), n) := (Attempted(g, w, t, a), |t.changes|);
      var disabled := w.db.(enabled := w.db.enabled && e != Disables,
                            blanks := w.db.blanks + if e == Disables then 1 else 0);
      if !TriesOn(w, t, a) then v.db == w.db && e != Disables
      else if !LogsCommitted(t, a) then v.db == disabled
      else
        && e == (if a.lost then Exits else Disables)
        && v.db == disabled.(logged := w.db.logged + Noted(g, Found(t, a, n)),
                             blanks := disabled.blanks + NotedCount(g, Lacking(a, n)),
                             origin := if !WritesSomething(g, true, t, a, n) then w.db.origin
                                       else Wal.Max(w.db.origin, t.commitLsn))
  {
    var n := |t.changes|;
    if !TriesOn(w, t, a) {
      PlainPass(g, t, a, n);
    } else {
      UnhinderedWalk(g, t, a, n);
      ReadOnlyPass(g, t, a, n);
      WroteExactlyWhen(g, true, t, a, n);
      assert w.db.applied + [] == w.db.applied;
    }
  }

  /** So a transaction whose first relation is missing, with the buffer running empty right after that
      change, never gets the subscription disabled: however often it is sent again, the disable is rolled
      back. */
  lemma {:induction false} MissingRelationNeverDisables(g: Settings, w: Worker, t: Txn, attempts: seq<Attempt>, i: nat)
    requires Delivers(t, attempts) && i < |attempts| && g.behaviour == SubDisable && t.changes != []
    requires forall k :: 0 <= k < |attempts| ==> attempts[k].deliveries[0] == Delivery(Missing, true)
    ensures var o := Run(g, w, t, attempts, i);
      o.ending in {Replays, Undone} && o.worker.db == w.db
    decreases |attempts| - i
  {
    var a := attempts[i];
    StoppedWalk(g, TriesOn(w, t, a), t, a, 1, |t.changes|);
    assert Walk(g, TriesOn(w, t, a), t, a, 0).flow == Going;
    var (v, e) := Attempted(g, w, t, a);
    assert e in {Replays, Undone} && v.db == w.db;
    if i + 1 < |attempts| {
      MissingRelationNeverDisables(g, v, t, attempts, i + 1);
    }
  }

  // ---------- when nothing fails ----------

  /** Every change would succeed and so would the commit. */
  ghost predicate Clean(t: Txn, a: Attempt) {
    && |t.changes| == |a.deliveries| && !a.commitFails
    && forall i :: 0 <= i < |a.deliveries| ==>
         a.deliveries[i].result.Succeeds? || (t.changes[i].syncing && a.deliveries[i].result.Fails?)
  }

  lemma {:induction false} CleanPass(g: Settings, tries: bool, t: Txn, a: Attempt, n: nat)
    requires Clean(t, a) && n <= |t.changes|
    ensures Walk(g, tries, t, a, n).flow == Going && !Walk(g, tries, t, a, n).had
  {
    if n == 0 {
    } else {
      CleanPass(g, tries, t, a, n - 1);
    }
  }

  lemma {:induction false} CleanSurvives(t: Txn, a: Attempt, n: nat)
    requires Clean(t, a) && n <= |t.changes|
    ensures Survivors(t, a, n) == Live(t, n) == Found(t, a, n) && Lacking(a, n) == 0
  {
    if n == 0 {
    } else {
      CleanSurvives(t, a, n - 1);
    }
  }

  /** A delivery on which nothing fails applies the whole transaction exactly when BEGIN does not enter try
      mode, or the mode is DISCARD, or there is nothing to apply. */
  lemma {:induction false} CleanAttemptAppliesAllExactlyWhen(g: Settings, w: Worker, t: Txn, a: Attempt)
    requires Clean(t, a)
    ensures var n := |t.changes|;
      Attempted(g, w, t, a).0.db.applied == w.db.applied + Live(t, n)
      <==> !TriesOn(w, t, a) || g.behaviour == Discard || Live(t, n) == []
  {
    var n := |t.changes|;
    AttemptOutcome(g, w, t, a);
    CleanPass(g, TriesOn(w, t, a), t, a, n);
    CleanSurvives(t, a, n);
    assert |w.db.applied + Live(t, n)| == |w.db.applied| + |Live(t, n)|;
    if TriesOn(w, t, a) && g.behaviour != Discard {
      ReadOnlyPass(g, t, a, n);
      assert w.db.applied + [] == w.db.applied;
    }
  }

  /** Any error on a plain pass makes the next attempt a try-mode one, a lost connection included, unless
      the server is restarted in between. */
  lemma {:induction false} PlainFailureLeadsToTryMode(g: Settings, w: Worker, t: Txn, a: Attempt, next: Attempt)
    requires |t.changes| == |a.deliveries| && !TriesOn(w, t, a)
    ensures var (v, e) := Attempted(g, w, t, a); e == Committed || (TriesOn(v, t, next) <==> !next.rebooted)
  {
    PlainPass(g, t, a, |t.changes|);
  }

  lemma {:induction false} DiscardedWrites(g: Settings, t: Txn, a: Attempt, n: nat)
    requires g.behaviour != Discard && Clean(t, a) && n <= |t.changes|
    ensures WritesSomething(g, true, t, a, n) <==> g.logging != LogNone && Live(t, n) != []
  {
    if n == 0 {
    } else {
      DiscardedWrites(g, t, a, n - 1);
      assert WritesSomething(g, true, t, a, n) <==>
        WritesSomething(g, true, t, a, n - 1) || Writes(g, true, t.changes[n - 1], a.deliveries[n - 1].result);
    }
  }

  /** So a plain pass that exits makes TRANSDISCARD drop the transaction when it is sent again, although
      nothing fails on that delivery.  It moves past the transaction exactly when logging is on and there
      was something to apply; otherwise the origin stays where it was. */
  lemma {:induction false} LostConnectionDiscardsTransaction(g: Settings, w: Worker, t: Txn, a: Attempt, next: Attempt)
    requires g.behaviour == TransDiscard && |t.changes| == |a.deliveries| && !TriesOn(w, t, a)
    requires Attempted(g, w, t, a).1 == Exits && Clean(t, next) && !next.rebooted
    ensures var o := Run(g, w, t, [a, next], 0);
      && o.ending == Committed && o.worker.db.applied == w.db.applied
      && o.worker.db.origin == if g.logging != LogNone && Live(t, |t.changes|) != [] then Wal.Max(w.db.origin, t.endLsn)
                               else w.db.origin
  {
    var v := Attempted(g, w, t, a).0;
    PlainFailureLeadsToTryMode(g, w, t, a, next);
    AttemptOutcome(g, w, t, a);
    AttemptOutcome(g, v, t, next);
    CleanPass(g, true, t, next, |t.changes|);
    DiscardedWrites(g, t, next, |t.changes|);
    assert w.db.applied + [] == w.db.applied;
    var attempts := [a, next];
    assert attempts[1] == next && Run(g, v, t, attempts, 1).worker == Attempted(g, v, t, next).0;
  }

  ghost predicate AllGoThrough(t: Txn, a: Attempt, n: nat)
    requires n <= |t.changes| == |a.deliveries|
  {
    forall i :: 0 <= i < n ==> GoesThrough(t.changes[i], a.deliveries[i].result)
  }

  /** All changes before the `k`-th go through, and there the connection is lost. */
  ghost predicate LostAt(t: Txn, a: Attempt, k: nat)
    requires k < |t.changes| == |a.deliveries|
  {
    AllGoThrough(t, a, k) && a.deliveries[k].result.Breaks? && a.deliveries[k].result.lost
  }

  lemma {:induction false} PlainWalkStops(g: Settings, t: Txn, a: Attempt, n: nat)
    requires n <= |t.changes| == |a.deliveries|
    ensures var p := Walk(g, false, t, a, n);
      && (p.flow == Going <==> AllGoThrough(t, a, n))
      && (p.flow == Raised(true) <==> exists k :: 0 <= k < n && LostAt(t, a, k))
  {
    if n == 0 {
    } else {
      PlainWalkStops(g, t, a, n - 1);
      PlainPass(g, t, a, n - 1);
      var p := Walk(g, false, t, a, n - 1);
      if p.flow == Going {
        PlainStep(g, p, t.changes[n - 1], a.deliveries[n - 1]);
      }
      assert AllGoThrough(t, a, n) <==>
        AllGoThrough(t, a, n - 1) && GoesThrough(t.changes[n - 1], a.deliveries[n - 1].result);
      assert (exists k :: 0 <= k < n && LostAt(t, a, k)) <==>
        (exists k :: 0 <= k < n - 1 && LostAt(t, a, k)) || LostAt(t, a, n - 1);
    }
  }

  /** A plain pass exits exactly when the first change that does not go through breaks on a lost connection,
      or all go through and the commit fails with the connection down. */
  lemma {:induction false} PlainPassExitsExactlyWhen(g: Settings, w: Worker, t: Txn, a: Attempt)
    requires |t.changes| == |a.deliveries| && !TriesOn(w, t, a)
    ensures var n := |t.changes|;
      Attempted(g, w, t, a).1 == Exits <==>
        || (exists k :: 0 <= k < n && LostAt(t, a, k))
        || (t.changes != [] && AllGoThrough(t, a, n) && a.commitFails && a.lost)
  {
    PlainWalkStops(g, t, a, |t.changes|);
    PlainPass(g, t, a, |t.changes|);
    WroteExactlyWhen(g, false, t, a, |t.changes|);
  }

  // ---------- a record of the spill file cut short ----------

  /** The first `k` changes are replayed and then the replay queue raises an error. */
  ghost predicate TornAt(t: Txn, a: Attempt, k: nat) {
    && k < |t.changes| == |a.deliveries|
    && (forall i :: 0 <= i < k ==> !a.deliveries[i].result.Breaks?)
    && a.deliveries[k].result.Breaks? && !a.deliveries[k].result.lost
  }

  /** A change that sets the exception flag of a try-mode pass. */
  predicate Trips(b: Behaviour, c: Change, r: Result) {
    r.Missing? || (b == Discard && Fallen(c, r))
  }

  ghost predicate TripsBefore(b: Behaviour, t: Txn, a: Attempt, n: nat)
    requires n <= |t.changes| == |a.deliveries|
  {
    exists i :: 0 <= i < n && Trips(b, t.changes[i], a.deliveries[i].result)
  }

  lemma {:induction false} TornWalk(g: Settings, t: Txn, a: Attempt, k: nat, n: nat)
    requires TornAt(t, a, k) && n <= k && g.behaviour != SubDisable
    ensures var p := Walk(g, true, t, a, n);
      p.flow == Going && (p.had <==> TripsBefore(g.behaviour, t, a, n))
  {
    if n == 0 {
    } else {
      TornWalk(g, t, a, k, n - 1);
    }
  }

  /** A replay that meets a torn record leads to an exit, and so to a clean restart, exactly when no change
      before the record has set the exception flag; otherwise the same queue is replayed again. */
  lemma {:induction false} TornRecordExitsExactlyWhen(g: Settings, w: Worker, t: Txn, a: Attempt, k: nat)
    requires TornAt(t, a, k) && TriesOn(w, t, a) && g.behaviour != SubDisable
    ensures var (v, e) := Attempted(g, w, t, a);
      && v.db == w.db && e == if TripsBefore(g.behaviour, t, a, k) then Replays else Exits
  {
    TornWalk(g, t, a, k, k);
    StoppedWalk(g, true, t, a, k + 1, |t.changes|);
  }

  /** On a plain pass the error itself starts the first replay. */
  lemma {:induction false} TornRecordStartsReplay(g: Settings, w: Worker, t: Txn, a: Attempt, k: nat)
    requires TornAt(t, a, k) && !TriesOn(w, t, a)
    ensures var (v, e) := Attempted(g, w, t, a); v.db == w.db && e == Replays
  {
    PlainWalkStops(g, t, a, |t.changes|);
    PlainPass(g, t, a, |t.changes|);
    assert !GoesThrough(t.changes[k], a.deliveries[k].result);
  }

  /** So with a change that trips on every replay the worker replays without end. */
  lemma {:induction false} TornRecordReplaysForever(g: Settings, w: Worker, t: Txn, attempts: seq<Attempt>, i: nat,
                                                    k: nat)
    requires Delivers(t, attempts) && i < |attempts| && g.behaviour != SubDisable
    requires forall j :: 0 <= j < |attempts| ==>
      TornAt(t, attempts[j], k) && TripsBefore(g.behaviour, t, attempts[j], k)
    ensures var o := Run(g, w, t, attempts, i); o.ending == Replays && o.worker.db == w.db
    decreases |attempts| - i
  {
    var a := attempts[i];
    if TriesOn(w, t, a) {
      TornRecordExitsExactlyWhen(g, w, t, a, k);
    } else {
      TornRecordStartsReplay(g, w, t, a, k);
    }
    if i + 1 < |attempts| {
      TornRecordReplaysForever(g, Attempted(g, w, t, a).0, t, attempts, i + 1, k);
    }
  }

  // ---------- the worker ----------

  class ApplyWorker {
    const settings: Settings
    // committed
    var applied: seq<int>
    var logged: seq<int>
    var blanks: nat
    var origin: nat
    var enabled: bool
    // shared memory
    var slot: Slot
    var useTry: bool
    // this process
    var firstBegin: bool
    var xactHadException: bool
    var sessionLsn: nat
    // the open local transaction
    var open: bool
    var rows: seq<int>
    var log: seq<int>
    var newBlanks: nat
    var hasXid: bool

    ghost function State(): Worker
      reads this
    {
      Worker(Database(applied, logged, blanks, origin, enabled), slot, useTry, firstBegin)
    }

    ghost function Current(flow: Flow): Pass
      reads this
    {
      Pass(rows, log, newBlanks, xactHadException, open, hasXid, flow)
    }

    /** No local transaction is open. */
    ghost predicate Idle()
      reads this
    {
      !open && rows == [] && log == [] && newBlanks == 0 && !hasXid
    }

    constructor (settings: Settings, db: Database, slot: Slot)
      ensures this.settings == settings && State() == Worker(db, slot, false, true)
      ensures Idle()
    {
      this.settings, this.slot := settings, slot;
      applied, logged, blanks, origin, enabled := db.applied, db.logged, db.blanks, db.origin, db.enabled;
      useTry, firstBegin, xactHadException, sessionLsn := false, true, false, 0;
      open, rows, log, newBlanks, hasXid := false, [], [], 0, false;
    }

    /** The local transaction is over, committed or not. */
    method EndTransaction()
      modifies this`open, this`rows, this`log, this`newBlanks, this`hasXid
      ensures Idle()
    {
      open, rows, log, newBlanks, hasXid := false, [], [], 0, false;
    }

    method HandleBegin(lsn: nat)
      requires Idle()
      modifies this`slot, this`useTry, this`firstBegin, this`xactHadException, this`sessionLsn
      ensures useTry == Tries(old(State()), lsn) && slot == Slot(lsn) && !firstBegin && sessionLsn == lsn
      ensures Current(Going) == NEW_PASS
    {
      xactHadException := false;
      sessionLsn := lsn;
      if firstBegin {
        firstBegin := false;
        if slot == NoSlot {
          useTry := false;
        } else if slot.lsn == lsn {
          useTry := true;
        }
      }
      slot := Slot(lsn);
    }

    /** `log_insert_exception`. */
    method LogException(failed: bool, missing: bool, c: Change)
      modifies this`log, this`newBlanks, this`hasXid
      ensures Current(Going) == Note(settings, failed, missing, old(Current(Going)), c)
    {
      if settings.logging != LogNone {
        var b := settings.behaviour;
        if failed || settings.logging == LogAll || b == TransDiscard || b == SubDisable {
          if missing {
            newBlanks := newBlanks + 1;
          } else {
            log := log + [c.id];
          }
          hasXid := true;
        }
      }
    }

    /** Handles one row change, and the check made when the receive buffer runs empty. */
    method HandleRow(c: Change, d: Delivery) returns (flow: Flow)
      modifies this`xactHadException, this`open, this`rows, this`log, this`newBlanks, this`hasXid
      ensures Current(flow) == HandleChange(settings, useTry, old(Current(Going)), c, d)
    {
      if d.result.Breaks? {
        open := open || d.result.begun;
        return Raised(d.result.lost);
      }
      open := true;
      if d.result == Missing {
        if !useTry {
          return Raised(false);
        }
        xactHadException := true;
        LogException(true, true, c);
      } else if !c.syncing {
        if useTry && settings.behaviour != Discard {
          LogException(false, false, c);
        } else if d.result.Succeeds? {
          rows, hasXid := rows + [c.id], hasXid || d.result.xid;
        } else if useTry {
          xactHadException, hasXid := true, hasXid || d.result.xid;
          LogException(true, false, c);
        } else {
          return Raised(false);
        }
      }
      flow := if d.batchEnds && xactHadException && settings.behaviour == SubDisable then Halted else Going;
    }

    method CommitMessage(t: Txn, a: Attempt) returns (flow: Flow)
      requires sessionLsn == t.commitLsn && !firstBegin
      modifies this`applied, this`logged, this`blanks, this`origin, this`slot, this`sessionLsn
      modifies this`open, this`rows, this`log, this`newBlanks, this`hasXid
      ensures (State(), flow) == HandleCommit(settings.behaviour, useTry, old(State()), t, a, old(Current(Going)))
      ensures flow.Raised? ==> open == a.commitFails
    {
      if !open {
        origin := Wal.Max(origin, t.endLsn);
        return Going;
      }
      var b := settings.behaviour;
      if (!xactHadException && !(useTry && b == SubDisable)) || b == Discard || b == TransDiscard {
        sessionLsn := t.endLsn;
      }
      if !xactHadException && useTry && (b == TransDiscard || b == SubDisable) {
        slot := Slot(0);
      }
      if a.commitFails {
        return Raised(a.lost);
      }
      CommitLocally();
      if b == SubDisable && (xactHadException || useTry) {
        slot := Slot(0);
        return Raised(a.lost);
      }
      flow := Going;
    }

    /** `CommitTransactionCommand`: the origin is recorded with the commit record, which only a transaction
        with an id writes. */
    method CommitLocally()
      modifies this`applied, this`logged, this`blanks, this`origin
      modifies this`open, this`rows, this`log, this`newBlanks, this`hasXid
      ensures applied == old(applied) + old(rows) && logged == old(logged) + old(log)
      ensures blanks == old(blanks) + old(newBlanks) && Idle()
      ensures origin == if old(hasXid) then Wal.Max(old(origin), sessionLsn) else old(origin)
    {
      applied, logged, blanks := applied + rows, logged + log, blanks + newBlanks;
      if hasXid {
        origin := Wal.Max(origin, sessionLsn);
      }
      EndTransaction();
    }

    /** `spock_disable_subscription` and the exit that follows it: inside the open transaction the change
        is rolled back with it. */
    method DisableSubscription() returns (e: Ending)
      modifies this`enabled, this`blanks
      ensures e == Disabling(open) && enabled == (old(enabled) && e != Disables)
      ensures blanks == old(blanks) + if e == Disables then 1 else 0
    {
      e := Undone;
      if !open {
        enabled, blanks := false, blanks + 1;
        e := Disables;
      }
    }

    /** The error handler, and what happens to the process after it. */
    method CatchError(flow: Flow) returns (e: Ending)
      requires flow != Going
      modifies this`enabled, this`blanks, this`useTry, this`firstBegin
      modifies this`open, this`rows, this`log, this`newBlanks, this`hasXid
      ensures e == if flow == Halted then Disabling(old(open))
                   else Catch(settings.behaviour, old(useTry), xactHadException, old(open), flow.lost)
      ensures State() == Left(old(State()), e) && Idle()
    {
      if flow == Halted {
        e := DisableSubscription();
      } else if flow.lost {
        e := Exits;
      } else if settings.behaviour == SubDisable && (xactHadException || useTry) {
        e := DisableSubscription();
      } else if !xactHadException && useTry {
        e := Exits;
      } else {
        e := Replays;
      }
      EndTransaction();
      firstBegin, useTry := true, e == Replays;
    }

    /** One delivery of the transaction. */
    method ApplyOnce(t: Txn, a: Attempt) returns (tried: bool, e: Ending)
      requires |t.changes| == |a.deliveries| && Idle()
      modifies this
      ensures (State(), e) == Attempted(settings, old(State()), t, a) && tried == TriesOn(old(State()), t, a)
      ensures Idle()
    {
      if a.rebooted {
        slot, useTry, firstBegin := NoSlot, false, true;
      }
      HandleBegin(t.commitLsn);
      tried := useTry;
      var flow := HandleRows(t, a);
      e := FinishTxn(t, a, flow);
    }

    method FinishTxn(t: Txn, a: Attempt, walked: Flow) returns (e: Ending)
      requires sessionLsn == t.commitLsn && !firstBegin
      modifies this
      ensures (State(), e) == Finished(settings.behaviour, old(useTry), old(State()), t, a, old(Current(walked)))
      ensures Idle()
    {
      var flow := walked;
      if flow == Going {
        flow := CommitMessage(t, a);
        if flow == Going {
          EndTransaction();
          useTry := false;
          return Committed;
        }
      }
      e := CatchError(flow);
    }

    method HandleRows(t: Txn, a: Attempt) returns (flow: Flow)
      requires |t.changes| == |a.deliveries| && Current(Going) == NEW_PASS
      modifies this`xactHadException, this`open, this`rows, this`log, this`newBlanks, this`hasXid
      ensures Current(flow) == Walk(settings, useTry, t, a, |t.changes|)
    {
      flow := Going;
      var n := 0;
      while n < |t.changes| && flow == Going
        modifies this`xactHadException, this`open, this`rows, this`log, this`newBlanks, this`hasXid
        invariant n <= |t.changes|
        invariant Current(flow) == Walk(settings, useTry, t, a, n)
      {
        flow := HandleRow(t.changes[n], a.deliveries[n]);
        n := n + 1;
      }
      StoppedWalk(settings, useTry, t, a, n, |t.changes|);
    }

    /** The transaction is delivered until it commits or the subscription is disabled. */
    method Apply(t: Txn, attempts: seq<Attempt>) returns (e: Ending, made: nat, tried: bool)
      requires Delivers(t, attempts) && attempts != [] && Idle()
      modifies this
      ensures Outcome(State(), e, made, tried) == Run(settings, old(State()), t, attempts, 0) && Idle()
    {
      made, tried, e := 0, false, Exits;
      ghost var goal := Run(settings, State(), t, attempts, 0);
      var more := true;
      while more
        invariant made < |attempts| && Idle()
        invariant goal == if more then Run(settings, State(), t, attempts, made) else Outcome(State(), e, made, tried)
        decreases |attempts| - made, more
      {
        tried, e := ApplyOnce(t, attempts[made]);
        more := e != Committed && e != Disables && made + 1 < |attempts|;
        if more {
          made := made + 1;
        }
      }
    }

    /** A new process for the subscription, enabled again if it was disabled. */
    method Restart()
      requires Idle()
      modifies this`enabled, this`useTry, this`firstBegin
      ensures State() == Resumed(old(State()), true) && Idle()
    {
      enabled, useTry, firstBegin := true, false, true;
    }
  }
}
