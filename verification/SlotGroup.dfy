/** The parallel slot-group protocol.

    Several walsenders of one slot group decode the same WAL.  At BEGIN each transaction is claimed
    under the group lock by whichever member gets there first and is shipped with the commit
    timestamp of its predecessor.  Every member feeds one apply worker; a worker may commit only when
    the predecessor's timestamp is the one last published in the shared progress entry.

    The claim is the object-level code of `pg_decode_begin_txn`; the protocol is a state machine over
    claims, message deliveries, local commits and publications in any interleaving. */
module SlotGroup {
  import opened Wal
  import Progress

  // ---------- claiming a transaction ----------

  datatype Group = Group(lastLsn: nat, lastCommitTs: int)

  datatype Claim = Claim(group: Group, saved: int, skip: bool)

  /** The effect of BEGIN on the shared group and on the member's saved predecessor timestamp. */
  function BeginTxn(g: Group, saved: int, txn: Txn): Claim {
    var newer := g.lastCommitTs < txn.commitTs;
    var saved' := if newer then g.lastCommitTs else saved;
    var ts' := if newer then txn.commitTs else g.lastCommitTs;
    if txn.endLsn <= g.lastLsn then Claim(Group(g.lastLsn, ts'), saved', true)
    else Claim(Group(txn.endLsn, ts'), saved', false)
  }

  class SharedGroup {
    var lastLsn: nat
    var lastCommitTs: int

    constructor ()
      ensures lastLsn == 0 && lastCommitTs == 0
    {
      lastLsn, lastCommitTs := 0, 0;
    }

    ghost function Value(): Group
      reads this
    {
      Group(lastLsn, lastCommitTs)
    }
  }

  /** One walsender's output plugin session. */
  class OutputPlugin {
    const slotGroup: SharedGroup
    var slotGroupLastCommitTs: int
    var slotGroupSkipXact: bool

    constructor (slotGroup: SharedGroup)
      ensures this.slotGroup == slotGroup && slotGroupLastCommitTs == 0 && !slotGroupSkipXact
    {
      this.slotGroup := slotGroup;
      slotGroupLastCommitTs, slotGroupSkipXact := 0, false;
    }

    /** Runs under the group lock. */
    method DecodeBegin(txn: Txn)
      requires !slotGroupSkipXact
      modifies this, slotGroup
      ensures BeginTxn(old(slotGroup.Value()), old(slotGroupLastCommitTs), txn)
           == Claim(slotGroup.Value(), slotGroupLastCommitTs, slotGroupSkipXact)
    {
      if slotGroup.lastCommitTs < txn.commitTs {
        slotGroupLastCommitTs := slotGroup.lastCommitTs;
        slotGroup.lastCommitTs := txn.commitTs;
      }
      if slotGroup.lastLsn >= txn.endLsn {
        slotGroupSkipXact := true;
        return;
      }
      slotGroup.lastLsn := txn.endLsn;
    }

    method DecodeCommit() returns (sent: bool)
      modifies this
      ensures sent == !old(slotGroupSkipXact)
      ensures !slotGroupSkipXact && slotGroupLastCommitTs == old(slotGroupLastCommitTs)
    {
      sent := !slotGroupSkipXact;
      slotGroupSkipXact := false;
    }
  }

  // ---------- the protocol ----------

  /** A transaction in a member's stream: its WAL index and the COMMIT ORDER timestamp. */
  datatype Shipped = Shipped(index: nat, required: int)

  datatype Phase = Idle | Applying(current: Shipped) | Unpublished(index: nat)

  datatype Worker = Worker(stream: seq<Shipped>, phase: Phase)

  datatype Sender = Sender(pos: nat, saved: int)

  datatype ClaimEvent = ClaimEvent(member: nat, index: nat)

  datatype State = State(
    group: Group, senders: seq<Sender>, workers: seq<Worker>, entry: Progress.Record,
    claims: seq<ClaimEvent>, committed: seq<nat>)

  datatype Step =
    | Decode(m: nat)
    | Receive(m: nat)
    | Commit(m: nat)
    | Publish(m: nat, now: int)
    | Stats(received: nat, inserted: nat)

  function Init(members: nat): State {
    State(Group(0, 0), seq(members, _ => Sender(0, 0)), seq(members, _ => Worker([], Idle)), Progress.UNSET, [], [])
  }

  /** The test of `wait_for_previous_transaction`. */
  predicate MayProceed(entry: Progress.Record, required: int) {
    entry.commit.prevRemoteTs == required || required == 0
  }

  predicate Enabled(wal: seq<Txn>, s: State, step: Step) {
    match step
    case Decode(m) => m < |s.senders| && m < |s.workers| && s.senders[m].pos < |wal|
    case Receive(m) => m < |s.workers| && s.workers[m].phase.Idle? && s.workers[m].stream != []
    case Commit(m) =>
      m < |s.workers| && s.workers[m].phase.Applying? && MayProceed(s.entry, s.workers[m].phase.current.required)
    case Publish(m, _) => m < |s.workers| && s.workers[m].phase.Unpublished? && s.workers[m].phase.index < |wal|
    case Stats(_, _) => true
  }

  function CommitUpdate(txn: Txn, entry: Progress.Record, now: int): Progress.Record {
    Progress.Record(
      Progress.CommitBlock(txn.commitTs, txn.commitTs, txn.endLsn, now, true), entry.remoteInsertLsn, txn.endLsn)
  }

  function Do(wal: seq<Txn>, s: State, step: Step): State
    requires Enabled(wal, s, step)
  {
    match step
    case Decode(m) =>
      var i := s.senders[m].pos;
      var c := BeginTxn(s.group, s.senders[m].saved, wal[i]);
      var w := s.workers[m];
      var s' := s.(group := c.group, senders := s.senders[m := Sender(i + 1, c.saved)]);
      if c.skip then s'
      else s'.(workers := s.workers[m := w.(stream := w.stream + [Shipped(i, c.saved)])],
               claims := s.claims + [ClaimEvent(m, i)])
    case Receive(m) =>
      var w := s.workers[m];
      s.(workers := s.workers[m := Worker(w.stream[1..], Applying(w.stream[0]))])
    case Commit(m) =>
      var i := s.workers[m].phase.current.index;
      s.(workers := s.workers[m := s.workers[m].(phase := Unpublished(i))], committed := s.committed + [i])
    case Publish(m, now) =>
      var update := CommitUpdate(wal[s.workers[m].phase.index], s.entry, now);
      s.(workers := s.workers[m := s.workers[m].(phase := Idle)], entry := Progress.Merge(s.entry, update))
    case Stats(received, inserted) =>
      s.(entry := Progress.Merge(s.entry, Progress.Record(Progress.UNSET_COMMIT, inserted, received)))
  }

  /** A schedule is any sequence of attempted steps; a step that is not enabled when its turn comes
      leaves the state as it is. */
  function After(wal: seq<Txn>, members: nat, steps: seq<Step>): State {
    if steps == [] then Init(members)
    else
      var s := After(wal, members, steps[..|steps| - 1]);
      var step := steps[|steps| - 1];
      if Enabled(wal, s, step) then Do(wal, s, step) else s
  }

  // ---------- the invariant ----------

  /** Commit timestamps are positive and strictly increase with LSN. */
  ghost predicate TimestampsOrdered(wal: seq<Txn>) {
    && (|wal| > 0 ==> 0 < wal[0].commitTs)
    && (forall i, j :: 0 <= i < j < |wal| ==> wal[i].commitTs < wal[j].commitTs)
  }

  function TsBefore(wal: seq<Txn>, i: nat): int {
    if 0 < i <= |wal| then wal[i - 1].commitTs else 0
  }

  /** What a worker still has to commit, in the order it will do so. */
  function Pending(w: Worker): seq<Shipped> {
    (if w.phase.Applying? then [w.phase.current] else []) + w.stream
  }

  ghost predicate InCommitOrder(committed: seq<nat>) {
    forall k :: 0 <= k < |committed| ==> committed[k] == k
  }

  ghost predicate ClaimsInv(wal: seq<Txn>, s: State) {
    var n := |s.claims|;
    && n <= |wal| && |s.senders| == |s.workers|
    && (forall k :: 0 <= k < n ==> s.claims[k].index == k && s.claims[k].member < |s.workers|)
    && s.group.lastLsn == (if n == 0 then 0 else wal[n - 1].endLsn)
    && (forall m :: 0 <= m < |s.senders| ==> s.senders[m].pos <= n)
    && (n == 0 ==> s.group.lastCommitTs == 0 && forall m :: 0 <= m < |s.senders| ==> s.senders[m].saved == 0)
  }

  /** Worker `m` holds, in claim order, only transactions it claimed and has not committed; `c` is the
      number of commits so far. */
  ghost predicate WorkerInv(claims: seq<ClaimEvent>, c: nat, w: Worker, m: nat) {
    var q := Pending(w);
    && (forall k :: 0 <= k < |q| ==> c <= q[k].index < |claims| && claims[q[k].index].member == m)
    && (forall k :: 0 <= k < |q| && q[k].index == 0 ==> q[k].required == 0)
    && (forall j, k :: 0 <= j < k < |q| ==> q[j].index < q[k].index)
    && (w.phase.Unpublished? ==> w.phase.index == c - 1 < |claims| && claims[c - 1].member == m)
  }

  ghost predicate Holds(w: Worker, i: nat) {
    exists k :: 0 <= k < |Pending(w)| && Pending(w)[k].index == i
  }

  /** Who has what: claims are made in WAL order, one per transaction, and every claimed transaction is
      either committed or waiting at the member that claimed it. */
  ghost predicate Inv(wal: seq<Txn>, s: State) {
    && ClaimsInv(wal, s)
    && InCommitOrder(s.committed) && |s.committed| <= |s.claims|
    && (forall m :: 0 <= m < |s.workers| ==> WorkerInv(s.claims, |s.committed|, s.workers[m], m))
    && (forall i :: |s.committed| <= i < |s.claims| ==> Holds(s.workers[s.claims[i].member], i))
  }

  /** How many commits have been published: all of them, or all but the newest. */
  ghost function PublishedCount(s: State): nat {
    var c := |s.committed|;
    if 0 < c <= |s.claims| && s.claims[c - 1].member < |s.workers| &&
       s.workers[s.claims[c - 1].member].phase == Unpublished(c - 1)
    then c - 1 else c
  }

  ghost predicate CarriesPredecessor(wal: seq<Txn>, w: Worker) {
    forall k :: 0 <= k < |Pending(w)| ==> Pending(w)[k].required == TsBefore(wal, Pending(w)[k].index)
  }

  /** What the timestamps say: the group and the progress entry show the newest claim and the newest
      published commit, and every shipped transaction carries its predecessor's timestamp. */
  ghost predicate TsInv(wal: seq<Txn>, s: State) {
    && s.group.lastCommitTs == TsBefore(wal, |s.claims|)
    && s.entry.commit.prevRemoteTs == s.entry.commit.remoteCommitTs == TsBefore(wal, PublishedCount(s))
    && (forall m :: 0 <= m < |s.workers| ==> CarriesPredecessor(wal, s.workers[m]))
  }

  ghost predicate Good(wal: seq<Txn>, s: State) {
    Inv(wal, s) && (|wal| > 1 ==> TsInv(wal, s))
  }

  /** A member that lags behind the group's last claim skips; one that is level with it claims. */
  lemma {:induction false} DecodeClaimsOnlyTheNext(wal: seq<Txn>, s: State, m: nat)
    requires WellFormed(wal) && (|wal| > 1 ==> TimestampsOrdered(wal))
    requires Good(wal, s) && Enabled(wal, s, Decode(m))
    ensures var i, n := s.senders[m].pos, |s.claims|;
      var c := BeginTxn(s.group, s.senders[m].saved, wal[i]);
      && i <= n && c.skip == (i < n) && (n == 0 ==> c.saved == 0)
      && (|wal| > 1 && c.skip ==> c.group == s.group)
      && (|wal| > 1 && !c.skip ==> c == Claim(Group(wal[n].endLsn, wal[n].commitTs), TsBefore(wal, n), false))
  {
    var i, n := s.senders[m].pos, |s.claims|;
    if i < n {
      assert wal[i].endLsn <= wal[n - 1].endLsn;
    } else if n > 0 {
      assert wal[n - 1].endLsn <= wal[n].commitLsn;
    }
  }

  lemma {:induction false} SkipKeepsInv(wal: seq<Txn>, s: State, m: nat)
    requires WellFormed(wal) && (|wal| > 1 ==> TimestampsOrdered(wal))
    requires Good(wal, s) && Enabled(wal, s, Decode(m)) && s.senders[m].pos < |s.claims|
    ensures Good(wal, Do(wal, s, Decode(m)))
  {
    DecodeClaimsOnlyTheNext(wal, s, m);
    var s' := Do(wal, s, Decode(m));
    assert s'.workers == s.workers && s'.claims == s.claims && s'.committed == s.committed && s'.entry == s.entry;
    assert ClaimsInv(wal, s');
  }

  lemma {:induction false} WorkerClaims(claims: seq<ClaimEvent>, c: nat, w: Worker, m: nat, x: Shipped)
    requires WorkerInv(claims, c, w, m) && c <= |claims| == x.index && (x.index == 0 ==> x.required == 0)
    ensures WorkerInv(claims + [ClaimEvent(m, x.index)], c, w.(stream := w.stream + [x]), m)
  {
    var w' := w.(stream := w.stream + [x]);
    assert Pending(w') == Pending(w) + [x];
  }

  lemma {:induction false} OthersClaim(claims: seq<ClaimEvent>, c: nat, w: Worker, m: nat, e: ClaimEvent)
    requires WorkerInv(claims, c, w, m)
    ensures WorkerInv(claims + [e], c, w, m)
  {
  }

  lemma {:induction false} WorkerCommits(claims: seq<ClaimEvent>, c: nat, w: Worker, m: nat)
    requires WorkerInv(claims, c, w, m) && w.phase.Applying? && w.phase.current.index == c
    ensures c < |claims| && claims[c].member == m
    ensures WorkerInv(claims, c + 1, w.(phase := Unpublished(c)), m)
    ensures Pending(w) == [w.phase.current] + Pending(w.(phase := Unpublished(c)))
  {
    var q, q' := Pending(w), Pending(w.(phase := Unpublished(c)));
    assert q == [w.phase.current] + q';
    assert q[0].index == c;
    forall k | 0 <= k < |q'| ensures q'[k] == q[k + 1] {
    }
  }

  lemma {:induction false} OthersCommit(claims: seq<ClaimEvent>, c: nat, w: Worker, m: nat)
    requires WorkerInv(claims, c, w, m) && !w.phase.Unpublished?
    requires c < |claims| && claims[c].member != m
    ensures WorkerInv(claims, c + 1, w, m)
  {
  }

  lemma {:induction false} HoldsMore(w: Worker, w': Worker, i: nat)
    requires Holds(w, i) && Pending(w) <= Pending(w')
    ensures Holds(w', i)
  {
    var k :| 0 <= k < |Pending(w)| && Pending(w)[k].index == i;
    assert Pending(w')[k].index == i;
  }

  lemma {:induction false} HoldsAfterHead(w: Worker, w': Worker, i: nat)
    requires Holds(w, i) && Pending(w) != [] && Pending(w)[0].index != i && Pending(w') == Pending(w)[1..]
    ensures Holds(w', i)
  {
    var k :| 0 <= k < |Pending(w)| && Pending(w)[k].index == i;
    assert Pending(w')[k - 1].index == i;
  }

  lemma {:induction false} ClaimKeepsHeld(wal: seq<Txn>, s: State, m: nat, x: Shipped, j: nat)
    requires Inv(wal, s) && m < |s.workers| && x.index == |s.claims|
    requires |s.committed| <= j <= |s.claims|
    ensures var ws := s.workers[m := s.workers[m].(stream := s.workers[m].stream + [x])];
      Holds(ws[if j < |s.claims| then s.claims[j].member else m], j)
  {
    var w, w' := s.workers[m], s.workers[m].(stream := s.workers[m].stream + [x]);
    assert Pending(w') == Pending(w) + [x];
    if j < |s.claims| {
      assert Holds(s.workers[s.claims[j].member], j);
      if s.claims[j].member == m {
        HoldsMore(w, w', j);
      }
    } else {
      assert Pending(w')[|Pending(w)|].index == j;
    }
  }

  lemma {:induction false} ClaimKeepsInv(wal: seq<Txn>, s: State, m: nat)
    requires WellFormed(wal) && (|wal| > 1 ==> TimestampsOrdered(wal))
    requires Good(wal, s) && Enabled(wal, s, Decode(m)) && s.senders[m].pos == |s.claims|
    ensures Inv(wal, Do(wal, s, Decode(m)))
  {
    DecodeClaimsOnlyTheNext(wal, s, m);
    var s' := Do(wal, s, Decode(m));
    var n, w := |s.claims|, s.workers[m];
    var x := Shipped(n, s'.senders[m].saved);
    assert s'.claims == s.claims + [ClaimEvent(m, n)];
    assert s'.workers == s.workers[m := w.(stream := w.stream + [x])];
    forall u | 0 <= u < |s'.workers| ensures WorkerInv(s'.claims, |s'.committed|, s'.workers[u], u) {
      assert WorkerInv(s.claims, |s.committed|, s.workers[u], u);
      if u == m {
        WorkerClaims(s.claims, |s.committed|, w, m, x);
      } else {
        OthersClaim(s.claims, |s.committed|, s.workers[u], u, ClaimEvent(m, n));
      }
    }
    forall j | |s'.committed| <= j < |s'.claims| ensures Holds(s'.workers[s'.claims[j].member], j) {
      ClaimKeepsHeld(wal, s, m, x, j);
    }
  }

  lemma {:induction false} ClaimKeepsTs(wal: seq<Txn>, s: State, m: nat)
    requires WellFormed(wal) && TimestampsOrdered(wal) && |wal| > 1
    requires Good(wal, s) && Enabled(wal, s, Decode(m)) && s.senders[m].pos == |s.claims|
    ensures TsInv(wal, Do(wal, s, Decode(m)))
  {
    DecodeClaimsOnlyTheNext(wal, s, m);
    var s' := Do(wal, s, Decode(m));
    assert CarriesPredecessor(wal, s.workers[m]);
    assert Pending(s'.workers[m]) == Pending(s.workers[m]) + [Shipped(|s.claims|, TsBefore(wal, |s.claims|))];
    assert CarriesPredecessor(wal, s'.workers[m]);
    assert PublishedCount(s') == PublishedCount(s);
  }

  /** Receiving and publishing move nothing between workers. */
  lemma {:induction false} SamePendingKeepsInv(wal: seq<Txn>, s: State, s': State)
    requires Inv(wal, s)
    requires s'.group == s.group && s'.senders == s.senders && s'.claims == s.claims && s'.committed == s.committed
    requires |s'.workers| == |s.workers|
    requires forall m :: 0 <= m < |s.workers| ==>
      Pending(s'.workers[m]) == Pending(s.workers[m]) &&
      (s'.workers[m].phase.Unpublished? ==> s'.workers[m].phase == s.workers[m].phase)
    ensures Inv(wal, s')
  {
    forall m | 0 <= m < |s'.workers| ensures WorkerInv(s'.claims, |s'.committed|, s'.workers[m], m) {
      assert WorkerInv(s.claims, |s.committed|, s.workers[m], m);
    }
    forall j | |s'.committed| <= j < |s'.claims| ensures Holds(s'.workers[s'.claims[j].member], j) {
      HoldsMore(s.workers[s.claims[j].member], s'.workers[s'.claims[j].member], j);
    }
  }

  lemma {:induction false} ReceiveKeepsInv(wal: seq<Txn>, s: State, m: nat)
    requires Good(wal, s) && Enabled(wal, s, Receive(m))
    ensures Inv(wal, Do(wal, s, Receive(m)))
  {
    assert Pending(Do(wal, s, Receive(m)).workers[m]) == Pending(s.workers[m]);
    SamePendingKeepsInv(wal, s, Do(wal, s, Receive(m)));
  }

  lemma {:induction false} ReceiveKeepsTs(wal: seq<Txn>, s: State, m: nat)
    requires TsInv(wal, s) && Enabled(wal, s, Receive(m))
    ensures TsInv(wal, Do(wal, s, Receive(m)))
  {
    var s' := Do(wal, s, Receive(m));
    assert CarriesPredecessor(wal, s'.workers[m]) by {
      assert CarriesPredecessor(wal, s.workers[m]) && Pending(s'.workers[m]) == Pending(s.workers[m]);
    }
    assert PublishedCount(s') == PublishedCount(s);
  }

  /** The safety core: a worker that passes the wait holds exactly the next transaction in order, and
      nothing is left unpublished. */
  lemma {:induction false} OnlyTheNextMayProceed(wal: seq<Txn>, s: State, m: nat)
    requires |wal| > 1 ==> TimestampsOrdered(wal)
    requires Good(wal, s) && Enabled(wal, s, Commit(m))
    ensures s.workers[m].phase.current.index == |s.committed| == PublishedCount(s)
  {
    var x := s.workers[m].phase.current;
    assert Pending(s.workers[m])[0] == x;
    assert WorkerInv(s.claims, |s.committed|, s.workers[m], m);
    if x.index > 0 {
      assert CarriesPredecessor(wal, s.workers[m]);
      assert x.required == TsBefore(wal, x.index) > 0;
      assert TsBefore(wal, PublishedCount(s)) == TsBefore(wal, x.index);
    }
  }

  lemma {:induction false} CommitKeepsWorkers(wal: seq<Txn>, s: State, m: nat, u: nat)
    requires |wal| > 1 ==> TimestampsOrdered(wal)
    requires Good(wal, s) && Enabled(wal, s, Commit(m)) && u < |s.workers|
    ensures WorkerInv(s.claims, |s.committed| + 1, Do(wal, s, Commit(m)).workers[u], u)
  {
    OnlyTheNextMayProceed(wal, s, m);
    var c := |s.committed|;
    assert WorkerInv(s.claims, |s.committed|, s.workers[m], m);
    WorkerCommits(s.claims, c, s.workers[m], m);
    if u != m {
      assert WorkerInv(s.claims, |s.committed|, s.workers[u], u);
      OthersCommit(s.claims, c, s.workers[u], u);
    }
  }

  lemma {:induction false} CommitKeepsHeld(wal: seq<Txn>, s: State, m: nat, j: nat)
    requires |wal| > 1 ==> TimestampsOrdered(wal)
    requires Good(wal, s) && Enabled(wal, s, Commit(m)) && |s.committed| + 1 <= j < |s.claims|
    ensures Holds(Do(wal, s, Commit(m)).workers[s.claims[j].member], j)
  {
    OnlyTheNextMayProceed(wal, s, m);
    var w := s.workers[m];
    assert Holds(s.workers[s.claims[j].member], j);
    if s.claims[j].member == m {
      var w' := Do(wal, s, Commit(m)).workers[m];
      assert Pending(w) == [w.phase.current] + Pending(w');
      assert Pending(w') == Pending(w)[1..];
      HoldsAfterHead(w, w', j);
    }
  }

  lemma {:induction false} CommitKeepsInv(wal: seq<Txn>, s: State, m: nat)
    requires |wal| > 1 ==> TimestampsOrdered(wal)
    requires Good(wal, s) && Enabled(wal, s, Commit(m))
    ensures Inv(wal, Do(wal, s, Commit(m)))
  {
    var s' := Do(wal, s, Commit(m));
    OnlyTheNextMayProceed(wal, s, m);
    WorkerCommits(s.claims, |s.committed|, s.workers[m], m);
    assert InCommitOrder(s'.committed);
    forall u | 0 <= u < |s'.workers| ensures WorkerInv(s'.claims, |s'.committed|, s'.workers[u], u) {
      CommitKeepsWorkers(wal, s, m, u);
    }
    forall j | |s'.committed| <= j < |s'.claims| ensures Holds(s'.workers[s'.claims[j].member], j) {
      CommitKeepsHeld(wal, s, m, j);
    }
  }

  lemma {:induction false} CarriesAfterHead(wal: seq<Txn>, w: Worker, w': Worker)
    requires CarriesPredecessor(wal, w) && Pending(w) != [] && Pending(w') == Pending(w)[1..]
    ensures CarriesPredecessor(wal, w')
  {
    forall k | 0 <= k < |Pending(w')|
      ensures Pending(w')[k].required == TsBefore(wal, Pending(w')[k].index)
    {
      assert Pending(w')[k] == Pending(w)[k + 1];
    }
  }

  lemma {:induction false} CommitKeepsTs(wal: seq<Txn>, s: State, m: nat)
    requires TsInv(wal, s) && Enabled(wal, s, Commit(m))
    requires s.workers[m].phase.current.index == |s.committed| == PublishedCount(s)
    requires |s.committed| < |s.claims| && s.claims[|s.committed|].member == m
    ensures TsInv(wal, Do(wal, s, Commit(m)))
  {
    var s' := Do(wal, s, Commit(m));
    var w := s.workers[m];
    assert PublishedCount(s') == |s.committed|;
    assert CarriesPredecessor(wal, s'.workers[m]) by {
      assert Pending(w) == [w.phase.current] + Pending(s'.workers[m]);
      assert CarriesPredecessor(wal, w);
      CarriesAfterHead(wal, w, s'.workers[m]);
    }
  }

  lemma {:induction false} PublishKeepsInv(wal: seq<Txn>, s: State, m: nat, now: int)
    requires Good(wal, s) && Enabled(wal, s, Publish(m, now))
    ensures Inv(wal, Do(wal, s, Publish(m, now)))
  {
    assert Pending(Do(wal, s, Publish(m, now)).workers[m]) == Pending(s.workers[m]);
    SamePendingKeepsInv(wal, s, Do(wal, s, Publish(m, now)));
  }

  lemma {:induction false} PublishKeepsTs(wal: seq<Txn>, s: State, m: nat, now: int)
    requires TimestampsOrdered(wal) && TsInv(wal, s) && Enabled(wal, s, Publish(m, now))
    requires WorkerInv(s.claims, |s.committed|, s.workers[m], m)
    ensures TsInv(wal, Do(wal, s, Publish(m, now)))
  {
    var s' := Do(wal, s, Publish(m, now));
    var c := |s.committed|;
    assert PublishedCount(s) == c - 1 && PublishedCount(s') == c;
    assert TsBefore(wal, c - 1) < wal[c - 1].commitTs;
    assert CarriesPredecessor(wal, s'.workers[m]) by {
      assert CarriesPredecessor(wal, s.workers[m]) && Pending(s'.workers[m]) == Pending(s.workers[m]);
    }
  }

  lemma {:induction false} StepKeepsInv(wal: seq<Txn>, s: State, step: Step)
    requires WellFormed(wal) && (|wal| > 1 ==> TimestampsOrdered(wal))
    requires Good(wal, s) && Enabled(wal, s, step)
    ensures Good(wal, Do(wal, s, step))
  {
    match step
    case Decode(m) =>
      DecodeClaimsOnlyTheNext(wal, s, m);
      if s.senders[m].pos < |s.claims| {
        SkipKeepsInv(wal, s, m);
      } else {
        ClaimKeepsInv(wal, s, m);
        if |wal| > 1 { ClaimKeepsTs(wal, s, m); }
      }
    case Receive(m) =>
      ReceiveKeepsInv(wal, s, m);
      if |wal| > 1 { ReceiveKeepsTs(wal, s, m); }
    case Commit(m) =>
      CommitKeepsInv(wal, s, m);
      OnlyTheNextMayProceed(wal, s, m);
      WorkerCommits(s.claims, |s.committed|, s.workers[m], m);
      if |wal| > 1 { CommitKeepsTs(wal, s, m); }
    case Publish(m, now) =>
      PublishKeepsInv(wal, s, m, now);
      if |wal| > 1 { PublishKeepsTs(wal, s, m, now); }
    case Stats(_, _) =>
      var s' := Do(wal, s, step);
      SamePendingKeepsInv(wal, s, s');
      assert |wal| > 1 ==> PublishedCount(s') == PublishedCount(s);
  }

  lemma {:induction false} ReachableIsGood(wal: seq<Txn>, members: nat, steps: seq<Step>)
    requires WellFormed(wal) && (|wal| > 1 ==> TimestampsOrdered(wal))
    ensures Good(wal, After(wal, members, steps))
    ensures |After(wal, members, steps).workers| == members
  {
    if steps == [] {
    } else {
      ReachableIsGood(wal, members, steps[..|steps| - 1]);
      var s, step := After(wal, members, steps[..|steps| - 1]), steps[|steps| - 1];
      if Enabled(wal, s, step) {
        StepKeepsInv(wal, s, step);
      }
    }
  }

  // ---------- main results ----------

  /** In every interleaving, each transaction a member has decoded is claimed exactly once, and the
      subscriber has committed exactly a prefix of the publisher's commit order. */
  lemma {:induction false} ClaimedOnceCommittedInOrder(wal: seq<Txn>, members: nat, steps: seq<Step>)
    requires WellFormed(wal) && (|wal| > 1 ==> TimestampsOrdered(wal))
    ensures var s := After(wal, members, steps);
      && InCommitOrder(s.committed) && |s.committed| <= |s.claims| <= |wal|
      && (forall m, i :: 0 <= m < |s.senders| && 0 <= i < s.senders[m].pos ==>
            i < |s.claims| && s.claims[i].index == i && s.claims[i].member < members)
      && (forall j, k :: 0 <= j < k < |s.claims| ==> s.claims[j].index != s.claims[k].index)
  {
    ReachableIsGood(wal, members, steps);
  }

  lemma {:induction false} HeadIsLeast(wal: seq<Txn>, s: State)
    requires Good(wal, s) && |s.committed| < |s.claims|
    ensures var q := Pending(s.workers[s.claims[|s.committed|].member]);
      && q != [] && q[0].index == |s.committed|
      && (PublishedCount(s) == |s.committed| ==> MayProceed(s.entry, q[0].required))
  {
    var c := |s.committed|;
    var m := s.claims[c].member;
    assert WorkerInv(s.claims, |s.committed|, s.workers[m], m) && Holds(s.workers[m], c);
    if |wal| > 1 {
      assert CarriesPredecessor(wal, s.workers[m]);
    }
  }

  /** In every reachable state the least claimed-but-uncommitted transaction is at the head of its
      worker's stream.  Its wait is over once the newest commit is published, and until then the
      worker that made that commit can publish it. */
  lemma {:induction false} LeastUncommittedIsAtHead(wal: seq<Txn>, members: nat, steps: seq<Step>)
    requires WellFormed(wal) && (|wal| > 1 ==> TimestampsOrdered(wal))
    requires |After(wal, members, steps).committed| < |After(wal, members, steps).claims|
    ensures var s := After(wal, members, steps);
      var c := |s.committed|;
      Inv(wal, s) &&
      var q := Pending(s.workers[s.claims[c].member]);
      && q != [] && q[0].index == c
      && (PublishedCount(s) == c ==> MayProceed(s.entry, q[0].required))
      && (PublishedCount(s) != c ==> Enabled(wal, s, Publish(s.claims[c - 1].member, 0)))
  {
    ReachableIsGood(wal, members, steps);
    HeadIsLeast(wal, After(wal, members, steps));
  }

  predicate IsApplyStep(step: Step) {
    step.Receive? || step.Commit? || step.Publish?
  }

  /** Apply steps still to be taken for what has been claimed. */
  function Work(ws: seq<Worker>): nat {
    if ws == [] then 0
    else
      var w := ws[|ws| - 1];
      Work(ws[..|ws| - 1]) + 3 * |w.stream| +
      (match w.phase case Idle => 0 case Applying(_) => 2 case Unpublished(_) => 1)
  }

  lemma {:induction false} WorkAfterChange(ws: seq<Worker>, m: nat, w: Worker)
    requires m < |ws|
    ensures Work(ws[m := w]) == Work(ws) - Work([ws[m]]) + Work([w])
    ensures Work([ws[m]]) <= Work(ws)
  {
    var front := ws[..|ws| - 1];
    assert [w][..0] == [] && [ws[m]][..0] == [];
    if m < |front| {
      assert ws[m := w][..|ws| - 1] == front[m := w];
      WorkAfterChange(front, m, w);
    } else {
      assert ws[m := w][..|ws| - 1] == front;
    }
  }

  lemma {:induction false} ApplyStepDoesOneUnit(wal: seq<Txn>, s: State, step: Step)
    requires Enabled(wal, s, step) && IsApplyStep(step)
    ensures Work(Do(wal, s, step).workers) == Work(s.workers) - 1
  {
    var m := step.m;
    WorkAfterChange(s.workers, m, Do(wal, s, step).workers[m]);
    assert [s.workers[m]][..0] == [] && [Do(wal, s, step).workers[m]][..0] == [];
  }

  lemma {:induction false} SomeApplyStepIsEnabled(wal: seq<Txn>, s: State) returns (step: Step)
    requires Good(wal, s)
    requires |s.committed| < |s.claims| || PublishedCount(s) < |s.committed|
    ensures IsApplyStep(step) && Enabled(wal, s, step)
  {
    var c := |s.committed|;
    if PublishedCount(s) < c {
      step := Publish(s.claims[c - 1].member, 0);
    } else {
      HeadIsLeast(wal, s);
      var m := s.claims[c].member;
      var w := s.workers[m];
      assert WorkerInv(s.claims, |s.committed|, s.workers[m], m);
      step := if w.phase.Idle? then Receive(m) else if w.phase.Applying? then Commit(m) else Publish(m, 0);
      assert w.phase.Applying? ==> Pending(w)[0] == w.phase.current;
    }
  }

  /** The commit-order wait never blocks the whole group, whatever the scheduler does: until everything
      claimed is committed and published some apply step is enabled, and every apply step taken brings
      that point exactly one step closer. */
  lemma {:induction false} GroupNeverBlocks(wal: seq<Txn>, members: nat, steps: seq<Step>)
    requires WellFormed(wal) && (|wal| > 1 ==> TimestampsOrdered(wal))
    ensures var s := After(wal, members, steps);
      && Inv(wal, s)
      && (|s.committed| < |s.claims| || PublishedCount(s) < |s.committed| ==>
            exists step :: IsApplyStep(step) && Enabled(wal, s, step))
      && (forall step :: IsApplyStep(step) && Enabled(wal, s, step) ==>
            Work(Do(wal, s, step).workers) == Work(s.workers) - 1)
  {
    ReachableIsGood(wal, members, steps);
    var s := After(wal, members, steps);
    if |s.committed| < |s.claims| || PublishedCount(s) < |s.committed| {
      var step := SomeApplyStepIsEnabled(wal, s);
    }
    forall step | IsApplyStep(step) && Enabled(wal, s, step)
      ensures Work(Do(wal, s, step).workers) == Work(s.workers) - 1
    {
      ApplyStepDoesOneUnit(wal, s, step);
    }
  }

  // ---------- exactly when commit order is kept ----------

  function NewestTs(wal: seq<Txn>, k: nat): int
    requires k <= |wal|
  {
    if k == 0 then 0 else Max(NewestTs(wal, k - 1), wal[k - 1].commitTs)
  }

  /** Where the timestamps first stop being positive and increasing. */
  lemma {:induction false} DisorderShows(wal: seq<Txn>) returns (i: nat)
    requires |wal| > 1 && !TimestampsOrdered(wal)
    ensures 0 < i < |wal| && (wal[i].commitTs <= NewestTs(wal, i) || NewestTs(wal, i) == 0)
  {
    i := 1;
    assert NewestTs(wal, 1) == Max(NewestTs(wal, 0), wal[0].commitTs);
    while i + 1 < |wal| && NewestTs(wal, i) > 0 && wal[i].commitTs > NewestTs(wal, i)
      invariant 0 < i < |wal|
      invariant NewestTs(wal, i) == Max(0, wal[i - 1].commitTs)
      invariant wal[0].commitTs > 0 || i == 1
      invariant forall a, b :: 0 <= a < b < i ==> wal[a].commitTs < wal[b].commitTs
    {
      i := i + 1;
    }
  }

  /** Member 0 has claimed the first `k` transactions and member 1 has skipped the first `j` of them. */
  ghost predicate Overtaking(wal: seq<Txn>, s: State, k: nat, j: nat) {
    && j <= k <= |wal| && |s.senders| == |s.workers| > 1
    && s.group == Group(if k == 0 then 0 else wal[k - 1].endLsn, NewestTs(wal, k))
    && s.senders[0].pos == k && s.senders[1] == Sender(j, 0)
    && s.workers[1] == Worker([], Idle) && s.committed == [] && s.entry == Progress.UNSET
  }

  lemma {:induction false} NewestTsBounds(wal: seq<Txn>, i: nat, k: nat)
    requires i < k <= |wal|
    ensures wal[i].commitTs <= NewestTs(wal, k) && 0 <= NewestTs(wal, k)
  {
    if i < k - 1 {
      NewestTsBounds(wal, i, k - 1);
    } else if k > 1 {
      NewestTsBounds(wal, 0, k - 1);
    }
  }

  lemma {:induction false} Extend(wal: seq<Txn>, members: nat, steps: seq<Step>, step: Step)
    requires Enabled(wal, After(wal, members, steps), step)
    ensures After(wal, members, steps + [step]) == Do(wal, After(wal, members, steps), step)
  {
    assert (steps + [step])[..|steps|] == steps;
  }

  lemma {:induction false} Overtake(wal: seq<Txn>, members: nat, k: nat, j: nat) returns (steps: seq<Step>)
    requires WellFormed(wal) && members > 1 && j <= k <= |wal|
    ensures Overtaking(wal, After(wal, members, steps), k, j)
  {
    if k == 0 {
      steps := [];
    } else if j == 0 {
      var before := Overtake(wal, members, k - 1, 0);
      assert k > 1 ==> wal[k - 2].endLsn <= wal[k - 1].commitLsn;
      Extend(wal, members, before, Decode(0));
      steps := before + [Decode(0)];
    } else {
      var before := Overtake(wal, members, k, j - 1);
      NewestTsBounds(wal, j - 1, k);
      assert wal[j - 1].endLsn <= wal[k - 1].endLsn;
      Extend(wal, members, before, Decode(1));
      steps := before + [Decode(1)];
    }
  }

  lemma {:induction false} DisorderBreaksCommitOrder(wal: seq<Txn>, members: nat) returns (steps: seq<Step>)
    requires WellFormed(wal) && members > 1 && |wal| > 1 && !TimestampsOrdered(wal)
    ensures !InCommitOrder(After(wal, members, steps).committed)
  {
    var i := DisorderShows(wal);
    var before := Overtake(wal, members, i, i);
    assert wal[i - 1].endLsn <= wal[i].commitLsn;
    var claimed := before + [Decode(1)];
    Extend(wal, members, before, Decode(1));
    assert After(wal, members, claimed).workers[1].stream == [Shipped(i, 0)];
    var received := claimed + [Receive(1)];
    Extend(wal, members, claimed, Receive(1));
    Extend(wal, members, received, Commit(1));
    steps := received + [Commit(1)];
    assert After(wal, members, steps).committed == [i];
    assert After(wal, members, steps).committed[0] != 0;
  }

  /** With two or more members, the subscriber commits in publisher order in every interleaving exactly
      when the commit timestamps are positive and strictly increase with LSN (or there is at most one
      transaction). */
  lemma {:induction false} CommitOrderKeptExactlyWhen(wal: seq<Txn>, members: nat)
    requires WellFormed(wal) && members > 1
    ensures (forall steps :: InCommitOrder(After(wal, members, steps).committed))
       <==> |wal| <= 1 || TimestampsOrdered(wal)
  {
    if |wal| <= 1 || TimestampsOrdered(wal) {
      forall steps ensures InCommitOrder(After(wal, members, steps).committed) {
        ClaimedOnceCommittedInOrder(wal, members, steps);
      }
    } else {
      var steps := DisorderBreaksCommitOrder(wal, members);
      assert !InCommitOrder(After(wal, members, steps).committed);
    }
  }

  // ---------- what the progress entry publishes ----------

  /** The commit position published is the end of the newest published transaction. */
  ghost predicate PublishesNewest(wal: seq<Txn>, s: State) {
    PublishedCount(s) <= |wal|
    && (PublishedCount(s) == 0 ==> s.entry.commit == Progress.UNSET_COMMIT)
    && (PublishedCount(s) > 0 ==>
          var t := wal[PublishedCount(s) - 1];
          && s.entry.commit.remoteCommitLsn == t.endLsn && s.entry.commit.remoteCommitTs == t.commitTs
          && s.entry.receivedLsn >= t.endLsn && s.entry.commit.updatedByDecode)
  }

  lemma {:induction false} CommitLeavesCount(wal: seq<Txn>, s: State, m: nat)
    requires TimestampsOrdered(wal) && Good(wal, s) && Enabled(wal, s, Commit(m))
    ensures PublishedCount(Do(wal, s, Commit(m))) == PublishedCount(s)
  {
    OnlyTheNextMayProceed(wal, s, m);
    assert WorkerInv(s.claims, |s.committed|, s.workers[m], m);
    assert Pending(s.workers[m])[0] == s.workers[m].phase.current;
  }

  lemma {:induction false} PublishCounts(wal: seq<Txn>, s: State, m: nat, now: int)
    requires Inv(wal, s) && Enabled(wal, s, Publish(m, now))
    ensures PublishedCount(Do(wal, s, Publish(m, now))) == PublishedCount(s) + 1
    ensures s.workers[m].phase.index == PublishedCount(s) < |wal|
  {
    assert WorkerInv(s.claims, |s.committed|, s.workers[m], m);
  }

  lemma {:induction false} OthersLeaveCount(wal: seq<Txn>, s: State, step: Step)
    requires |s.committed| <= |s.claims| && Enabled(wal, s, step) && (step.Decode? || step.Receive? || step.Stats?)
    ensures PublishedCount(Do(wal, s, step)) == PublishedCount(s)
  {
    var s', c := Do(wal, s, step), |s.committed|;
    assert |s'.workers| == |s.workers| && s'.committed == s.committed && s.claims <= s'.claims;
    assert c > 0 ==> s'.claims[c - 1] == s.claims[c - 1];
    forall u | 0 <= u < |s.workers|
      ensures s.workers[u].phase.Unpublished? ==> s'.workers[u].phase == s.workers[u].phase
    {
    }
    forall u | 0 <= u < |s.workers|
      ensures s'.workers[u].phase.Unpublished? ==> s'.workers[u].phase == s.workers[u].phase
    {
    }
  }

  /** A publication raises the count of published commits by one; nothing else changes it. */
  lemma {:induction false} PublishedCountStep(wal: seq<Txn>, s: State, step: Step)
    requires TimestampsOrdered(wal) && Good(wal, s) && Enabled(wal, s, step)
    ensures PublishedCount(Do(wal, s, step)) == PublishedCount(s) + if step.Publish? then 1 else 0
    ensures step.Publish? ==> s.workers[step.m].phase.index == PublishedCount(s) < |wal|
  {
    match step
    case Commit(m) => CommitLeavesCount(wal, s, m);
    case Publish(m, now) => PublishCounts(wal, s, m, now);
    case _ => OthersLeaveCount(wal, s, step);
  }

  lemma {:induction false} StepPublishesNewest(wal: seq<Txn>, s: State, step: Step)
    requires WellFormed(wal) && TimestampsOrdered(wal) && Good(wal, s)
    requires Enabled(wal, s, step) && PublishesNewest(wal, s)
    ensures PublishesNewest(wal, Do(wal, s, step))
    ensures step.Publish? ==> Do(wal, s, step).entry.commit.lastUpdatedTs == step.now
  {
    PublishedCountStep(wal, s, step);
  }

  /** In every interleaving the entry tells the end and timestamp of the newest transaction published. */
  lemma {:induction false} EntryTellsNewest(wal: seq<Txn>, members: nat, steps: seq<Step>)
    requires WellFormed(wal) && TimestampsOrdered(wal)
    ensures PublishesNewest(wal, After(wal, members, steps))
  {
    if steps == [] {
    } else {
      var front, step := steps[..|steps| - 1], steps[|steps| - 1];
      EntryTellsNewest(wal, members, front);
      ReachableIsGood(wal, members, front);
      var s := After(wal, members, front);
      if Enabled(wal, s, step) {
        StepPublishesNewest(wal, s, step);
      }
    }
  }

  // ---------- the bounds of the progress entry ----------

  /** Before a worker commits, its COMMIT message has updated the statistics with an insert position of the
      publisher at or past the end of that transaction. */
  ghost predicate Announced(wal: seq<Txn>, members: nat, steps: seq<Step>, k: nat)
    requires k < |steps|
  {
    var s := After(wal, members, steps[..k]);
    steps[k].Commit? && Enabled(wal, s, steps[k]) && s.workers[steps[k].m].phase.current.index < |wal| ==>
      exists j :: 0 <= j < k && steps[j].Stats?
                  && steps[j].inserted >= wal[s.workers[steps[k].m].phase.current.index].endLsn
  }

  ghost predicate AllAnnounced(wal: seq<Txn>, members: nat, steps: seq<Step>) {
    forall k :: 0 <= k < |steps| ==> Announced(wal, members, steps, k)
  }

  /** Everything committed lies below the entry's insert position, and what is to be published is
      committed. */
  ghost predicate Covers(wal: seq<Txn>, s: State) {
    && (forall i :: i in s.committed && i < |wal| ==> wal[i].endLsn <= s.entry.remoteInsertLsn)
    && (forall m :: 0 <= m < |s.workers| && s.workers[m].phase.Unpublished? ==> s.workers[m].phase.index in s.committed)
  }

  lemma {:induction false} StatsRaiseInsert(wal: seq<Txn>, members: nat, steps: seq<Step>, j: nat)
    requires j < |steps| && steps[j].Stats?
    ensures After(wal, members, steps).entry.remoteInsertLsn >= steps[j].inserted
  {
    var front := steps[..|steps| - 1];
    if j < |front| {
      StatsRaiseInsert(wal, members, front, j);
    }
  }

  lemma {:induction false} StepKeepsCovers(wal: seq<Txn>, s: State, step: Step)
    requires Covers(wal, s) && Enabled(wal, s, step)
    requires step.Commit? && s.workers[step.m].phase.current.index < |wal| ==>
      wal[s.workers[step.m].phase.current.index].endLsn <= s.entry.remoteInsertLsn
    ensures Covers(wal, Do(wal, s, step))
  {
  }

  lemma {:induction false} StepKeepsBounded(wal: seq<Txn>, s: State, step: Step)
    requires Covers(wal, s) && Enabled(wal, s, step) && Progress.Bounded(s.entry) && 0 <= s.entry.commit.remoteCommitTs
    ensures var e := Do(wal, s, step).entry; Progress.Bounded(e) && 0 <= e.commit.remoteCommitTs
  {
  }

  lemma {:induction false} AnnouncedPrefix(wal: seq<Txn>, members: nat, steps: seq<Step>)
    requires AllAnnounced(wal, members, steps) && steps != []
    ensures AllAnnounced(wal, members, steps[..|steps| - 1])
  {
    var front := steps[..|steps| - 1];
    forall k | 0 <= k < |front| ensures Announced(wal, members, front, k) {
      assert Announced(wal, members, steps, k) && front[..k] == steps[..k];
    }
  }

  lemma {:induction false} AnnouncedCommit(wal: seq<Txn>, members: nat, front: seq<Step>, step: Step)
    requires Announced(wal, members, front + [step], |front|) && step.Commit?
    requires Enabled(wal, After(wal, members, front), step)
    ensures var s := After(wal, members, front);
      s.workers[step.m].phase.current.index < |wal| ==>
        wal[s.workers[step.m].phase.current.index].endLsn <= s.entry.remoteInsertLsn
  {
    var steps, s := front + [step], After(wal, members, front);
    assert steps[..|front|] == front && steps[|front|] == step;
    if s.workers[step.m].phase.current.index < |wal| {
      var j :| 0 <= j < |front| && steps[j].Stats?
               && steps[j].inserted >= wal[s.workers[step.m].phase.current.index].endLsn;
      StatsRaiseInsert(wal, members, front, j);
    }
  }

  /** The commit update carries whatever insert position the entry had.  Still the entry's insert and
      received positions never fall below its commit position, in any interleaving. */
  lemma {:induction false} EntryStaysBounded(wal: seq<Txn>, members: nat, steps: seq<Step>)
    requires AllAnnounced(wal, members, steps)
    ensures var s := After(wal, members, steps);
      Covers(wal, s) && Progress.Bounded(s.entry) && 0 <= s.entry.commit.remoteCommitTs
  {
    if steps == [] {
    } else {
      var front, step := steps[..|steps| - 1], steps[|steps| - 1];
      AnnouncedPrefix(wal, members, steps);
      EntryStaysBounded(wal, members, front);
      var s := After(wal, members, front);
      if Enabled(wal, s, step) {
        if step.Commit? {
          assert front + [step] == steps && Announced(wal, members, steps, |front|);
          AnnouncedCommit(wal, members, front, step);
        }
        StepKeepsCovers(wal, s, step);
        StepKeepsBounded(wal, s, step);
      }
    }
  }
}
