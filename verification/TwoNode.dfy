/** Two nodes writing the same row concurrently and exchanging their changes in FIFO order.  Equal
    commit timestamps are decided by the nodes' tiebreakers. */
module TwoNode {
  import opened RowConflict
  import opened Convergence

  datatype Side = A | B

  function Peer(side: Side): Side {
    if side == A then B else A
  }

  datatype Setup = Setup(rel: Relation, start: Row, idA: nat, idB: nat, tiebreakA: int, tiebreakB: int)

  ghost predicate ValidSetup(u: Setup) {
    && ValidRelation(u.rel) && |u.start.cols| == u.rel.natts
    && (forall a :: 0 <= a < u.rel.natts ==> a in u.rel.attmap)
    && u.idA != INVALID_ORIGIN && u.idB != INVALID_ORIGIN && u.idA != u.idB
  }

  function Id(u: Setup, side: Side): nat {
    if side == A then u.idA else u.idB
  }

  function Tiebreak(u: Setup, side: Side): int {
    if side == A then u.tiebreakA else u.tiebreakB
  }

  function ConfigOf(u: Setup, side: Side): Config {
    Config(LastUpdateWins, Tiebreak(u, side), map[u.idA := u.tiebreakA, u.idB := u.tiebreakB])
  }

  /** The local row, every local write in order, and how many of the peer's writes were applied. */
  datatype Node = Node(row: Row, writes: seq<Change>, received: nat)

  datatype System = System(a: Node, b: Node)

  function At(s: System, side: Side): Node {
    if side == A then s.a else s.b
  }

  function With(s: System, side: Side, n: Node): System {
    if side == A then s.(a := n) else s.(b := n)
  }

  datatype Step = LocalWrite(side: Side, cols: seq<Cell>, ts: int) | Deliver(side: Side)

  function Init(u: Setup): System {
    System(Node(u.start, [], 0), Node(u.start, [], 0))
  }

  function AsTuple(cols: seq<Cell>): TupleData {
    TupleData(seq(|cols|, i requires 0 <= i < |cols| => Datum(cols[i])),
              seq(|cols|, i requires 0 <= i < |cols| => cols[i].Null?), seq(|cols|, _ => true))
  }

  function WriteOf(u: Setup, side: Side, row: Row, cols: seq<Cell>, ts: int): Change {
    Change(AsTuple(row.cols), AsTuple(cols), ts, Id(u, side))
  }

  predicate DeltasPresent(rel: Relation, cols: seq<Cell>) {
    |cols| == rel.natts == |rel.delta| && forall a :: 0 <= a < rel.natts && rel.delta[a] != NoDelta ==> cols[a].Val?
  }

  /** A local write is newer than the row it overwrites; delta columns are NOT NULL.  A delivery is one
      that does not raise an arithmetic error. */
  ghost predicate Enabled(u: Setup, s: System, step: Step) {
    match step
    case LocalWrite(side, cols, ts) =>
      At(s, side).row.ts < ts && DeltasPresent(u.rel, cols) && DeltasPresent(u.rel, At(s, side).row.cols)
    case Deliver(side) =>
      var me, peer := At(s, side), At(s, Peer(side));
      me.received < |peer.writes| &&
      ValidInput(ConfigOf(u, side), u.rel, me.row, peer.writes[me.received]) &&
      ApplyChange(ConfigOf(u, side), u.rel, me.row, peer.writes[me.received]).Ok?
  }

  ghost function Do(u: Setup, s: System, step: Step): System
    requires Enabled(u, s, step)
  {
    match step
    case LocalWrite(side, cols, ts) =>
      var me := At(s, side);
      With(s, side, Node(Row(cols, ts, INVALID_ORIGIN), me.writes + [WriteOf(u, side, me.row, cols, ts)], me.received))
    case Deliver(side) =>
      var me, peer := At(s, side), At(s, Peer(side));
      var r := ApplyChange(ConfigOf(u, side), u.rel, me.row, peer.writes[me.received]);
      With(s, side, me.(row := r.value, received := me.received + 1))
  }

  /** A run is any sequence of attempted steps. */
  ghost function After(u: Setup, steps: seq<Step>): System {
    if steps == [] then Init(u)
    else
      var s := After(u, steps[..|steps| - 1]);
      var step := steps[|steps| - 1];
      if Enabled(u, s, step) then Do(u, s, step) else s
  }

  predicate Exchanged(s: System) {
    s.a.received == |s.b.writes| && s.b.received == |s.a.writes|
  }

  // ---------- invariant ----------

  /** Is write `x` made on a node with tiebreaker `tx` the preferred one? */
  predicate Prefer(x: Change, tx: int, y: Change, ty: int) {
    y.ts < x.ts || (y.ts == x.ts && tx < ty)
  }

  function Last(chs: seq<Change>): Change
    requires chs != []
  {
    chs[|chs| - 1]
  }

  predicate OwnWins(u: Setup, side: Side, own: seq<Change>, peers: seq<Change>) {
    own != [] && (peers == [] || Prefer(Last(own), Tiebreak(u, side), Last(peers), Tiebreak(u, Peer(side))))
  }

  ghost predicate ValidWrites(u: Setup, side: Side, chs: seq<Change>) {
    && (forall i :: 0 <= i < |chs| ==> FullRow(u.rel, chs[i]) && chs[i].origin == Id(u, side) && u.start.ts < chs[i].ts)
    && (forall i, j :: 0 <= i < j < |chs| ==> chs[i].ts < chs[j].ts)
  }

  /** The row version a node holds: the better of its own newest write and the newest write it received. */
  ghost function Held(u: Setup, side: Side, own: seq<Change>, peers: seq<Change>): Row
    requires ValidWrites(u, side, own) && ValidWrites(u, Peer(side), peers)
  {
    if OwnWins(u, side, own, peers) then Image(u.rel, Last(own)).(origin := INVALID_ORIGIN)
    else if peers != [] then Image(u.rel, Last(peers))
    else u.start
  }

  /** Counters stand at the start value plus the differences of all writes seen. */
  ghost predicate Counted(u: Setup, own: seq<Change>, peers: seq<Change>, r: Row) {
    && |r.cols| == |u.start.cols| == u.rel.natts == |u.rel.delta|
    && (forall a :: 0 <= a < u.rel.natts && u.rel.delta[a] != NoDelta ==>
          Datum(r.cols[a]) == Datum(u.start.cols[a]) + Sum(own, Diff(a)) + Sum(peers, Diff(a)))
    && (own == [] && peers == [] ==> r == u.start)
    && (own != [] || peers != [] ==> forall a :: 0 <= a < u.rel.natts && u.rel.delta[a] != NoDelta ==> r.cols[a].Val?)
  }

  ghost predicate NodeInv(u: Setup, side: Side, me: Node, peerWrites: seq<Change>) {
    && ValidWrites(u, side, me.writes) && ValidWrites(u, Peer(side), peerWrites)
    && me.received <= |peerWrites|
    && ValidWrites(u, Peer(side), peerWrites[..me.received])
    && Follows(u.rel, me.row, Held(u, side, me.writes, peerWrites[..me.received]))
    && Counted(u, me.writes, peerWrites[..me.received], me.row)
  }

  ghost predicate Inv(u: Setup, s: System) {
    NodeInv(u, A, s.a, s.b.writes) && NodeInv(u, B, s.b, s.a.writes)
  }

  lemma {:induction false} WriteIsFullRow(u: Setup, side: Side, row: Row, cols: seq<Cell>, ts: int)
    requires ValidSetup(u) && DeltasPresent(u.rel, cols) && DeltasPresent(u.rel, row.cols)
    ensures FullRow(u.rel, WriteOf(u, side, row, cols, ts))
    ensures Image(u.rel, WriteOf(u, side, row, cols, ts)) == Row(cols, ts, Id(u, side))
  {
    var ch := WriteOf(u, side, row, cols, ts);
    forall a | 0 <= a < u.rel.natts ensures NewCell(ch, a) == cols[a] {
    }
    assert Image(u.rel, ch).cols == cols;
  }

  lemma {:induction false} WriteKeepsWriter(u: Setup, side: Side, me: Node, peerWrites: seq<Change>, cols: seq<Cell>,
                                            ts: int)
    requires ValidSetup(u) && NodeInv(u, side, me, peerWrites)
    requires me.row.ts < ts && DeltasPresent(u.rel, cols) && DeltasPresent(u.rel, me.row.cols)
    ensures NodeInv(u, side,
      Node(Row(cols, ts, INVALID_ORIGIN), me.writes + [WriteOf(u, side, me.row, cols, ts)], me.received), peerWrites)
  {
    var ch := WriteOf(u, side, me.row, cols, ts);
    WriteIsFullRow(u, side, me.row, cols, ts);
    var own, peers := me.writes + [ch], peerWrites[..me.received];
    assert Last(own) == ch;
    assert ValidWrites(u, side, own);
    assert OwnWins(u, side, own, peers);
    forall a | 0 <= a < u.rel.natts && u.rel.delta[a] != NoDelta
      ensures Datum(cols[a]) == Datum(u.start.cols[a]) + Sum(own, Diff(a)) + Sum(peers, Diff(a))
    {
      SumSnoc(me.writes, ch, Diff(a));
      assert Diff(a)(ch) == Datum(cols[a]) - Datum(me.row.cols[a]);
    }
  }

  lemma {:induction false} WriteKeepsPeer(u: Setup, side: Side, me: Node, peerWrites: seq<Change>, more: seq<Change>)
    requires NodeInv(u, side, me, peerWrites) && ValidWrites(u, Peer(side), peerWrites + more)
    ensures NodeInv(u, side, me, peerWrites + more)
  {
    assert (peerWrites + more)[..me.received] == peerWrites[..me.received];
  }

  /** The resolver's decision is the preference between the node's newest write and the arriving one. */
  lemma {:induction false} DecisionIsPreference(u: Setup, side: Side, me: Node, peerWrites: seq<Change>)
    requires ValidSetup(u) && u.tiebreakA != u.tiebreakB && NodeInv(u, side, me, peerWrites)
    requires me.received < |peerWrites|
    ensures var ch := peerWrites[me.received];
      ResolveByTimestamp(ConfigOf(u, side), me.row, ch, true)
      == !OwnWins(u, side, me.writes, peerWrites[..me.received + 1])
  {
    var ch, peers := peerWrites[me.received], peerWrites[..me.received];
    assert Last(peerWrites[..me.received + 1]) == ch;
    assert peers != [] ==> Last(peers) == peerWrites[me.received - 1];
  }

  lemma {:induction false} DeltasOk(u: Setup, row: Row, ch: Change)
    requires ValidRelation(u.rel) && |row.cols| == u.rel.natts && FullRow(u.rel, ch)
    requires HasDelta(u.rel) ==> DeltasFit(u.rel, row, ch)
    ensures DeltasFit(u.rel, row, ch)
  {
  }

  lemma {:induction false} HeldAfter(u: Setup, side: Side, own: seq<Change>, peers: seq<Change>, ch: Change)
    requires ValidWrites(u, side, own) && ValidWrites(u, Peer(side), peers) && ValidWrites(u, Peer(side), peers + [ch])
    ensures Held(u, side, own, peers + [ch])
         == if OwnWins(u, side, own, peers + [ch]) then Held(u, side, own, peers) else Image(u.rel, ch)
  {
    assert Last(peers + [ch]) == ch;
    if peers != [] {
      assert (peers + [ch])[|peers| - 1] == Last(peers) && (peers + [ch])[|peers|] == ch;
    }
  }

  lemma {:induction false} CountedAfter(u: Setup, own: seq<Change>, peers: seq<Change>, ch: Change, row: Row, r: Row)
    requires Counted(u, own, peers, row) && |r.cols| == u.rel.natts
    requires forall a :: 0 <= a < u.rel.natts && u.rel.delta[a] != NoDelta ==>
      r.cols[a] == Val(Datum(row.cols[a]) + Diff(a)(ch))
    ensures Counted(u, own, peers + [ch], r)
  {
    forall a | 0 <= a < u.rel.natts && u.rel.delta[a] != NoDelta
      ensures Datum(r.cols[a]) == Datum(u.start.cols[a]) + Sum(own, Diff(a)) + Sum(peers + [ch], Diff(a))
    {
      SumSnoc(peers, ch, Diff(a));
    }
  }

  lemma {:induction false} DeliverKeepsReceiver(u: Setup, side: Side, me: Node, peerWrites: seq<Change>)
    requires ValidSetup(u) && u.tiebreakA != u.tiebreakB && NodeInv(u, side, me, peerWrites)
    requires me.received < |peerWrites|
    requires ValidInput(ConfigOf(u, side), u.rel, me.row, peerWrites[me.received])
    requires ApplyChange(ConfigOf(u, side), u.rel, me.row, peerWrites[me.received]).Ok?
    ensures NodeInv(u, side,
      me.(row := ApplyChange(ConfigOf(u, side), u.rel, me.row, peerWrites[me.received]).value,
          received := me.received + 1),
      peerWrites)
  {
    var ch, peers := peerWrites[me.received], peerWrites[..me.received];
    assert peerWrites[..me.received + 1] == peers + [ch];
    assert ValidWrites(u, Peer(side), peers + [ch]);
    assert FullRow(u.rel, ch);
    var wins := ResolveByTimestamp(ConfigOf(u, side), me.row, ch, true);
    assert wins == !OwnWins(u, side, me.writes, peers + [ch]) by { DecisionIsPreference(u, side, me, peerWrites); }
    DeltasOk(u, me.row, ch);
    HeldAfter(u, side, me.writes, peers, ch);
    FinalRowEffect(u.rel, ch, me.row, Held(u, side, me.writes, peers), wins);
    CountedAfter(u, me.writes, peers, ch, me.row, FinalRow(u.rel, me.row, ch, wins));
  }

  lemma {:induction false} StepKeepsInv(u: Setup, s: System, step: Step)
    requires ValidSetup(u) && u.tiebreakA != u.tiebreakB && Inv(u, s) && Enabled(u, s, step)
    ensures Inv(u, Do(u, s, step))
  {
    var side := step.side;
    var me, peer := At(s, side), At(s, Peer(side));
    match step
    case LocalWrite(_, cols, ts) =>
      WriteKeepsWriter(u, side, me, peer.writes, cols, ts);
      WriteKeepsPeer(u, Peer(side), peer, me.writes, [WriteOf(u, side, me.row, cols, ts)]);
    case Deliver(_) =>
      DeliverKeepsReceiver(u, side, me, peer.writes);
  }

  lemma {:induction false} ReachableInv(u: Setup, steps: seq<Step>)
    requires ValidSetup(u) && u.tiebreakA != u.tiebreakB
    ensures Inv(u, After(u, steps))
  {
    if steps == [] {
    } else {
      ReachableInv(u, steps[..|steps| - 1]);
      var s, step := After(u, steps[..|steps| - 1]), steps[|steps| - 1];
      if Enabled(u, s, step) {
        StepKeepsInv(u, s, step);
      }
    }
  }

  // ---------- main results ----------

  /** `x`, written on `side`, is the greatest of all writes by (timestamp, lower tiebreaker). */
  ghost predicate IsNewest(u: Setup, s: System, side: Side, x: Change) {
    && x in At(s, side).writes
    && (forall y :: y in At(s, side).writes ==> y.ts <= x.ts)
    && (forall y :: y in At(s, Peer(side)).writes ==> Prefer(x, Tiebreak(u, side), y, Tiebreak(u, Peer(side))))
  }

  /** Both nodes hold the same columns: ordinary ones of the newest write (of the start row when there
      was none), counters at the start value plus every difference written anywhere. */
  ghost predicate Agree(u: Setup, s: System) {
    && s.a.row.cols == s.b.row.cols && s.a.row.ts == s.b.row.ts && |s.a.row.cols| == u.rel.natts == |u.rel.delta|
    && (s.a.writes == [] && s.b.writes == [] ==> s.a.row == u.start)
    && (s.a.writes != [] || s.b.writes != [] ==>
          exists side, x :: IsNewest(u, s, side, x) && ValidTuple(u.rel, x.newtup) && s.a.row.ts == x.ts &&
            forall a :: 0 <= a < u.rel.natts && u.rel.delta[a] == NoDelta ==> s.a.row.cols[a] == NewCell(x, a))
    && (forall a :: 0 <= a < u.rel.natts && u.rel.delta[a] != NoDelta && |u.start.cols| == u.rel.natts ==>
          Datum(s.a.row.cols[a]) == Datum(u.start.cols[a]) + Sum(s.a.writes, Diff(a)) + Sum(s.b.writes, Diff(a)))
  }

  lemma {:induction false} LastIsLatest(u: Setup, side: Side, chs: seq<Change>, y: Change)
    requires ValidWrites(u, side, chs) && y in chs
    ensures y.ts <= Last(chs).ts
  {
    var j :| 0 <= j < |chs| && chs[j] == y;
  }

  lemma {:induction false} LastIsNewest(u: Setup, s: System, side: Side)
    requires ValidWrites(u, side, At(s, side).writes) && ValidWrites(u, Peer(side), At(s, Peer(side)).writes)
    requires OwnWins(u, side, At(s, side).writes, At(s, Peer(side)).writes)
    ensures IsNewest(u, s, side, Last(At(s, side).writes))
  {
    var own, peers := At(s, side).writes, At(s, Peer(side)).writes;
    forall y | y in own ensures y.ts <= Last(own).ts {
      LastIsLatest(u, side, own, y);
    }
    forall y | y in peers ensures Prefer(Last(own), Tiebreak(u, side), y, Tiebreak(u, Peer(side))) {
      LastIsLatest(u, Peer(side), peers, y);
    }
  }

  lemma {:induction false} ExchangedAgree(u: Setup, s: System)
    requires ValidSetup(u) && u.tiebreakA != u.tiebreakB && Inv(u, s) && Exchanged(s)
    ensures Agree(u, s)
  {
    var xs, ys := s.a.writes, s.b.writes;
    assert xs[..|xs|] == xs && ys[..|ys|] == ys;
    if xs != [] || ys != [] {
      var side := if OwnWins(u, A, xs, ys) then A else B;
      assert OwnWins(u, side, At(s, side).writes, At(s, Peer(side)).writes);
      LastIsNewest(u, s, side);
      var x := Last(At(s, side).writes);
      assert FullRow(u.rel, x) by { assert ValidWrites(u, side, At(s, side).writes); }
      assert Held(u, A, xs, ys).cols == Image(u.rel, x).cols == Held(u, B, ys, xs).cols;
    }
    assert s.a.row.cols == s.b.row.cols;
  }

  /** After a full exchange both nodes agree, even when timestamps tie across the nodes. */
  lemma {:induction false} TwoNodesAgree(u: Setup, steps: seq<Step>)
    requires ValidSetup(u) && u.tiebreakA != u.tiebreakB
    requires Exchanged(After(u, steps))
    ensures Agree(u, After(u, steps))
  {
    ReachableInv(u, steps);
    ExchangedAgree(u, After(u, steps));
  }

  // ---------- exactly when ----------

  lemma {:induction false} Extend(u: Setup, steps: seq<Step>, step: Step)
    requires Enabled(u, After(u, steps), step)
    ensures After(u, steps + [step]) == Do(u, After(u, steps), step)
  {
    assert (steps + [step])[..|steps|] == steps;
  }

  lemma {:induction false} FirstWrite(u: Setup, steps: seq<Step>, side: Side, cols: seq<Cell>)
    requires DeltasPresent(u.rel, u.start.cols) && DeltasPresent(u.rel, cols)
    requires At(After(u, steps), side) == Node(u.start, [], 0)
    ensures var ts := u.start.ts + 1;
      After(u, steps + [LocalWrite(side, cols, ts)])
      == With(After(u, steps), side, Node(Row(cols, ts, INVALID_ORIGIN), [WriteOf(u, side, u.start, cols, ts)], 0))
  {
    var w := WriteOf(u, side, u.start, cols, u.start.ts + 1);
    assert [] + [w] == [w];
    Extend(u, steps, LocalWrite(side, cols, u.start.ts + 1));
  }

  lemma {:induction false} BothWrite(u: Setup, colsA: seq<Cell>, colsB: seq<Cell>) returns (steps: seq<Step>)
    requires DeltasPresent(u.rel, u.start.cols) && DeltasPresent(u.rel, colsA) && DeltasPresent(u.rel, colsB)
    ensures var ts := u.start.ts + 1; After(u, steps) == System(
      Node(Row(colsA, ts, INVALID_ORIGIN), [WriteOf(u, A, u.start, colsA, ts)], 0),
      Node(Row(colsB, ts, INVALID_ORIGIN), [WriteOf(u, B, u.start, colsB, ts)], 0))
  {
    var ts := u.start.ts + 1;
    FirstWrite(u, [], A, colsA);
    FirstWrite(u, [] + [LocalWrite(A, colsA, ts)], B, colsB);
    steps := [] + [LocalWrite(A, colsA, ts)] + [LocalWrite(B, colsB, ts)];
  }

  lemma {:induction false} TieApplies(u: Setup, side: Side, row: Row, ch: Change)
    requires ValidSetup(u) && u.tiebreakA == u.tiebreakB && FullRow(u.rel, ch) && |row.cols| == u.rel.natts
    requires row.ts == ch.ts && ch.origin == Id(u, Peer(side))
    requires forall i :: 0 <= i < u.rel.natts && u.rel.delta[i] != NoDelta ==>
      Fits(u.rel.delta[i], Datum(row.cols[i])) && ch.newtup.values[i] == ch.oldtup.values[i]
    ensures ValidInput(ConfigOf(u, side), u.rel, row, ch)
    ensures ApplyChange(ConfigOf(u, side), u.rel, row, ch) == Ok(FinalRow(u.rel, row, ch, true))
    ensures forall a :: 0 <= a < u.rel.natts && u.rel.delta[a] == NoDelta ==>
      FinalRow(u.rel, row, ch, true).cols[a] == NewCell(ch, a)
  {
    assert Resolve(ConfigOf(u, side), row, ch) == Ok(true);
  }

  /** With equal tiebreakers a tie is applied on both sides: the nodes swap values. */
  lemma {:induction false} EqualTiebreakersSwap(u: Setup, a: nat) returns (steps: seq<Step>)
    requires ValidSetup(u) && u.tiebreakA == u.tiebreakB && DeltasPresent(u.rel, u.start.cols)
    requires a < u.rel.natts && u.rel.delta[a] == NoDelta
    requires forall i :: 0 <= i < u.rel.natts && u.rel.delta[i] != NoDelta ==>
      Fits(u.rel.delta[i], Datum(u.start.cols[i]))
    ensures Exchanged(After(u, steps)) && !Agree(u, After(u, steps))
  {
    var ts := u.start.ts + 1;
    var colsA, colsB := u.start.cols[a := Val(1)], u.start.cols[a := Val(2)];
    WriteIsFullRow(u, A, u.start, colsA, ts);
    WriteIsFullRow(u, B, u.start, colsB, ts);
    var both := BothWrite(u, colsA, colsB);
    TieApplies(u, A, Row(colsA, ts, INVALID_ORIGIN), WriteOf(u, B, u.start, colsB, ts));
    Extend(u, both, Deliver(A));
    TieApplies(u, B, Row(colsB, ts, INVALID_ORIGIN), WriteOf(u, A, u.start, colsA, ts));
    Extend(u, both + [Deliver(A)], Deliver(B));
    steps := both + [Deliver(A)] + [Deliver(B)];
    assert After(u, steps).a.row.cols[a] == Val(2) && After(u, steps).b.row.cols[a] == Val(1);
  }

  /** On a table with an ordinary column, every full exchange ends in agreement exactly when the two
      tiebreakers differ. */
  lemma {:induction false} AgreementExactlyWhen(u: Setup)
    requires ValidSetup(u) && DeltasPresent(u.rel, u.start.cols)
    requires exists a :: 0 <= a < u.rel.natts && u.rel.delta[a] == NoDelta
    requires forall i :: 0 <= i < u.rel.natts && u.rel.delta[i] != NoDelta ==>
      Fits(u.rel.delta[i], Datum(u.start.cols[i]))
    ensures (forall steps :: Exchanged(After(u, steps)) ==> Agree(u, After(u, steps))) <==> u.tiebreakA != u.tiebreakB
  {
    if u.tiebreakA != u.tiebreakB {
      forall steps | Exchanged(After(u, steps)) ensures Agree(u, After(u, steps)) {
        TwoNodesAgree(u, steps);
      }
    } else {
      var a :| 0 <= a < u.rel.natts && u.rel.delta[a] == NoDelta;
      var steps := EqualTiebreakersSwap(u, a);
      assert Exchanged(After(u, steps)) && !Agree(u, After(u, steps));
    }
  }
}
