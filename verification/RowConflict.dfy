/** Applying one remote row change to an existing local row: conflict resolution by commit timestamp
    (`spock_conflict.c`) combined with delta columns, which are counters applied as
    `local + (new - old)` whichever row wins (`spock_apply_heap.c`, `spock_functions.c`). */
module RowConflict {

  datatype Cell = Null | Val(v: int)

  const INVALID_ORIGIN: nat := 0

  /** A stored row version with the commit timestamp and origin recorded for it. */
  datatype Row = Row(cols: seq<Cell>, ts: int, origin: nat)

  /** A tuple as it arrives from the stream, indexed by local attribute number. */
  datatype TupleData = TupleData(values: seq<int>, nulls: seq<bool>, changed: seq<bool>)

  datatype Change = Change(oldtup: TupleData, newtup: TupleData, ts: int, origin: nat)

  /** The function that applies a column's delta, if the column has one. */
  datatype DeltaFn = NoDelta | Int2 | Int4 | Int8 | Numeric

  datatype Relation = Relation(natts: nat, attmap: seq<nat>, delta: seq<DeltaFn>)

  datatype Resolver = Error | ApplyRemote | KeepLocal | LastUpdateWins | FirstUpdateWins

  /** The applying node: its resolver, its tiebreaker and the tiebreakers of the known nodes. */
  datatype Config = Config(resolver: Resolver, tiebreaker: int, tiebreakers: map<nat, int>)

  datatype Result<T> = Ok(value: T) | Err

  predicate ValidTuple(rel: Relation, t: TupleData) {
    |t.values| == |t.nulls| == |t.changed| == rel.natts
  }

  predicate ValidRelation(rel: Relation) {
    |rel.delta| == rel.natts && forall i :: 0 <= i < |rel.attmap| ==> rel.attmap[i] < rel.natts
  }

  ghost predicate ValidInput(cfg: Config, rel: Relation, row: Row, ch: Change) {
    && ValidRelation(rel) && |row.cols| == rel.natts && ValidTuple(rel, ch.oldtup) && ValidTuple(rel, ch.newtup)
    && ch.origin in cfg.tiebreakers
  }

  predicate HasDelta(rel: Relation) {
    exists i :: 0 <= i < |rel.delta| && rel.delta[i] != NoDelta
  }

  // ---------- who wins ----------

  /** True when the remote row is to be applied. */
  function ResolveByTimestamp(cfg: Config, local: Row, ch: Change, lastUpdateWins: bool): bool
    requires ch.origin in cfg.tiebreakers
  {
    if ch.ts != local.ts then (ch.ts > local.ts) == lastUpdateWins
    else
      || (local.origin != INVALID_ORIGIN && local.origin == ch.origin)
      || cfg.tiebreakers[ch.origin] <= cfg.tiebreaker
  }

  function Resolve(cfg: Config, local: Row, ch: Change): Result<bool>
    requires ch.origin in cfg.tiebreakers
  {
    match cfg.resolver
    case Error => Err
    case ApplyRemote => Ok(true)
    case KeepLocal => Ok(false)
    case LastUpdateWins => Ok(ResolveByTimestamp(cfg, local, ch, true))
    case FirstUpdateWins => Ok(ResolveByTimestamp(cfg, local, ch, false))
  }

  // ---------- delta arithmetic ----------

  predicate Fits(fn: DeltaFn, v: int) {
    match fn
    case Int2 => -0x8000 <= v < 0x8000
    case Int4 => -0x8000_0000 <= v < 0x8000_0000
    case Int8 => -0x8000_0000_0000_0000 <= v < 0x8000_0000_0000_0000
    case _ => true
  }

  /** `new - old`, then `local + delta`; either step raises an error when it leaves the type's range. */
  function DeltaApply(fn: DeltaFn, oldValue: int, newValue: int, local: int): Result<int> {
    var delta := newValue - oldValue;
    if Fits(fn, delta) && Fits(fn, local + delta) then Ok(local + delta) else Err
  }

  /** A NULL local value reads as the zero datum. */
  function Datum(c: Cell): int {
    if c.Val? then c.v else 0
  }

  /** The new value of delta column `a`: the remote value as it is when the old value was not logged,
      the local value plus the remote difference otherwise. */
  function DeltaValue(rel: Relation, row: Row, ch: Change, a: nat): Result<int>
    requires ValidRelation(rel) && |row.cols| == rel.natts && ValidTuple(rel, ch.oldtup) && ValidTuple(rel, ch.newtup)
    requires a < rel.natts
  {
    if ch.oldtup.nulls[a] then Ok(ch.newtup.values[a])
    else DeltaApply(rel.delta[a], ch.oldtup.values[a], ch.newtup.values[a], Datum(row.cols[a]))
  }

  ghost predicate DeltasFit(rel: Relation, row: Row, ch: Change)
    requires ValidRelation(rel) && |row.cols| == rel.natts && ValidTuple(rel, ch.oldtup) && ValidTuple(rel, ch.newtup)
  {
    forall i :: 0 <= i < |rel.attmap| && rel.delta[rel.attmap[i]] != NoDelta ==>
      DeltaValue(rel, row, ch, rel.attmap[i]).Ok?
  }

  // ---------- the resulting row ----------

  function NewCell(ch: Change, a: nat): Cell
    requires a < |ch.newtup.nulls| == |ch.newtup.values|
  {
    if ch.newtup.nulls[a] then Null else Val(ch.newtup.values[a])
  }

  /** Column `a` after the remote tuple replaced the changed columns. */
  function ReplacedCell(rel: Relation, src: seq<Cell>, ch: Change, a: nat): Cell
    requires |src| == rel.natts && ValidTuple(rel, ch.newtup) && a < rel.natts
  {
    if a in rel.attmap && ch.newtup.changed[a] then NewCell(ch, a) else src[a]
  }

  /** Column `a` of the row that is finally written.  On a table with delta columns the row is rebuilt
      from the mapped columns alone, so an unmapped column becomes NULL. */
  function FinalCell(rel: Relation, row: Row, ch: Change, remoteWins: bool, a: nat): Cell
    requires ValidRelation(rel) && |row.cols| == rel.natts && ValidTuple(rel, ch.oldtup) && ValidTuple(rel, ch.newtup)
    requires a < rel.natts
  {
    var base := if remoteWins then ReplacedCell(rel, row.cols, ch, a) else row.cols[a];
    if !HasDelta(rel) then base
    else if a !in rel.attmap then Null
    else if rel.delta[a] == NoDelta then base
    else
      var d := DeltaValue(rel, row, ch, a);
      if d.Ok? then Val(d.value) else base
  }

  function FinalRow(rel: Relation, row: Row, ch: Change, remoteWins: bool): Row
    requires ValidRelation(rel) && |row.cols| == rel.natts && ValidTuple(rel, ch.oldtup) && ValidTuple(rel, ch.newtup)
  {
    if !remoteWins && !HasDelta(rel) then row
    else
      Row(seq(rel.natts, a requires 0 <= a < rel.natts => FinalCell(rel, row, ch, remoteWins, a)),
          if remoteWins then ch.ts else row.ts,
          if remoteWins then ch.origin else row.origin)
  }

  /** What an existing row becomes when a change arrives.  A forced delta write keeps the timestamp and
      origin of the local row. */
  ghost function ApplyChange(cfg: Config, rel: Relation, row: Row, ch: Change): Result<Row>
    requires ValidInput(cfg, rel, row, ch)
  {
    var wins := Resolve(cfg, row, ch);
    if wins.Err? || (HasDelta(rel) && !DeltasFit(rel, row, ch)) then Err
    else Ok(FinalRow(rel, row, ch, wins.value))
  }

  // ---------- what must have been written ----------

  /** On equal timestamps: the same origin, or the applying node does not have the lower tiebreaker. */
  predicate TieGoesToRemote(cfg: Config, row: Row, ch: Change)
    requires ch.origin in cfg.tiebreakers
  {
    (row.origin != INVALID_ORIGIN && ch.origin == row.origin) || !(cfg.tiebreaker < cfg.tiebreakers[ch.origin])
  }

  predicate RemoteWins(cfg: Config, row: Row, ch: Change)
    requires ch.origin in cfg.tiebreakers
  {
    || cfg.resolver == ApplyRemote
    || (cfg.resolver == LastUpdateWins && (ch.ts > row.ts || (ch.ts == row.ts && TieGoesToRemote(cfg, row, ch))))
    || (cfg.resolver == FirstUpdateWins && (ch.ts < row.ts || (ch.ts == row.ts && TieGoesToRemote(cfg, row, ch))))
  }

  /** An ordinary column holds the new value if the remote row wins and sent it, and the local one otherwise. */
  ghost predicate OrdinaryWritten(rel: Relation, row: Row, ch: Change, wins: bool, w: Row)
    requires ValidRelation(rel) && |row.cols| == rel.natts == |w.cols| && ValidTuple(rel, ch.newtup)
  {
    forall a :: 0 <= a < rel.natts && a in rel.attmap && rel.delta[a] == NoDelta ==>
      && (wins && ch.newtup.changed[a] && ch.newtup.nulls[a] ==> w.cols[a] == Null)
      && (wins && ch.newtup.changed[a] && !ch.newtup.nulls[a] ==> w.cols[a] == Val(ch.newtup.values[a]))
      && (!wins || !ch.newtup.changed[a] ==> w.cols[a] == row.cols[a])
  }

  /** A delta column moves by the remote difference whoever wins, or takes the new value when the old one was
      not logged. */
  ghost predicate DeltasWritten(rel: Relation, row: Row, ch: Change, w: Row)
    requires ValidRelation(rel) && |row.cols| == rel.natts == |w.cols| && ValidTuple(rel, ch.oldtup)
    requires ValidTuple(rel, ch.newtup)
  {
    forall a :: 0 <= a < rel.natts && a in rel.attmap && rel.delta[a] != NoDelta ==>
      w.cols[a] == Val(if ch.oldtup.nulls[a] then ch.newtup.values[a]
                       else Datum(row.cols[a]) + ch.newtup.values[a] - ch.oldtup.values[a])
  }

  /** An unmapped column stays, except that on a table with delta columns it becomes NULL. */
  ghost predicate UnmappedWritten(rel: Relation, row: Row, w: Row)
    requires |row.cols| == rel.natts == |w.cols|
  {
    forall a :: 0 <= a < rel.natts && a !in rel.attmap ==> w.cols[a] == if HasDelta(rel) then Null else row.cols[a]
  }

  /** A delta column whose difference or new value leaves its type's range. */
  ghost predicate Overflows(rel: Relation, row: Row, ch: Change, a: nat)
    requires ValidRelation(rel) && |row.cols| == rel.natts && ValidTuple(rel, ch.oldtup) && ValidTuple(rel, ch.newtup)
    requires a < rel.natts
  {
    var delta := ch.newtup.values[a] - ch.oldtup.values[a];
    && a in rel.attmap && rel.delta[a] != NoDelta && !ch.oldtup.nulls[a]
    && (!Fits(rel.delta[a], delta) || !Fits(rel.delta[a], Datum(row.cols[a]) + delta))
  }

  ghost predicate Written(cfg: Config, rel: Relation, row: Row, ch: Change, w: Row)
    requires ValidInput(cfg, rel, row, ch)
  {
    var wins := RemoteWins(cfg, row, ch);
    && |w.cols| == rel.natts
    && w.ts == (if wins then ch.ts else row.ts) && w.origin == (if wins then ch.origin else row.origin)
    && OrdinaryWritten(rel, row, ch, wins, w) && DeltasWritten(rel, row, ch, w) && UnmappedWritten(rel, row, w)
  }

  lemma {:induction false} DeltasFitUnlessOverflow(rel: Relation, row: Row, ch: Change)
    requires ValidRelation(rel) && |row.cols| == rel.natts && ValidTuple(rel, ch.oldtup) && ValidTuple(rel, ch.newtup)
    ensures HasDelta(rel) && !DeltasFit(rel, row, ch) <==> exists a :: 0 <= a < rel.natts && Overflows(rel, row, ch, a)
  {
    if !DeltasFit(rel, row, ch) {
      var i :| 0 <= i < |rel.attmap| && rel.delta[rel.attmap[i]] != NoDelta
        && DeltaValue(rel, row, ch, rel.attmap[i]).Err?;
      assert Overflows(rel, row, ch, rel.attmap[i]);
    }
    if a :| 0 <= a < rel.natts && Overflows(rel, row, ch, a) {
      var i :| 0 <= i < |rel.attmap| && rel.attmap[i] == a;
      assert DeltaValue(rel, row, ch, rel.attmap[i]).Err?;
    }
  }

  lemma {:induction false} FinalRowWrites(rel: Relation, row: Row, ch: Change, wins: bool)
    requires ValidRelation(rel) && |row.cols| == rel.natts && ValidTuple(rel, ch.oldtup) && ValidTuple(rel, ch.newtup)
    requires HasDelta(rel) ==> DeltasFit(rel, row, ch)
    ensures var w := FinalRow(rel, row, ch, wins);
      && OrdinaryWritten(rel, row, ch, wins, w) && DeltasWritten(rel, row, ch, w) && UnmappedWritten(rel, row, w)
  {
    forall a | 0 <= a < rel.natts && a in rel.attmap && rel.delta[a] != NoDelta
      ensures HasDelta(rel) && DeltaValue(rel, row, ch, a).Ok?
    {
      var i :| 0 <= i < |rel.attmap| && rel.attmap[i] == a;
    }
  }

  /** The row written, column by column, for any change, full or partial; and when an error is raised. */
  lemma {:induction false} ApplyChangeWrites(cfg: Config, rel: Relation, row: Row, ch: Change)
    requires ValidInput(cfg, rel, row, ch)
    ensures var r := ApplyChange(cfg, rel, row, ch);
      && (r.Ok? ==> Written(cfg, rel, row, ch, r.value))
      && (r.Err? <==> cfg.resolver == Error || exists a :: 0 <= a < rel.natts && Overflows(rel, row, ch, a))
  {
    DeltasFitUnlessOverflow(rel, row, ch);
    var r := ApplyChange(cfg, rel, row, ch);
    if r.Ok? {
      var wins := RemoteWins(cfg, row, ch);
      assert Resolve(cfg, row, ch) == Ok(wins);
      FinalRowWrites(rel, row, ch, wins);
    }
  }

  // ---------- the code that computes it ----------

  /** `build_delta_tuple`: fills the three arrays for the mapped attributes; false when a delta
      function raised an error. */
  method BuildDeltaTuple(rel: Relation, row: Row, ch: Change, values: array<int>, nulls: array<bool>,
                         changed: array<bool>)
    returns (ok: bool)
    requires ValidRelation(rel) && |row.cols| == rel.natts && ValidTuple(rel, ch.oldtup) && ValidTuple(rel, ch.newtup)
    requires values.Length == nulls.Length == changed.Length == rel.natts
    requires nulls != changed
    modifies values, nulls, changed
    ensures ok == DeltasFit(rel, row, ch)
    ensures ok ==> forall i :: 0 <= i < |rel.attmap| ==>
      var a := rel.attmap[i];
      changed[a] == (rel.delta[a] != NoDelta) &&
      (rel.delta[a] != NoDelta ==> !nulls[a] && DeltaValue(rel, row, ch, a) == Ok(values[a]))
    ensures ok ==> forall i :: 0 <= i < |rel.attmap| && rel.delta[rel.attmap[i]] != NoDelta ==>
      var a := rel.attmap[i];
      values[a] == if ch.oldtup.nulls[a] then ch.newtup.values[a]
                   else Datum(row.cols[a]) + ch.newtup.values[a] - ch.oldtup.values[a]
  {
    for i := 0 to rel.natts {
      values[i], nulls[i] := 0, true;
    }
    for i := 0 to |rel.attmap|
      invariant forall j :: 0 <= j < i ==>
        var a := rel.attmap[j];
        changed[a] == (rel.delta[a] != NoDelta) &&
        (rel.delta[a] != NoDelta ==> !nulls[a] && DeltaValue(rel, row, ch, a) == Ok(values[a]))
    {
      var a := rel.attmap[i];
      if rel.delta[a] == NoDelta {
        values[a], nulls[a], changed[a] := 0xdeadbeef, true, false;
        continue;
      }
      if ch.oldtup.nulls[a] {
        values[a], nulls[a], changed[a] := ch.newtup.values[a], false, true;
      } else {
        var result := DeltaApply(rel.delta[a], ch.oldtup.values[a], ch.newtup.values[a], Datum(row.cols[a]));
        if result.Err? {
          assert DeltaValue(rel, row, ch, a).Err?;
          return false;
        }
        values[a], nulls[a], changed[a] := result.value, false, true;
      }
    }
    ok := true;
  }

  /** `slot_modify_data`: a copy of the source slot with the changed mapped columns replaced. */
  method SlotModifyData(rel: Relation, src: seq<Cell>, ch: Change, slot: array<Cell>)
    requires ValidRelation(rel) && |src| == rel.natts && ValidTuple(rel, ch.newtup) && slot.Length == rel.natts
    modifies slot
    ensures forall a :: 0 <= a < rel.natts ==> slot[a] == ReplacedCell(rel, src, ch, a)
    ensures forall a :: 0 <= a < rel.natts && a in rel.attmap && ch.newtup.changed[a] ==>
      slot[a] == if ch.newtup.nulls[a] then Null else Val(ch.newtup.values[a])
    ensures forall a :: 0 <= a < rel.natts && (a !in rel.attmap || !ch.newtup.changed[a]) ==> slot[a] == src[a]
  {
    forall a | 0 <= a < rel.natts {
      slot[a] := src[a];
    }
    for i := 0 to |rel.attmap|
      invariant forall a :: 0 <= a < rel.natts ==>
        slot[a] == if a in rel.attmap[..i] && ch.newtup.changed[a] then NewCell(ch, a) else src[a]
    {
      assert rel.attmap[..i + 1] == rel.attmap[..i] + [rel.attmap[i]];
      var a := rel.attmap[i];
      if ch.newtup.changed[a] {
        slot[a] := if ch.newtup.nulls[a] then Null else Val(ch.newtup.values[a]);
      }
    }
    assert rel.attmap[..|rel.attmap|] == rel.attmap;
  }

  /** `heap_modify_tuple` over the current tuple, then `slot_store_htup` into the target slot. */
  method StoreDeltas(rel: Relation, current: seq<Cell>, values: array<int>, nulls: array<bool>, changed: array<bool>,
                     slot: array<Cell>)
    requires ValidRelation(rel) && |current| == rel.natts
    requires values.Length == nulls.Length == changed.Length == slot.Length == rel.natts
    modifies slot
    ensures forall a :: 0 <= a < rel.natts ==>
      slot[a] == if a !in rel.attmap then Null
                 else if !changed[a] then current[a]
                 else if nulls[a] then Null else Val(values[a])
  {
    forall a | 0 <= a < rel.natts {
      slot[a] := Null;
    }
    for i := 0 to |rel.attmap|
      invariant forall a :: 0 <= a < rel.natts ==>
        slot[a] == if a !in rel.attmap[..i] then Null
                   else if !changed[a] then current[a]
                   else if nulls[a] then Null else Val(values[a])
    {
      assert rel.attmap[..i + 1] == rel.attmap[..i] + [rel.attmap[i]];
      var a := rel.attmap[i];
      slot[a] := if !changed[a] then current[a] else if nulls[a] then Null else Val(values[a]);
    }
    assert rel.attmap[..|rel.attmap|] == rel.attmap;
  }

  method ConflictResolveByTimestamp(cfg: Config, local: Row, ch: Change, lastUpdateWins: bool) returns (apply: bool)
    requires ch.origin in cfg.tiebreakers
    ensures apply == ResolveByTimestamp(cfg, local, ch, lastUpdateWins)
    ensures apply == RemoteWins(cfg.(resolver := if lastUpdateWins then LastUpdateWins else FirstUpdateWins), local, ch)
  {
    var cmp := if ch.ts < local.ts then -1 else if ch.ts > local.ts then 1 else 0;
    if !lastUpdateWins {
      cmp := -cmp;
    }
    if cmp > 0 {
      return true;
    } else if cmp < 0 {
      return false;
    }
    if local.origin != INVALID_ORIGIN && local.origin == ch.origin {
      return true;
    }
    var remote := cfg.tiebreakers[ch.origin];
    if cfg.tiebreaker == remote {
      return true;
    }
    return !(cfg.tiebreaker < remote);
  }

  method TryResolveConflict(cfg: Config, local: Row, ch: Change) returns (apply: Result<bool>)
    requires ch.origin in cfg.tiebreakers
    ensures apply == Resolve(cfg, local, ch) == if cfg.resolver == Error then Err else Ok(RemoteWins(cfg, local, ch))
  {
    match cfg.resolver
    case Error => apply := Err;
    case ApplyRemote => apply := Ok(true);
    case KeepLocal => apply := Ok(false);
    case LastUpdateWins => var b := ConflictResolveByTimestamp(cfg, local, ch, true); apply := Ok(b);
    case FirstUpdateWins => var b := ConflictResolveByTimestamp(cfg, local, ch, false); apply := Ok(b);
  }

  /** `spock_handle_conflict_and_apply`: the stored row after the call, or the error it raised. */
  method HandleConflictAndApply(cfg: Config, rel: Relation, row: Row, ch: Change) returns (r: Result<Row>)
    requires ValidInput(cfg, rel, row, ch)
    ensures r == ApplyChange(cfg, rel, row, ch)
    ensures r.Ok? ==> Written(cfg, rel, row, ch, r.value)
    ensures r.Err? <==> cfg.resolver == Error || exists a :: 0 <= a < rel.natts && Overflows(rel, row, ch, a)
  {
    ApplyChangeWrites(cfg, rel, row, ch);
    var resolved := TryResolveConflict(cfg, row, ch);
    if resolved.Err? {
      return Err;
    }
    var apply := resolved.value;
    var remoteslot := new Cell[rel.natts](i => Null);
    if apply {
      SlotModifyData(rel, row.cols, ch, remoteslot);
    }
    var isDeltaApply := false;
    if HasDelta(rel) {
      var current := if apply then remoteslot[..] else row.cols;
      var values, nulls := new int[rel.natts](i => 0), new bool[rel.natts](i => true);
      var changed := new bool[rel.natts](i => false);
      var ok := BuildDeltaTuple(rel, row, ch, values, nulls, changed);
      if !ok {
        return Err;
      }
      if !apply {
        apply, isDeltaApply := true, true;
      }
      StoreDeltas(rel, current, values, nulls, changed, remoteslot);
      forall a | 0 <= a < rel.natts ensures remoteslot[a] == FinalCell(rel, row, ch, !isDeltaApply, a) {
        if a in rel.attmap {
          var i :| 0 <= i < |rel.attmap| && rel.attmap[i] == a;
        }
      }
    }
    if !apply {
      return Ok(row);
    }
    r := Ok(if isDeltaApply then Row(remoteslot[..], row.ts, row.origin) else Row(remoteslot[..], ch.ts, ch.origin));
    assert r.value.cols == FinalRow(rel, row, ch, !isDeltaApply).cols;
  }

  /** `init_tuple_with_defaults`: an INSERT that meets an existing row is applied as an UPDATE whose old
      values are zero. */
  function InsertAsUpdate(newtup: TupleData, ts: int, origin: nat): Change {
    var n := |newtup.values|;
    Change(TupleData(seq(n, _ => 0), seq(n, _ => false), seq(n, _ => false)), newtup, ts, origin)
  }
}
