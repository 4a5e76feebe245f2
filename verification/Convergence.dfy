/** Every delivery order of a set of full-row changes with distinct timestamps leaves the same row:
    ordinary columns of the winning timestamp, counters equal to the start value plus every
    difference. */
module Convergence {
  import opened RowConflict

  /** All columns are mapped and sent, and old values of delta columns were logged. */
  ghost predicate FullRow(rel: Relation, ch: Change) {
    && ValidRelation(rel) && ValidTuple(rel, ch.oldtup) && ValidTuple(rel, ch.newtup)
    && (forall a :: 0 <= a < rel.natts ==> a in rel.attmap && ch.newtup.changed[a])
    && (forall a :: 0 <= a < rel.natts && rel.delta[a] != NoDelta ==> !ch.oldtup.nulls[a])
  }

  ghost predicate Deliverable(cfg: Config, rel: Relation, row: Row, chs: seq<Change>) {
    && ValidRelation(rel) && |row.cols| == rel.natts && cfg.resolver in {LastUpdateWins, FirstUpdateWins}
    && (forall i :: 0 <= i < |chs| ==> FullRow(rel, chs[i]) && chs[i].origin in cfg.tiebreakers)
    && (forall i :: 0 <= i < |chs| ==> chs[i].ts != row.ts)
    && (forall i, j :: 0 <= i < j < |chs| ==> chs[i].ts != chs[j].ts)
  }

  /** The row after the changes were applied in the given order, or an error if one of them failed. */
  ghost function Deliver(cfg: Config, rel: Relation, row: Row, chs: seq<Change>): (r: Result<Row>)
    requires Deliverable(cfg, rel, row, chs)
    ensures r.Ok? ==> |r.value.cols| == rel.natts
  {
    if chs == [] then Ok(row)
    else
      var before := Deliver(cfg, rel, row, chs[..|chs| - 1]);
      if before.Err? then Err else ApplyChange(cfg, rel, before.value, chs[|chs| - 1])
  }

  // ---------- the order-free description ----------

  function Sum(chs: seq<Change>, f: Change -> int): int {
    if chs == [] then 0 else Sum(chs[..|chs| - 1], f) + f(chs[|chs| - 1])
  }

  function Diff(a: nat): Change -> int {
    (ch: Change) =>
      if a < |ch.newtup.values| && a < |ch.oldtup.values| then ch.newtup.values[a] - ch.oldtup.values[a] else 0
  }

  function AbsDiff(a: nat): Change -> int {
    (ch: Change) => var d := Diff(a)(ch); if d < 0 then -d else d
  }

  function Abs(x: int): int { if x < 0 then -x else x }

  /** The start value and all differences fit the column type together. */
  ghost predicate NoOverflow(rel: Relation, row: Row, chs: seq<Change>) {
    ValidRelation(rel) && |row.cols| == rel.natts &&
    forall a :: 0 <= a < rel.natts ==> Fits(rel.delta[a], Abs(Datum(row.cols[a])) + Sum(chs, AbsDiff(a)))
  }

  /** The row version that a change brings. */
  function Image(rel: Relation, ch: Change): Row
    requires ValidTuple(rel, ch.newtup)
  {
    Row(seq(rel.natts, a requires 0 <= a < rel.natts => NewCell(ch, a)), ch.ts, ch.origin)
  }

  predicate Beats(cfg: Config, ts: int, other: int) {
    if cfg.resolver.LastUpdateWins? then other < ts else ts < other
  }

  /** `w` is the version the resolver prefers among the start row and the changes. */
  ghost predicate IsWinner(cfg: Config, rel: Relation, row: Row, chs: seq<Change>, w: Row)
    requires Deliverable(cfg, rel, row, chs)
  {
    && (w == row || exists i :: 0 <= i < |chs| && w == Image(rel, chs[i]))
    && (w == row || Beats(cfg, w.ts, row.ts))
    && (forall i :: 0 <= i < |chs| ==> w == Image(rel, chs[i]) || Beats(cfg, w.ts, chs[i].ts))
  }

  /** Ordinary columns, timestamp and origin are those of `w`. */
  ghost predicate Follows(rel: Relation, r: Row, w: Row) {
    && |rel.delta| == rel.natts && |r.cols| == |w.cols| == rel.natts && r.ts == w.ts && r.origin == w.origin
    && forall a :: 0 <= a < rel.natts && rel.delta[a] == NoDelta ==> r.cols[a] == w.cols[a]
  }

  /** Counters stand at the start value plus all differences. */
  ghost predicate Counts(rel: Relation, row: Row, chs: seq<Change>, r: Row) {
    && |rel.delta| == rel.natts && |r.cols| == |row.cols| == rel.natts
    && forall a :: 0 <= a < rel.natts && rel.delta[a] != NoDelta ==>
         r.cols[a] == if chs == [] then row.cols[a] else Val(Datum(row.cols[a]) + Sum(chs, Diff(a)))
  }

  ghost predicate IsMerged(cfg: Config, rel: Relation, row: Row, chs: seq<Change>, r: Row)
    requires Deliverable(cfg, rel, row, chs)
  {
    Counts(rel, row, chs, r) && exists w :: IsWinner(cfg, rel, row, chs, w) && Follows(rel, r, w)
  }

  // ---------- one more change ----------

  lemma {:induction false} SumSnoc(chs: seq<Change>, ch: Change, f: Change -> int)
    ensures Sum(chs + [ch], f) == Sum(chs, f) + f(ch)
  {
    assert (chs + [ch])[..|chs|] == chs;
  }

  lemma {:induction false} SumBounds(chs: seq<Change>, a: nat)
    ensures Abs(Sum(chs, Diff(a))) <= Sum(chs, AbsDiff(a))
  {
    if chs == [] {
    } else {
      SumBounds(chs[..|chs| - 1], a);
    }
  }

  lemma {:induction false} NextDeltaFits(rel: Relation, row: Row, chs: seq<Change>, ch: Change, cur: Row, a: nat)
    requires NoOverflow(rel, row, chs + [ch]) && FullRow(rel, ch) && |cur.cols| == rel.natts
    requires a < rel.natts && rel.delta[a] != NoDelta
    requires Datum(cur.cols[a]) == Datum(row.cols[a]) + Sum(chs, Diff(a))
    ensures DeltaValue(rel, cur, ch, a) == Ok(Datum(row.cols[a]) + Sum(chs + [ch], Diff(a)))
  {
    SumSnoc(chs, ch, Diff(a));
    SumSnoc(chs, ch, AbsDiff(a));
    SumBounds(chs, a);
    SumBounds(chs + [ch], a);
  }

  lemma {:induction false} PrefixFits(rel: Relation, row: Row, chs: seq<Change>, ch: Change)
    requires NoOverflow(rel, row, chs + [ch])
    ensures NoOverflow(rel, row, chs)
  {
    forall a | 0 <= a < rel.natts ensures Fits(rel.delta[a], Abs(Datum(row.cols[a])) + Sum(chs, AbsDiff(a))) {
      SumSnoc(chs, ch, AbsDiff(a));
      SumBounds(chs, a);
    }
  }

  lemma {:induction false} WinnerStep(cfg: Config, rel: Relation, row: Row, chs: seq<Change>, ch: Change, w: Row)
    requires Deliverable(cfg, rel, row, chs + [ch]) && Deliverable(cfg, rel, row, chs)
    requires IsWinner(cfg, rel, row, chs, w) && FullRow(rel, ch)
    ensures w.ts != ch.ts
    ensures IsWinner(cfg, rel, row, chs + [ch], if Beats(cfg, ch.ts, w.ts) then Image(rel, ch) else w)
  {
    var all := chs + [ch];
    assert all[|chs|] == ch;
    var w' := if Beats(cfg, ch.ts, w.ts) then Image(rel, ch) else w;
    if w != row {
      var i :| 0 <= i < |chs| && w == Image(rel, chs[i]);
      assert all[i] == chs[i] && w == Image(rel, all[i]);
    }
    forall i | 0 <= i < |all| ensures w' == Image(rel, all[i]) || Beats(cfg, w'.ts, all[i].ts) {
      assert i < |chs| ==> all[i] == chs[i];
    }
  }

  lemma {:induction false} AllDeltasFit(rel: Relation, row: Row, chs: seq<Change>, ch: Change, cur: Row)
    requires NoOverflow(rel, row, chs + [ch]) && FullRow(rel, ch) && Counts(rel, row, chs, cur)
    ensures DeltasFit(rel, cur, ch)
    ensures forall a :: 0 <= a < rel.natts && rel.delta[a] != NoDelta ==>
      DeltaValue(rel, cur, ch, a) == Ok(Datum(row.cols[a]) + Sum(chs + [ch], Diff(a)))
  {
    forall a | 0 <= a < rel.natts && rel.delta[a] != NoDelta
      ensures DeltaValue(rel, cur, ch, a) == Ok(Datum(row.cols[a]) + Sum(chs + [ch], Diff(a)))
    {
      NextDeltaFits(rel, row, chs, ch, cur, a);
    }
  }

  /** One application: the winner's ordinary columns, and every counter moved by the change's difference. */
  lemma {:induction false} FinalRowEffect(rel: Relation, ch: Change, cur: Row, w: Row, wins: bool)
    requires FullRow(rel, ch) && |cur.cols| == rel.natts && DeltasFit(rel, cur, ch) && Follows(rel, cur, w)
    ensures Follows(rel, FinalRow(rel, cur, ch, wins), if wins then Image(rel, ch) else w)
    ensures forall a :: 0 <= a < rel.natts && rel.delta[a] != NoDelta ==>
      FinalRow(rel, cur, ch, wins).cols[a] == Val(Datum(cur.cols[a]) + Diff(a)(ch))
  {
    forall a | 0 <= a < rel.natts && rel.delta[a] != NoDelta
      ensures FinalRow(rel, cur, ch, wins).cols[a] == Val(Datum(cur.cols[a]) + Diff(a)(ch))
    {
      assert HasDelta(rel) && a in rel.attmap;
    }
  }

  lemma {:induction false} FinalRowMerges(rel: Relation, row: Row, chs: seq<Change>, ch: Change, cur: Row, w: Row,
                                          wins: bool)
    requires NoOverflow(rel, row, chs + [ch]) && FullRow(rel, ch)
    requires Counts(rel, row, chs, cur) && Follows(rel, cur, w)
    ensures Counts(rel, row, chs + [ch], FinalRow(rel, cur, ch, wins))
    ensures Follows(rel, FinalRow(rel, cur, ch, wins), if wins then Image(rel, ch) else w)
  {
    AllDeltasFit(rel, row, chs, ch, cur);
    FinalRowEffect(rel, ch, cur, w, wins);
    forall a | 0 <= a < rel.natts && rel.delta[a] != NoDelta
      ensures FinalRow(rel, cur, ch, wins).cols[a] == Val(Datum(row.cols[a]) + Sum(chs + [ch], Diff(a)))
    {
      SumSnoc(chs, ch, Diff(a));
    }
  }

  lemma {:induction false} ApplyFollowsTimestamps(cfg: Config, rel: Relation, cur: Row, ch: Change)
    requires cfg.resolver in {LastUpdateWins, FirstUpdateWins} && ValidInput(cfg, rel, cur, ch)
    requires cur.ts != ch.ts && DeltasFit(rel, cur, ch)
    ensures ApplyChange(cfg, rel, cur, ch) == Ok(FinalRow(rel, cur, ch, Beats(cfg, ch.ts, cur.ts)))
  {
    assert Resolve(cfg, cur, ch) == Ok(Beats(cfg, ch.ts, cur.ts));
  }

  lemma {:induction false} MergeStep(cfg: Config, rel: Relation, row: Row, chs: seq<Change>, ch: Change, cur: Row)
    requires Deliverable(cfg, rel, row, chs + [ch]) && Deliverable(cfg, rel, row, chs)
    requires FullRow(rel, ch) && ch.origin in cfg.tiebreakers
    requires NoOverflow(rel, row, chs + [ch]) && IsMerged(cfg, rel, row, chs, cur)
    ensures ApplyChange(cfg, rel, cur, ch).Ok?
    ensures IsMerged(cfg, rel, row, chs + [ch], ApplyChange(cfg, rel, cur, ch).value)
  {
    var w :| IsWinner(cfg, rel, row, chs, w) && Follows(rel, cur, w);
    var wins := Beats(cfg, ch.ts, w.ts);
    WinnerStep(cfg, rel, row, chs, ch, w);
    AllDeltasFit(rel, row, chs, ch, cur);
    ApplyFollowsTimestamps(cfg, rel, cur, ch);
    FinalRowMerges(rel, row, chs, ch, cur, w, wins);
  }

  // ---------- main results ----------

  /** In range, delivery in any order succeeds and produces the merged row. */
  lemma {:induction false} DeliverMerges(cfg: Config, rel: Relation, row: Row, chs: seq<Change>)
    requires Deliverable(cfg, rel, row, chs) && NoOverflow(rel, row, chs)
    ensures Deliver(cfg, rel, row, chs).Ok? && IsMerged(cfg, rel, row, chs, Deliver(cfg, rel, row, chs).value)
  {
    if chs == [] {
      assert IsWinner(cfg, rel, row, chs, row) && Follows(rel, row, row);
    } else {
      var front, last := chs[..|chs| - 1], chs[|chs| - 1];
      assert chs == front + [last];
      assert Deliverable(cfg, rel, row, front);
      assert FullRow(rel, chs[|chs| - 1]) && last.origin in cfg.tiebreakers;
      PrefixFits(rel, row, front, last);
      DeliverMerges(cfg, rel, row, front);
      MergeStep(cfg, rel, row, front, last, Deliver(cfg, rel, row, front).value);
    }
  }

  lemma {:induction false} SumWithout(chs: seq<Change>, i: nat, f: Change -> int)
    requires i < |chs|
    ensures Sum(chs, f) == Sum(chs[..i] + chs[i + 1..], f) + f(chs[i])
  {
    var front, last := chs[..|chs| - 1], chs[|chs| - 1];
    if i == |chs| - 1 {
      assert chs[..i] + chs[i + 1..] == front;
    } else {
      SumWithout(front, i, f);
      assert chs[..i] + chs[i + 1..] == (front[..i] + front[i + 1..]) + [last];
      SumSnoc(front[..i] + front[i + 1..], last, f);
    }
  }

  lemma {:induction false} WithoutAsMultiset(chs: seq<Change>, i: nat)
    requires i < |chs|
    ensures multiset(chs) == multiset(chs[..i] + chs[i + 1..]) + multiset{chs[i]}
  {
    assert chs == chs[..i] + [chs[i]] + chs[i + 1..];
  }

  lemma {:induction false} SameMembers(xs: seq<Change>, ys: seq<Change>, i: nat) returns (j: nat)
    requires multiset(xs) == multiset(ys) && i < |xs|
    ensures j < |ys| && ys[j] == xs[i]
  {
    assert xs[i] in multiset(xs);
    j :| 0 <= j < |ys| && ys[j] == xs[i];
  }

  lemma {:induction false} SumPermutes(xs: seq<Change>, ys: seq<Change>, f: Change -> int)
    requires multiset(xs) == multiset(ys)
    ensures Sum(xs, f) == Sum(ys, f)
    decreases |xs|
  {
    if xs == [] {
      assert |multiset(ys)| == 0;
    } else {
      var n := |xs| - 1;
      var i := SameMembers(xs, ys, n);
      var front, rest := xs[..n] + xs[n + 1..], ys[..i] + ys[i + 1..];
      assert multiset(front) == multiset(rest) by {
        WithoutAsMultiset(xs, n);
        WithoutAsMultiset(ys, i);
        assert multiset(front) == multiset(xs) - multiset{xs[n]};
        assert multiset(rest) == multiset(ys) - multiset{ys[i]};
      }
      SumPermutes(front, rest, f);
      SumWithout(xs, n, f);
      SumWithout(ys, i, f);
    }
  }

  lemma {:induction false} WinnerTransfers(cfg: Config, rel: Relation, row: Row, xs: seq<Change>, ys: seq<Change>,
                                           w: Row)
    requires Deliverable(cfg, rel, row, xs) && Deliverable(cfg, rel, row, ys) && multiset(xs) == multiset(ys)
    requires IsWinner(cfg, rel, row, xs, w)
    ensures IsWinner(cfg, rel, row, ys, w)
  {
    if w != row {
      var i :| 0 <= i < |xs| && w == Image(rel, xs[i]);
      var j := SameMembers(xs, ys, i);
      assert w == Image(rel, ys[j]);
    }
    forall j | 0 <= j < |ys| ensures w == Image(rel, ys[j]) || Beats(cfg, w.ts, ys[j].ts) {
      var i := SameMembers(ys, xs, j);
    }
  }

  lemma {:induction false} WinnerUnique(cfg: Config, rel: Relation, row: Row, chs: seq<Change>, w: Row, v: Row)
    requires Deliverable(cfg, rel, row, chs)
    requires IsWinner(cfg, rel, row, chs, w) && IsWinner(cfg, rel, row, chs, v)
    ensures w == v
  {
    if w != row {
      var i :| 0 <= i < |chs| && w == Image(rel, chs[i]);
      assert v == Image(rel, chs[i]) || Beats(cfg, v.ts, chs[i].ts);
    }
    if v != row {
      var j :| 0 <= j < |chs| && v == Image(rel, chs[j]);
      assert w == Image(rel, chs[j]) || Beats(cfg, w.ts, chs[j].ts);
    }
  }

  lemma {:induction false} MergedUnique(cfg: Config, rel: Relation, row: Row, xs: seq<Change>, ys: seq<Change>,
                                        r: Row, q: Row)
    requires Deliverable(cfg, rel, row, xs) && Deliverable(cfg, rel, row, ys) && multiset(xs) == multiset(ys)
    requires IsMerged(cfg, rel, row, xs, r) && IsMerged(cfg, rel, row, ys, q)
    ensures r == q
  {
    var w :| IsWinner(cfg, rel, row, xs, w) && Follows(rel, r, w);
    var v :| IsWinner(cfg, rel, row, ys, v) && Follows(rel, q, v);
    WinnerTransfers(cfg, rel, row, ys, xs, v);
    WinnerUnique(cfg, rel, row, xs, w, v);
    assert |multiset(xs)| == |xs| && |multiset(ys)| == |ys|;
    forall a | 0 <= a < rel.natts && rel.delta[a] != NoDelta ensures r.cols[a] == q.cols[a] {
      SumPermutes(xs, ys, Diff(a));
    }
    assert r.cols == q.cols;
  }

  lemma {:induction false} RangePermutes(rel: Relation, row: Row, xs: seq<Change>, ys: seq<Change>)
    requires multiset(xs) == multiset(ys) && NoOverflow(rel, row, xs)
    ensures NoOverflow(rel, row, ys)
  {
    forall a | 0 <= a < rel.natts ensures Fits(rel.delta[a], Abs(Datum(row.cols[a])) + Sum(ys, AbsDiff(a))) {
      SumPermutes(xs, ys, AbsDiff(a));
    }
  }

  /** Any two delivery orders of the same changes succeed and end in the same row. */
  lemma {:induction false} DeliveryOrderIrrelevant(cfg: Config, rel: Relation, row: Row, xs: seq<Change>,
                                                   ys: seq<Change>)
    requires multiset(xs) == multiset(ys)
    requires Deliverable(cfg, rel, row, xs) && Deliverable(cfg, rel, row, ys) && NoOverflow(rel, row, xs)
    ensures Deliver(cfg, rel, row, xs).Ok? && Deliver(cfg, rel, row, xs) == Deliver(cfg, rel, row, ys)
  {
    RangePermutes(rel, row, xs, ys);
    DeliverMerges(cfg, rel, row, xs);
    DeliverMerges(cfg, rel, row, ys);
    MergedUnique(cfg, rel, row, xs, ys, Deliver(cfg, rel, row, xs).value, Deliver(cfg, rel, row, ys).value);
  }

  /** A full-row INSERT that meets an existing row counts among such changes; its whole value is added to
      each counter. */
  lemma {:induction false} InsertIsFullRow(rel: Relation, newtup: TupleData, ts: int, origin: nat)
    requires ValidRelation(rel) && ValidTuple(rel, newtup)
    requires forall a :: 0 <= a < rel.natts ==> a in rel.attmap && newtup.changed[a]
    ensures var ch := InsertAsUpdate(newtup, ts, origin);
      FullRow(rel, ch) && forall a :: 0 <= a < rel.natts ==> Diff(a)(ch) == newtup.values[a]
  {
    var ch := InsertAsUpdate(newtup, ts, origin);
    assert ch.newtup == newtup && |ch.oldtup.values| == |newtup.values|;
  }
}
