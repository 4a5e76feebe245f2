/** Which objects go when one is dropped: a depth-first walk over recorded dependencies, cycles allowed,
    that lists dependents before what they depend on and merges the kinds of all edges it meets. */
module Dependency {

  datatype Obj = Obj(classId: nat, objectId: nat)

  datatype Kind = Normal | Auto

  /** `dep` depends on `ref`. */
  datatype Row = Row(dep: Obj, ref: Obj, kind: Kind)

  datatype Flag = Original | ByNormal | ByAuto

  function FlagOf(k: Kind): Flag {
    if k == Normal then ByNormal else ByAuto
  }

  // ---------- dependents ----------

  /** `y` is a dependent of `x` at distance `n`. */
  ghost predicate ReachIn(rows: seq<Row>, x: Obj, y: Obj, n: nat)
    decreases n
  {
    if n == 0 then x == y
    else exists i :: 0 <= i < |rows| && rows[i].dep == y && ReachIn(rows, x, rows[i].ref, n - 1)
  }

  ghost predicate Reach(rows: seq<Row>, x: Obj, y: Obj) {
    exists n: nat :: ReachIn(rows, x, y, n)
  }

  lemma {:induction false} ReachStep(rows: seq<Row>, x: Obj, i: nat)
    requires i < |rows| && Reach(rows, x, rows[i].ref)
    ensures Reach(rows, x, rows[i].dep)
  {
    var n: nat :| ReachIn(rows, x, rows[i].ref, n);
    assert ReachIn(rows, x, rows[i].dep, n + 1);
  }

  /** A set closed under dependents holds every transitive dependent of its members. */
  lemma {:induction false} ClosedHoldsReachable(rows: seq<Row>, s: seq<Obj>, x: Obj, y: Obj, n: nat)
    requires x in s && ReachIn(rows, x, y, n)
    requires forall i :: 0 <= i < |rows| && rows[i].ref in s ==> rows[i].dep in s
    ensures y in s
    decreases n
  {
    if n == 0 {
    } else {
      var i :| 0 <= i < |rows| && rows[i].dep == y && ReachIn(rows, x, rows[i].ref, n - 1);
      ClosedHoldsReachable(rows, s, x, rows[i].ref, n - 1);
    }
  }

  /** The same as a relation, and the two facts about it that the walk uses. */
  ghost function Reachability(rows: seq<Row>): iset<(Obj, Obj)> {
    iset x, y | Reach(rows, x, y) :: (x, y)
  }

  ghost predicate Closed(rows: seq<Row>, reach: iset<(Obj, Obj)>) {
    && (forall x :: (x, x) in reach)
    && (forall x, i :: 0 <= i < |rows| && (x, rows[i].ref) in reach ==> (x, rows[i].dep) in reach)
  }

  lemma {:induction false} ReachabilityClosed(rows: seq<Row>)
    ensures Closed(rows, Reachability(rows))
  {
    forall x: Obj ensures (x, x) in Reachability(rows) {
      assert ReachIn(rows, x, x, 0);
    }
    forall x, i | 0 <= i < |rows| && (x, rows[i].ref) in Reachability(rows)
      ensures (x, rows[i].dep) in Reachability(rows)
    {
      ReachStep(rows, x, i);
    }
  }

  /** All objects there are. */
  function Universe(rows: seq<Row>, root: Obj): set<Obj> {
    {root} + set r | r in rows :: r.dep
  }

  // ---------- invariant of the walk ----------

  ghost predicate NoDup(s: seq<Obj>) {
    forall i, j :: 0 <= i < j < |s| ==> s[i] != s[j]
  }

  ghost predicate Disjoint(s: seq<Obj>, t: seq<Obj>) {
    forall x :: x in s ==> x !in t
  }

  ghost predicate Edge(rows: seq<Row>, st: seq<Obj>, k: nat)
    requires 0 < k < |st|
  {
    exists i :: 0 <= i < |rows| && rows[i].ref == st[k - 1] && rows[i].dep == st[k]
  }

  /** Each object on the stack is a direct dependent of the one below it. */
  ghost predicate Chained(rows: seq<Row>, st: seq<Obj>) {
    forall k :: 0 < k < |st| ==> Edge(rows, st, k)
  }

  /** `done`: edges taken so far.  Both ends were visited, except perhaps the object about to be. */
  ghost predicate Taken(rows: seq<Row>, st: seq<Obj>, tg: seq<Obj>, done: set<nat>, pending: seq<Obj>) {
    forall i :: i in done ==>
      i < |rows| && (rows[i].ref in st || rows[i].ref in tg)
      && (rows[i].dep in st || rows[i].dep in tg || rows[i].dep in pending)
  }

  ghost predicate Exhausted(rows: seq<Row>, o: Obj, done: set<nat>, n: nat) {
    forall i :: 0 <= i < n && i < |rows| && rows[i].ref == o ==> i in done
  }

  /** Every edge into a listed object comes from one listed earlier, unless it lies on a cycle. */
  ghost predicate InOrder(rows: seq<Row>, reach: iset<(Obj, Obj)>, tg: seq<Obj>) {
    forall p, i :: 0 <= p < |tg| && 0 <= i < |rows| && rows[i].ref == tg[p] ==>
      rows[i].dep in tg[..p] || (rows[i].dep, tg[p]) in reach
  }

  ghost predicate Shape(rows: seq<Row>, reach: iset<(Obj, Obj)>, root: Obj, st: seq<Obj>, tg: seq<Obj>,
                        done: set<nat>, pending: seq<Obj>)
  {
    && NoDup(st) && NoDup(tg) && Disjoint(st, tg)
    && Chained(rows, st)
    && Taken(rows, st, tg, done, pending)
    && (forall o :: o in tg ==> Exhausted(rows, o, done, |rows|))
    && InOrder(rows, reach, tg)
    && (forall o :: o in st || o in tg ==> (root, o) in reach)
  }

  /** What an object's flags must be once the edges in `done` were taken. */
  function Owed(rows: seq<Row>, root: Obj, done: set<nat>, o: Obj): set<Flag> {
    (if o == root then {Original} else {})
    + set i | i in done && i < |rows| && rows[i].dep == o :: FlagOf(rows[i].kind)
  }

  /** All flags are as owed; those of `o` only after `f` is added. */
  ghost predicate FlagsOwed(rows: seq<Row>, root: Obj, done: set<nat>, objs: seq<Obj>, flags: seq<set<Flag>>, o: Obj,
                            f: set<Flag>)
  {
    && |flags| == |objs|
    && forall k :: 0 <= k < |objs| ==>
         Owed(rows, root, done, objs[k]) == if objs[k] == o then flags[k] + f else flags[k]
  }

  // ---------- steps ----------

  lemma {:induction false} ChainReaches(rows: seq<Row>, reach: iset<(Obj, Obj)>, st: seq<Obj>, a: nat, b: nat)
    requires Closed(rows, reach) && Chained(rows, st) && a <= b < |st|
    ensures (st[a], st[b]) in reach
  {
    if a == b {
    } else {
      ChainReaches(rows, reach, st, a, b - 1);
      assert Edge(rows, st, b);
    }
  }

  lemma {:induction false} PushKeepsShape(rows: seq<Row>, reach: iset<(Obj, Obj)>, root: Obj, st: seq<Obj>,
                                          tg: seq<Obj>, done: set<nat>, o: Obj)
    requires Shape(rows, reach, root, st, tg, done, [o]) && o !in st && o !in tg && (root, o) in reach
    requires st == [] || exists i :: 0 <= i < |rows| && rows[i].ref == st[|st| - 1] && rows[i].dep == o
    ensures Shape(rows, reach, root, st + [o], tg, done, [])
  {
    forall k | 0 < k < |st + [o]| ensures Edge(rows, st + [o], k) {
      if k < |st| {
        assert Edge(rows, st, k);
      }
    }
  }

  lemma {:induction false} PopKeepsOrder(rows: seq<Row>, reach: iset<(Obj, Obj)>, st: seq<Obj>, tg: seq<Obj>,
                                         done: set<nat>, o: Obj)
    requires Closed(rows, reach) && Chained(rows, st + [o]) && InOrder(rows, reach, tg)
    requires Taken(rows, st + [o], tg, done, []) && Exhausted(rows, o, done, |rows|)
    ensures InOrder(rows, reach, tg + [o])
  {
    forall p, i | 0 <= p < |tg + [o]| && 0 <= i < |rows| && rows[i].ref == (tg + [o])[p]
      ensures rows[i].dep in (tg + [o])[..p] || (rows[i].dep, (tg + [o])[p]) in reach
    {
      assert p < |tg| ==> (tg + [o])[..p] == tg[..p];
      if p == |tg| && rows[i].dep !in tg {
        assert i in done;
        var k :| 0 <= k < |st + [o]| && (st + [o])[k] == rows[i].dep;
        ChainReaches(rows, reach, st + [o], k, |st|);
      }
      assert p == |tg| ==> (tg + [o])[..p] == tg;
    }
  }

  lemma {:induction false} PopKeepsShape(rows: seq<Row>, reach: iset<(Obj, Obj)>, root: Obj, st: seq<Obj>,
                                         tg: seq<Obj>, done: set<nat>, o: Obj)
    requires Closed(rows, reach) && Shape(rows, reach, root, st + [o], tg, done, []) && Exhausted(rows, o, done, |rows|)
    ensures Shape(rows, reach, root, st, tg + [o], done, [])
  {
    PopKeepsOrder(rows, reach, st, tg, done, o);
    assert (st + [o])[|st|] == o;
    forall k | 0 < k < |st| ensures Edge(rows, st, k) {
      assert Edge(rows, st + [o], k);
    }
    assert NoDup(st) && o !in st by {
      assert forall i :: 0 <= i < |st| ==> (st + [o])[i] == st[i];
    }
    assert o !in tg by {
      assert o in st + [o];
    }
    forall x | x in st ensures x !in tg + [o] {
      assert x in st + [o];
    }
  }

  /** Taking an edge from the object on top of the stack. */
  lemma {:induction false} TakeKeepsShape(rows: seq<Row>, reach: iset<(Obj, Obj)>, root: Obj, st: seq<Obj>,
                                          tg: seq<Obj>, done: set<nat>, i: nat)
    requires Closed(rows, reach) && Shape(rows, reach, root, st, tg, done, []) && st != []
    requires i < |rows| && rows[i].ref == st[|st| - 1]
    ensures Shape(rows, reach, root, st, tg, done + {i}, [rows[i].dep]) && (root, rows[i].dep) in reach
  {
  }

  lemma {:induction false} OwedAfter(rows: seq<Row>, root: Obj, done: set<nat>, i: nat, o: Obj)
    requires i < |rows|
    ensures Owed(rows, root, done + {i}, o)
         == Owed(rows, root, done, o) + if rows[i].dep == o then {FlagOf(rows[i].kind)} else {}
  {
  }

  ghost predicate AllOwed(rows: seq<Row>, root: Obj, done: set<nat>, objs: seq<Obj>, flags: seq<set<Flag>>) {
    |flags| == |objs| && forall k :: 0 <= k < |objs| ==> flags[k] == Owed(rows, root, done, objs[k])
  }

  lemma {:induction false} TakeOwesFlag(rows: seq<Row>, root: Obj, done: set<nat>, objs: seq<Obj>,
                                        flags: seq<set<Flag>>, i: nat)
    requires AllOwed(rows, root, done, objs, flags) && i < |rows|
    ensures FlagsOwed(rows, root, done + {i}, objs, flags, rows[i].dep, {FlagOf(rows[i].kind)})
  {
    forall k | 0 <= k < |objs|
      ensures Owed(rows, root, done + {i}, objs[k])
           == if objs[k] == rows[i].dep then flags[k] + {FlagOf(rows[i].kind)} else flags[k]
    {
      OwedAfter(rows, root, done, i, objs[k]);
    }
  }

  /** An object that no taken edge leads to is owed nothing. */
  lemma {:induction false} UnvisitedOwesOnly(rows: seq<Row>, root: Obj, st: seq<Obj>, tg: seq<Obj>, done: set<nat>,
                                             i: nat)
    requires Taken(rows, st, tg, done, []) && i < |rows| && root in st
    requires rows[i].dep !in st && rows[i].dep !in tg
    ensures Owed(rows, root, done + {i}, rows[i].dep) == {FlagOf(rows[i].kind)}
  {
    OwedAfter(rows, root, done, i, rows[i].dep);
  }

  /** Flags of `o` merged into wherever it is listed. */
  function Merged(objs: seq<Obj>, flags: seq<set<Flag>>, o: Obj, f: set<Flag>): (r: seq<set<Flag>>)
    requires |objs| == |flags|
    ensures |r| == |flags|
    ensures forall k :: 0 <= k < |r| ==> r[k] == if objs[k] == o then flags[k] + f else flags[k]
  {
    seq(|flags|, k requires 0 <= k < |flags| => if objs[k] == o then flags[k] + f else flags[k])
  }

  // ---------- the walk as a state machine ----------

  /** `pending`: the object an edge was just taken to, and the flag that edge carries. */
  datatype Walk = Walk(st: seq<Obj>, sf: seq<set<Flag>>, tg: seq<Obj>, tf: seq<set<Flag>>, done: set<nat>,
                       pending: seq<(Obj, set<Flag>)>)

  datatype Step = Take(i: nat) | MergeIntoStack | MergeIntoTargets | Push | Pop

  function Start(root: Obj): Walk {
    Walk([], [], [], [], {}, [(root, {Original})])
  }

  ghost predicate Enabled(rows: seq<Row>, w: Walk, step: Step) {
    match step
    case Take(i) => w.pending == [] && w.st != [] && i < |rows| && rows[i].ref == w.st[|w.st| - 1]
    case MergeIntoStack => |w.pending| == 1 && w.pending[0].0 in w.st && |w.sf| == |w.st|
    case MergeIntoTargets => |w.pending| == 1 && w.pending[0].0 !in w.st && w.pending[0].0 in w.tg && |w.tf| == |w.tg|
    case Push => |w.pending| == 1 && w.pending[0].0 !in w.st && w.pending[0].0 !in w.tg
    case Pop => w.pending == [] && w.st != [] && |w.sf| == |w.st| && Exhausted(rows, w.st[|w.st| - 1], w.done, |rows|)
  }

  ghost function Next(rows: seq<Row>, w: Walk, step: Step): Walk
    requires Enabled(rows, w, step)
  {
    match step
    case Take(i) => w.(done := w.done + {i}, pending := [(rows[i].dep, {FlagOf(rows[i].kind)})])
    case MergeIntoStack => w.(sf := Merged(w.st, w.sf, w.pending[0].0, w.pending[0].1), pending := [])
    case MergeIntoTargets => w.(tf := Merged(w.tg, w.tf, w.pending[0].0, w.pending[0].1), pending := [])
    case Push => w.(st := w.st + [w.pending[0].0], sf := w.sf + [w.pending[0].1], pending := [])
    case Pop =>
      var n := |w.st| - 1;
      w.(st := w.st[..n], sf := w.sf[..n], tg := w.tg + [w.st[n]], tf := w.tf + [w.sf[n]])
  }

  /** The state after a sequence of steps; a step that is not enabled does nothing. */
  ghost function After(rows: seq<Row>, root: Obj, steps: seq<Step>): Walk {
    if steps == [] then Start(root)
    else
      var w, step := After(rows, root, steps[..|steps| - 1]), steps[|steps| - 1];
      if Enabled(rows, w, step) then Next(rows, w, step) else w
  }

  lemma {:induction false} Extend(rows: seq<Row>, root: Obj, steps: seq<Step>, step: Step)
    requires Enabled(rows, After(rows, root, steps), step)
    ensures After(rows, root, steps + [step]) == Next(rows, After(rows, root, steps), step)
  {
    assert (steps + [step])[..|steps|] == steps;
  }

  /** Nothing pending: all flags are as owed. */
  ghost predicate Settled(rows: seq<Row>, reach: iset<(Obj, Obj)>, root: Obj, w: Walk) {
    && Shape(rows, reach, root, w.st, w.tg, w.done, [])
    && AllOwed(rows, root, w.done, w.st, w.sf) && AllOwed(rows, root, w.done, w.tg, w.tf)
    && (if w.st != [] then w.st[0] == root else w.tg != [] && w.tg[|w.tg| - 1] == root)
  }

  ghost predicate Follows(rows: seq<Row>, st: seq<Obj>, o: Obj)
    requires st != []
  {
    exists i :: 0 <= i < |rows| && rows[i].ref == st[|st| - 1] && rows[i].dep == o
  }

  /** About to visit `o`, having taken an edge that owes it `f`. */
  ghost predicate Arriving(rows: seq<Row>, reach: iset<(Obj, Obj)>, root: Obj, w: Walk, o: Obj, f: set<Flag>) {
    && Shape(rows, reach, root, w.st, w.tg, w.done, [o])
    && FlagsOwed(rows, root, w.done, w.st, w.sf, o, f) && FlagsOwed(rows, root, w.done, w.tg, w.tf, o, f)
    && (root, o) in reach
    && (o !in w.st && o !in w.tg ==> f == Owed(rows, root, w.done, o))
    && (if w.st == [] then o == root && w.tg == [] else w.st[0] == root && Follows(rows, w.st, o))
  }

  ghost predicate Sound(rows: seq<Row>, reach: iset<(Obj, Obj)>, root: Obj, w: Walk) {
    if w.pending == [] then Settled(rows, reach, root, w)
    else |w.pending| == 1 && Arriving(rows, reach, root, w, w.pending[0].0, w.pending[0].1)
  }

  lemma {:induction false} TakeSound(rows: seq<Row>, reach: iset<(Obj, Obj)>, root: Obj, w: Walk, i: nat)
    requires Closed(rows, reach) && Sound(rows, reach, root, w) && Enabled(rows, w, Take(i))
    ensures Sound(rows, reach, root, Next(rows, w, Take(i)))
  {
    TakeKeepsShape(rows, reach, root, w.st, w.tg, w.done, i);
    TakeOwesFlag(rows, root, w.done, w.st, w.sf, i);
    TakeOwesFlag(rows, root, w.done, w.tg, w.tf, i);
    if rows[i].dep !in w.st && rows[i].dep !in w.tg {
      UnvisitedOwesOnly(rows, root, w.st, w.tg, w.done, i);
    }
  }

  lemma {:induction false} MergeSettles(rows: seq<Row>, root: Obj, done: set<nat>, objs: seq<Obj>,
                                        flags: seq<set<Flag>>, o: Obj, f: set<Flag>)
    requires FlagsOwed(rows, root, done, objs, flags, o, f)
    ensures AllOwed(rows, root, done, objs, Merged(objs, flags, o, f))
    ensures o !in objs ==> AllOwed(rows, root, done, objs, flags)
  {
  }

  lemma {:induction false} VisitSound(rows: seq<Row>, reach: iset<(Obj, Obj)>, root: Obj, w: Walk, step: Step)
    requires Sound(rows, reach, root, w) && Enabled(rows, w, step)
    requires (step == MergeIntoStack || step == MergeIntoTargets)
    ensures Sound(rows, reach, root, Next(rows, w, step))
  {
    var o, f := w.pending[0].0, w.pending[0].1;
    MergeSettles(rows, root, w.done, w.st, w.sf, o, f);
    MergeSettles(rows, root, w.done, w.tg, w.tf, o, f);
    assert o in w.st ==> o !in w.tg;
    assert Shape(rows, reach, root, w.st, w.tg, w.done, []);
  }

  lemma {:induction false} PushSound(rows: seq<Row>, reach: iset<(Obj, Obj)>, root: Obj, w: Walk)
    requires Sound(rows, reach, root, w) && Enabled(rows, w, Push)
    ensures Sound(rows, reach, root, Next(rows, w, Push))
  {
    var o, f := w.pending[0].0, w.pending[0].1;
    MergeSettles(rows, root, w.done, w.st, w.sf, o, f);
    MergeSettles(rows, root, w.done, w.tg, w.tf, o, f);
    PushKeepsShape(rows, reach, root, w.st, w.tg, w.done, o);
  }

  lemma {:induction false} PopSound(rows: seq<Row>, reach: iset<(Obj, Obj)>, root: Obj, w: Walk)
    requires Closed(rows, reach) && Sound(rows, reach, root, w) && Enabled(rows, w, Pop)
    ensures Sound(rows, reach, root, Next(rows, w, Pop))
  {
    var n := |w.st| - 1;
    assert w.st == w.st[..n] + [w.st[n]];
    PopKeepsShape(rows, reach, root, w.st[..n], w.tg, w.done, w.st[n]);
  }

  lemma {:induction false} AfterSound(rows: seq<Row>, reach: iset<(Obj, Obj)>, root: Obj, steps: seq<Step>)
    requires Closed(rows, reach)
    ensures Sound(rows, reach, root, After(rows, root, steps))
  {
    if steps == [] {
    } else {
      AfterSound(rows, reach, root, steps[..|steps| - 1]);
      var w, step := After(rows, root, steps[..|steps| - 1]), steps[|steps| - 1];
      if Enabled(rows, w, step) {
        match step
        case Take(i) => TakeSound(rows, reach, root, w, i);
        case MergeIntoStack => VisitSound(rows, reach, root, w, step);
        case MergeIntoTargets => VisitSound(rows, reach, root, w, step);
        case Push => PushSound(rows, reach, root, w);
        case Pop => PopSound(rows, reach, root, w);
      }
    }
  }

  // ---------- what a finished walk has listed ----------

  /** Dependents precede what they depend on, except along cycles. */
  ghost predicate DeletionOrder(rows: seq<Row>, list: seq<Obj>) {
    forall p, i :: 0 <= p < |list| && 0 <= i < |rows| && rows[i].ref == list[p] ==>
      rows[i].dep in list[..p] || Reach(rows, rows[i].dep, list[p])
  }

  /** The original, and the kinds of all edges from `o` into the listed set. */
  function EdgeKinds(rows: seq<Row>, root: Obj, list: seq<Obj>, o: Obj): set<Flag> {
    (if o == root then {Original} else {})
    + set i | 0 <= i < |rows| && rows[i].ref in list && rows[i].dep == o :: FlagOf(rows[i].kind)
  }

  ghost predicate Lists(rows: seq<Row>, root: Obj, list: seq<Obj>) {
    && NoDup(list) && list != [] && list[|list| - 1] == root
    && (forall o :: o in list <==> Reach(rows, root, o))
    && DeletionOrder(rows, list)
  }

  ghost predicate FlagsAreEdgeKinds(rows: seq<Row>, root: Obj, list: seq<Obj>, flags: seq<set<Flag>>) {
    |flags| == |list| && forall k :: 0 <= k < |list| ==> flags[k] == EdgeKinds(rows, root, list, list[k])
  }

  lemma {:induction false} FinishedListsDependents(rows: seq<Row>, root: Obj, w: Walk)
    requires Settled(rows, Reachability(rows), root, w) && w.st == []
    ensures Lists(rows, root, w.tg)
  {
    assert forall i :: 0 <= i < |rows| && rows[i].ref in w.tg ==> i in w.done && rows[i].dep in w.tg;
    forall o | Reach(rows, root, o) ensures o in w.tg {
      var n: nat :| ReachIn(rows, root, o, n);
      ClosedHoldsReachable(rows, w.tg, root, o, n);
    }
    forall o | o in w.tg ensures Reach(rows, root, o) {
      assert (root, o) in Reachability(rows);
    }
  }

  lemma {:induction false} FinishedFlags(rows: seq<Row>, reach: iset<(Obj, Obj)>, root: Obj, w: Walk)
    requires Settled(rows, reach, root, w) && w.st == []
    ensures FlagsAreEdgeKinds(rows, root, w.tg, w.tf)
  {
    assert forall i :: 0 <= i < |rows| ==> (rows[i].ref in w.tg <==> i in w.done);
    forall k | 0 <= k < |w.tg| ensures w.tf[k] == EdgeKinds(rows, root, w.tg, w.tg[k]) {
      assert (set i | i in w.done && i < |rows| && rows[i].dep == w.tg[k] :: FlagOf(rows[i].kind))
          == (set i | 0 <= i < |rows| && rows[i].ref in w.tg && rows[i].dep == w.tg[k] :: FlagOf(rows[i].kind));
    }
  }

  /** Without cycles every dependent precedes what it depends on. */
  lemma {:induction false} AcyclicOrder(rows: seq<Row>, root: Obj, list: seq<Obj>, p: nat, i: nat)
    requires Lists(rows, root, list) && p < |list| && i < |rows| && rows[i].ref == list[p]
    requires forall j :: 0 <= j < |rows| ==> !Reach(rows, rows[j].dep, rows[j].ref)
    ensures rows[i].dep in list[..p]
  {
  }

  // ---------- the traversal ----------

  class Traversal {
    const rows: seq<Row>
    const root: Obj
    var stackObjs: seq<Obj>
    var stackFlags: seq<set<Flag>>
    var targetObjs: seq<Obj>
    var targetFlags: seq<set<Flag>>

    ghost var done: set<nat>
    ghost var pending: seq<(Obj, set<Flag>)>
    ghost var trace: seq<Step>

    ghost function View(): Walk
      reads this
    {
      Walk(stackObjs, stackFlags, targetObjs, targetFlags, done, pending)
    }

    /** The fields are where the steps taken so far lead. */
    ghost predicate Valid()
      reads this
    {
      View() == After(rows, root, trace) && |stackObjs| == |stackFlags| && |targetObjs| == |targetFlags|
    }

    /** Only objects of `left` are still unvisited. */
    ghost predicate Remain(left: set<Obj>)
      reads this
    {
      forall o :: o in Universe(rows, root) ==> o in stackObjs || o in targetObjs || o in left
    }

    constructor (rows: seq<Row>, root: Obj)
      ensures this.rows == rows && this.root == root && Valid()
      ensures stackObjs == [] && targetObjs == [] && pending == [(root, {Original})]
    {
      this.rows, this.root := rows, root;
      stackObjs, stackFlags, targetObjs, targetFlags := [], [], [], [];
      done, pending, trace := {}, [(root, {Original})], [];
    }

    /** `stack_address_present_add_flags`. */
    method StackPresentAddFlags(o: Obj, f: set<Flag>) returns (present: bool)
      requires |stackObjs| == |stackFlags|
      modifies this`stackFlags
      ensures stackFlags == Merged(stackObjs, old(stackFlags), o, f) && present == (o in stackObjs)
      ensures !present ==> stackFlags == old(stackFlags)
    {
      present := false;
      var i := |stackObjs|;
      while i > 0
        modifies this`stackFlags
        invariant 0 <= i <= |stackObjs| == |stackFlags| && present == (o in stackObjs[i..])
        invariant forall k :: 0 <= k < |stackObjs| ==>
          stackFlags[k] == if k >= i && stackObjs[k] == o then old(stackFlags)[k] + f else old(stackFlags)[k]
      {
        i := i - 1;
        if stackObjs[i] == o {
          stackFlags := stackFlags[i := stackFlags[i] + f];
          present := true;
        }
        assert stackObjs[i..] == [stackObjs[i]] + stackObjs[i + 1..];
      }
    }

    /** `object_address_present_add_flags`. */
    method TargetPresentAddFlags(o: Obj, f: set<Flag>) returns (present: bool)
      requires |targetObjs| == |targetFlags|
      modifies this`targetFlags
      ensures targetFlags == Merged(targetObjs, old(targetFlags), o, f) && present == (o in targetObjs)
      ensures !present ==> targetFlags == old(targetFlags)
    {
      present := false;
      var i := |targetObjs|;
      while i > 0
        modifies this`targetFlags
        invariant 0 <= i <= |targetObjs| == |targetFlags| && present == (o in targetObjs[i..])
        invariant forall k :: 0 <= k < |targetObjs| ==>
          targetFlags[k] == if k >= i && targetObjs[k] == o then old(targetFlags)[k] + f else old(targetFlags)[k]
      {
        i := i - 1;
        if targetObjs[i] == o {
          targetFlags := targetFlags[i := targetFlags[i] + f];
          present := true;
        }
        assert targetObjs[i..] == [targetObjs[i]] + targetObjs[i + 1..];
      }
    }

    /** The two early exits: `o` is being visited or was listed already. */
    method AlreadyVisited(o: Obj, f: set<Flag>) returns (present: bool)
      requires Valid() && pending == [(o, f)]
      modifies this`stackFlags, this`targetFlags, this`pending, this`trace
      ensures Valid() && present == (o in stackObjs || o in targetObjs)
      ensures pending == if present then [] else old(pending)
    {
      present := StackPresentAddFlags(o, f);
      if present {
        Extend(rows, root, trace, MergeIntoStack);
        pending, trace := [], trace + [MergeIntoStack];
        return;
      }
      present := TargetPresentAddFlags(o, f);
      if present {
        Extend(rows, root, trace, MergeIntoTargets);
        pending, trace := [], trace + [MergeIntoTargets];
      }
    }

    /** `findDependentObjects`. */
    method Find(o: Obj, f: set<Flag>, ghost left: set<Obj>)
      requires Valid() && pending == [(o, f)] && Remain(left) && o in Universe(rows, root)
      modifies this`stackObjs, this`stackFlags, this`targetObjs, this`targetFlags, this`done, this`pending, this`trace
      ensures Valid() && pending == [] && stackObjs == old(stackObjs)
      ensures old(targetObjs) <= targetObjs && old(done) <= done
      decreases left, 0
    {
      var present := AlreadyVisited(o, f);
      if present {
        return;
      }
      // a new stack level
      Extend(rows, root, trace, Push);
      stackObjs, stackFlags := stackObjs + [o], stackFlags + [f];
      pending, trace := [], trace + [Step.Push];
      Expand(o, left - {o});
      ListTop();
    }

    /** Visits every dependent of the object on top of the stack. */
    method Expand(o: Obj, ghost left: set<Obj>)
      requires Valid() && pending == [] && Remain(left) && stackObjs != [] && stackObjs[|stackObjs| - 1] == o
      modifies this`stackObjs, this`stackFlags, this`targetObjs, this`targetFlags, this`done, this`pending, this`trace
      ensures Valid() && pending == [] && stackObjs == old(stackObjs)
      ensures old(targetObjs) <= targetObjs && old(done) <= done
      ensures Exhausted(rows, o, done, |rows|)
      decreases left, 1
    {
      for i := 0 to |rows|
        invariant Valid() && pending == []
        invariant stackObjs == old(stackObjs) && old(targetObjs) <= targetObjs && old(done) <= done
        invariant Exhausted(rows, o, done, i)
      {
        if rows[i].ref == o {
          var flag := FlagOf(rows[i].kind);
          Extend(rows, root, trace, Take(i));
          done, pending, trace := done + {i}, [(rows[i].dep, {flag})], trace + [Take(i)];
          Find(rows[i].dep, {flag}, left);
        }
      }
    }

    /** Moves the object on top of the stack, with its flags, to the end of the list. */
    method ListTop()
      requires Valid() && pending == [] && stackObjs != [] && Exhausted(rows, stackObjs[|stackObjs| - 1], done, |rows|)
      modifies this`stackObjs, this`stackFlags, this`targetObjs, this`targetFlags, this`trace
      ensures Valid() && stackObjs == old(stackObjs)[..|old(stackObjs)| - 1] && old(targetObjs) <= targetObjs
    {
      Extend(rows, root, trace, Pop);
      var n := |stackObjs| - 1;
      targetObjs, targetFlags := targetObjs + [stackObjs[n]], targetFlags + [stackFlags[n]];
      stackObjs, stackFlags := stackObjs[..n], stackFlags[..n];
      trace := trace + [Pop];
    }
  }

  /** All dependents of `root`, with the original last, in deletion order, and their flags. */
  method FindDependents(rows: seq<Row>, root: Obj) returns (list: seq<Obj>, flags: seq<set<Flag>>)
    ensures Lists(rows, root, list) && FlagsAreEdgeKinds(rows, root, list, flags)
  {
    var t := new Traversal(rows, root);
    t.Find(root, {Original}, Universe(rows, root));
    list, flags := t.targetObjs, t.targetFlags;
    ReachabilityClosed(rows);
    AfterSound(rows, Reachability(rows), root, t.trace);
    FinishedListsDependents(rows, root, t.View());
    FinishedFlags(rows, Reachability(rows), root, t.View());
  }

  // ---------- the decision ----------

  datatype DropBehaviour = Restrict | Cascade

  /** `reportDependentObjects`: whether the drop must be refused. */
  method ReportDependentObjects(flags: seq<set<Flag>>, behaviour: DropBehaviour, quiet: bool) returns (refused: bool)
    ensures refused <==> !quiet && behaviour == Restrict
                         && exists k :: 0 <= k < |flags| && Original !in flags[k] && ByAuto !in flags[k]
  {
    refused := false;
    if quiet {
      return;
    }
    var i := |flags|;
    while i > 0
      invariant 0 <= i <= |flags|
      invariant refused <==> behaviour == Restrict
                             && exists k :: i <= k < |flags| && Original !in flags[k] && ByAuto !in flags[k]
    {
      i := i - 1;
      if Original !in flags[i] && ByAuto !in flags[i] && behaviour == Restrict {
        refused := true;
      }
    }
  }

  /** `o` is listed, is not the original, and only NORMAL edges lead from it into the listed set. */
  ghost predicate HeldOnlyNormally(rows: seq<Row>, root: Obj, o: Obj) {
    && o != root && Reach(rows, root, o)
    && forall i :: 0 <= i < |rows| && rows[i].dep == o && Reach(rows, root, rows[i].ref) ==> rows[i].kind == Normal
  }

  lemma {:induction false} BlockingFlags(rows: seq<Row>, root: Obj, list: seq<Obj>, flags: seq<set<Flag>>, k: nat)
    requires Lists(rows, root, list) && FlagsAreEdgeKinds(rows, root, list, flags) && k < |list|
    ensures Original !in flags[k] && ByAuto !in flags[k] <==> HeldOnlyNormally(rows, root, list[k])
  {
    var o := list[k];
    assert flags[k] == EdgeKinds(rows, root, list, o);
    if ByAuto !in flags[k] {
      forall i | 0 <= i < |rows| && rows[i].dep == o && Reach(rows, root, rows[i].ref) ensures rows[i].kind == Normal {
        assert FlagOf(rows[i].kind) in flags[k];
      }
    }
  }

  /** `spock_tryDropDependencies`: refused exactly when a RESTRICT drop would take an object held only by
      NORMAL dependencies; otherwise everything but the original is dropped, dependents first. */
  method TryDropDependencies(rows: seq<Row>, root: Obj, behaviour: DropBehaviour, quiet: bool)
    returns (refused: bool, dropped: seq<Obj>)
    ensures refused <==> !quiet && behaviour == Restrict && exists o :: HeldOnlyNormally(rows, root, o)
    ensures !refused ==> Lists(rows, root, dropped + [root]) && root !in dropped
    ensures refused ==> dropped == []
  {
    var list, flags := FindDependents(rows, root);
    refused := ReportDependentObjects(flags, behaviour, quiet);
    forall k | 0 <= k < |list|
      ensures Original !in flags[k] && ByAuto !in flags[k] <==> HeldOnlyNormally(rows, root, list[k])
    {
      BlockingFlags(rows, root, list, flags, k);
    }
    assert forall o :: HeldOnlyNormally(rows, root, o) ==> o in list;
    if refused {
      return true, [];
    }
    dropped := list[..|list| - 1];
    assert dropped + [root] == list;
  }
}
