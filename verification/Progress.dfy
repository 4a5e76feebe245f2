/** The apply-group progress registry of `spock_group.c`: a shared hash table from group keys to
    progress records, merged by maximum, and its snapshot file `resource.dat`. */
module Progress {
  import opened Wal

  datatype Key = Key(dbid: nat, nodeId: nat, remoteNodeId: nat)

  /** The part of a progress record that is replaced as a whole by a newer commit. */
  datatype CommitBlock = CommitBlock(
    remoteCommitTs: int, prevRemoteTs: int, remoteCommitLsn: nat, lastUpdatedTs: int, updatedByDecode: bool)

  datatype Record = Record(commit: CommitBlock, remoteInsertLsn: nat, receivedLsn: nat)

  const UNSET_COMMIT := CommitBlock(0, 0, 0, 0, false)
  const UNSET := Record(UNSET_COMMIT, 0, 0)

  /** `insert >= commit` and `received >= commit`. */
  predicate Bounded(p: Record) {
    p.commit.remoteCommitLsn <= p.remoteInsertLsn && p.commit.remoteCommitLsn <= p.receivedLsn
  }

  /** An update the apply worker can build: a statistics-only update leaves the commit block unset
      (timestamp zero); a commit update has seen at least its own commit record. */
  predicate WellFormedUpdate(u: Record) {
    0 < u.commit.remoteCommitTs ==> Bounded(u)
  }

  /** What a stored record becomes when `src` is merged into it. */
  function Merge(dest: Record, src: Record): Record {
    Record(
      if dest.commit.remoteCommitTs < src.commit.remoteCommitTs then src.commit else dest.commit,
      Max(dest.remoteInsertLsn, src.remoteInsertLsn),
      Max(dest.receivedLsn, src.receivedLsn))
  }

  /** The entry left by a sequence of updates applied to a freshly created group. */
  function MergeAll(us: seq<Record>): Record {
    if us == [] then UNSET else Merge(MergeAll(us[..|us| - 1]), us[|us| - 1])
  }

  /** The existing record is overwritten, then both bounds are re-established. */
  function Forced(sap: Record): Record {
    sap.(remoteInsertLsn := Max(sap.remoteInsertLsn, sap.commit.remoteCommitLsn),
         receivedLsn := Max(sap.receivedLsn, sap.commit.remoteCommitLsn))
  }

  /** A group's life: merges and forced overwrites in any order. */
  datatype Op = Update(u: Record) | ForceSet(sap: Record)

  function RunOps(ops: seq<Op>): Record {
    if ops == [] then UNSET
    else
      var before := RunOps(ops[..|ops| - 1]);
      match ops[|ops| - 1]
      case Update(u) => Merge(before, u)
      case ForceSet(sap) => Forced(sap)
  }

  // ---------- the merge depends only on the set of updates ----------

  /** Equal positive timestamps identify the same commit. */
  ghost predicate Consistent(us: seq<Record>) {
    forall u, v :: u in us && v in us && 0 < u.commit.remoteCommitTs == v.commit.remoteCommitTs ==> u.commit == v.commit
  }

  /** `m` is the maximum of zero and `f` over the updates. */
  ghost predicate IsMax(m: nat, us: seq<Record>, f: Record -> nat) {
    && (forall u :: u in us ==> f(u) <= m)
    && (m == 0 || exists u :: u in us && f(u) == m)
  }

  /** The order-free description of a merged entry: the commit block of the latest timestamp and
      the greatest LSNs. */
  ghost predicate Summarises(p: Record, us: seq<Record>) {
    && (forall u :: u in us ==> u.commit.remoteCommitTs <= p.commit.remoteCommitTs)
    && (p.commit == UNSET_COMMIT || (0 < p.commit.remoteCommitTs && exists u :: u in us && u.commit == p.commit))
    && IsMax(p.remoteInsertLsn, us, (u: Record) => u.remoteInsertLsn)
    && IsMax(p.receivedLsn, us, (u: Record) => u.receivedLsn)
  }

  lemma {:induction false} IsMaxSnoc(m: nat, us: seq<Record>, u: Record, f: Record -> nat)
    requires IsMax(m, us, f)
    ensures IsMax(Max(m, f(u)), us + [u], f)
  {
    assert u in us + [u];
    if f(u) < m {
      var w :| w in us && f(w) == m;
      assert w in us + [u];
    }
  }

  lemma {:induction false} MergeAllSummarises(us: seq<Record>)
    requires forall u :: u in us ==> 0 <= u.commit.remoteCommitTs
    ensures Summarises(MergeAll(us), us)
  {
    if us == [] {
    } else {
      var front, last := us[..|us| - 1], us[|us| - 1];
      assert us == front + [last];
      MergeAllSummarises(front);
      var p := MergeAll(front);
      IsMaxSnoc(p.remoteInsertLsn, front, last, (u: Record) => u.remoteInsertLsn);
      IsMaxSnoc(p.receivedLsn, front, last, (u: Record) => u.receivedLsn);
    }
  }

  /** Two update sequences with the same elements, in any order and with any repetitions, leave the
      same entry. */
  lemma {:induction false} MergeDependsOnlyOnSet(us: seq<Record>, vs: seq<Record>)
    requires forall u :: u in us ==> 0 <= u.commit.remoteCommitTs
    requires forall u :: u in us <==> u in vs
    requires Consistent(us)
    ensures MergeAll(us) == MergeAll(vs)
    ensures Summarises(MergeAll(us), us)
  {
    MergeAllSummarises(us);
    MergeAllSummarises(vs);
    var p, q := MergeAll(us), MergeAll(vs);
    assert p.commit == q.commit;
    assert p.remoteInsertLsn == q.remoteInsertLsn;
    assert p.receivedLsn == q.receivedLsn;
  }

  // ---------- no LSN goes backwards, and the bounds hold ----------

  /** Commit LSNs rise with commit timestamps. */
  ghost predicate LsnFollowsTs(us: seq<Record>) {
    forall u, v :: u in us && v in us && 0 < u.commit.remoteCommitTs < v.commit.remoteCommitTs
      ==> u.commit.remoteCommitLsn <= v.commit.remoteCommitLsn
  }

  ghost predicate LsnLeq(p: Record, q: Record) {
    && p.commit.remoteCommitLsn <= q.commit.remoteCommitLsn
    && p.remoteInsertLsn <= q.remoteInsertLsn
    && p.receivedLsn <= q.receivedLsn
  }

  lemma {:induction false} OneMergeRaisesLsns(us: seq<Record>, u: Record)
    requires forall v :: v in us ==> 0 <= v.commit.remoteCommitTs
    requires LsnFollowsTs(us + [u])
    ensures LsnLeq(MergeAll(us), MergeAll(us + [u]))
  {
    assert (us + [u])[..|us|] == us;
    var p := MergeAll(us);
    MergeAllSummarises(us);
    if p.commit != UNSET_COMMIT {
      var w :| w in us && w.commit == p.commit;
      assert w in us + [u] && u in us + [u];
    }
  }

  /** However a run of updates continues, no LSN of the entry goes backwards. */
  lemma {:induction false} LsnsNeverDecrease(us: seq<Record>, more: seq<Record>)
    requires forall u :: u in us + more ==> 0 <= u.commit.remoteCommitTs
    requires LsnFollowsTs(us + more)
    ensures LsnLeq(MergeAll(us), MergeAll(us + more))
  {
    if more == [] {
      assert us + more == us;
    } else {
      var front, last := more[..|more| - 1], more[|more| - 1];
      assert us + more == (us + front) + [last];
      LsnsNeverDecrease(us, front);
      OneMergeRaisesLsns(us + front, last);
    }
  }

  /** Both bounds hold after any mixture of well-formed updates and forced overwrites, whatever the
      forced record looked like. */
  lemma {:induction false} BoundsHoldOverRuns(ops: seq<Op>)
    requires forall op :: op in ops && op.Update? ==> WellFormedUpdate(op.u) && 0 <= op.u.commit.remoteCommitTs
    requires forall op :: op in ops && op.ForceSet? ==> 0 <= op.sap.commit.remoteCommitTs
    ensures Bounded(RunOps(ops)) && 0 <= RunOps(ops).commit.remoteCommitTs
  {
    if ops == [] {
    } else {
      BoundsHoldOverRuns(ops[..|ops| - 1]);
      assert ops[|ops| - 1] in ops;
    }
  }

  // ---------- snapshot file ----------

  const SPOCK_RES_VERSION := 202508251

  datatype SnapshotFile = SnapshotFile(version: nat, systemIdentifier: nat, entryCount: nat, body: seq<(Key, Record)>)

  datatype LoadResult = Loaded | Ignored | ReadError

  ghost predicate Distinct(keys: seq<Key>) {
    forall i, j :: 0 <= i < j < |keys| ==> keys[i] != keys[j]
  }

  /** Order in which a hash scan visits the table: every key exactly once. */
  ghost predicate Enumerates(order: seq<Key>, m: map<Key, Record>) {
    && (forall i :: 0 <= i < |order| ==> order[i] in m)
    && (forall k :: k in m ==> k in order)
    && Distinct(order)
  }

  function DumpBody(m: map<Key, Record>, order: seq<Key>): seq<(Key, Record)>
    requires forall i :: 0 <= i < |order| ==> order[i] in m
  {
    seq(|order|, i requires 0 <= i < |order| => (order[i], m[order[i]]))
  }

  /** One update against a fixed-size table: a new key is refused once the table is full. */
  function Upsert(m: map<Key, Record>, k: Key, sap: Record, capacity: nat): map<Key, Record> {
    if k in m then m[k := Merge(m[k], sap)]
    else if |m| < capacity then m[k := Merge(UNSET, sap)]
    else m
  }

  function LoadBody(body: seq<(Key, Record)>, capacity: nat): map<Key, Record> {
    if body == [] then map[]
    else
      var last := body[|body| - 1];
      Upsert(LoadBody(body[..|body| - 1], capacity), last.0, last.1, capacity)
  }

  /** The records of one key, in order. */
  function RecordsOf(body: seq<(Key, Record)>, k: Key): seq<Record> {
    if body == [] then []
    else
      var last := body[|body| - 1];
      RecordsOf(body[..|body| - 1], k) + (if last.0 == k then [last.1] else [])
  }

  lemma {:induction false} MergeAllSnoc(us: seq<Record>, u: Record)
    ensures MergeAll(us + [u]) == Merge(MergeAll(us), u)
  {
    assert (us + [u])[..|us|] == us;
  }

  /** Updates to a table that is never full end in one entry per key, the merge of that key's own updates:
      keys do not mix and none is lost. */
  lemma {:induction false} UpdatesMergePerKey(body: seq<(Key, Record)>, capacity: nat, k: Key)
    requires |body| <= capacity
    ensures |LoadBody(body, capacity)| <= |body|
    ensures k in LoadBody(body, capacity) <==> RecordsOf(body, k) != []
    ensures k in LoadBody(body, capacity) ==> LoadBody(body, capacity)[k] == MergeAll(RecordsOf(body, k))
  {
    if body == [] {
    } else {
      var front, last := body[..|body| - 1], body[|body| - 1];
      UpdatesMergePerKey(front, capacity, k);
      if last.0 == k {
        MergeAllSnoc(RecordsOf(front, k), last.1);
      } else {
        assert RecordsOf(body, k) == RecordsOf(front, k);
      }
    }
  }

  /** A stored record survives a dump and reload: it has a positive commit timestamp, or no commit
      block at all. */
  predicate Restorable(p: Record) {
    0 < p.commit.remoteCommitTs || p.commit == UNSET_COMMIT
  }

  lemma {:induction false} SmallerSubset<T>(a: set<T>, b: set<T>)
    requires a < b
    ensures |a| < |b|
  {
    assert b == a + (b - a);
    assert |b| == |a| + |b - a|;
  }

  /** Loading distinct keys restores each of them on top of an unset entry. */
  lemma {:induction false} LoadFills(m: map<Key, Record>, keys: seq<Key>, capacity: nat)
    requires Distinct(keys) && (forall i :: 0 <= i < |keys| ==> keys[i] in m) && |m| <= capacity
    ensures LoadBody(DumpBody(m, keys), capacity) == map k | k in keys :: Merge(UNSET, m[k])
  {
    var body := DumpBody(m, keys);
    if keys != [] {
      var front, k := keys[..|keys| - 1], keys[|keys| - 1];
      assert body[..|keys| - 1] == DumpBody(m, front);
      LoadFills(m, front, capacity);
      var r := LoadBody(DumpBody(m, front), capacity);
      assert k !in r && |r| < |m| by {
        assert r.Keys < m.Keys by { assert k in m.Keys && k !in r.Keys; }
        SmallerSubset(r.Keys, m.Keys);
      }
      assert keys == front + [k];
    }
  }

  lemma {:induction false} LoadLast(body: seq<(Key, Record)>, capacity: nat, i: nat)
    requires i < |body|
    ensures LoadBody(body[..i + 1], capacity) == Upsert(LoadBody(body[..i], capacity), body[i].0, body[i].1, capacity)
  {
    assert body[..i + 1][..i] == body[..i];
  }

  lemma {:induction false} LoadRespectsCapacity(body: seq<(Key, Record)>, capacity: nat)
    ensures |LoadBody(body, capacity)| <= capacity
  {
    if body == [] {
    } else {
      LoadRespectsCapacity(body[..|body| - 1], capacity);
    }
  }

  /** Whatever order the dump visits the table in, reloading the dump into a table of the given
      capacity restores the same map exactly when the table is large enough and every record is
      restorable. */
  lemma {:induction false} SnapshotRoundTrip(m: map<Key, Record>, order: seq<Key>, capacity: nat)
    requires Enumerates(order, m)
    ensures LoadBody(DumpBody(m, order), capacity) == m
       <==> |m| <= capacity && forall k :: k in m ==> Restorable(m[k])
  {
    LoadRespectsCapacity(DumpBody(m, order), capacity);
    if |m| <= capacity {
      LoadFills(m, order, capacity);
      var r := LoadBody(DumpBody(m, order), capacity);
      assert forall k :: k in m ==> k in r && (r[k] == m[k] <==> Restorable(m[k]));
    }
  }

  // ---------- the registry itself ----------

  /** `progress_update_struct`: the destination is updated field by field. */
  method ProgressUpdateStruct(dest: Record, src: Record) returns (p: Record)
    ensures p == Merge(dest, src)
  {
    p := dest;
    if p.commit.remoteCommitTs < src.commit.remoteCommitTs {
      p := p.(commit := p.commit.(remoteCommitTs := src.commit.remoteCommitTs));
      p := p.(commit := p.commit.(prevRemoteTs := src.commit.prevRemoteTs));
      p := p.(commit := p.commit.(remoteCommitLsn := src.commit.remoteCommitLsn));
      p := p.(commit := p.commit.(lastUpdatedTs := src.commit.lastUpdatedTs));
      p := p.(commit := p.commit.(updatedByDecode := src.commit.updatedByDecode));
    }
    if p.remoteInsertLsn < src.remoteInsertLsn {
      p := p.(remoteInsertLsn := src.remoteInsertLsn);
    }
    if p.receivedLsn < src.receivedLsn {
      p := p.(receivedLsn := src.receivedLsn);
    }
  }

  class Registry {
    var groups: map<Key, Record>
    const capacity: nat

    constructor (capacity: nat)
      ensures groups == map[] && this.capacity == capacity
    {
      groups := map[];
      this.capacity := capacity;
    }

    /** Returns true when the key was already present. */
    method ProgressUpdate(k: Key, sap: Record) returns (found: bool)
      modifies this
      ensures groups == Upsert(old(groups), k, sap, capacity)
      ensures found == (k in old(groups))
      ensures forall j :: j in old(groups) && j != k ==> j in groups && groups[j] == old(groups)[j]
    {
      found := k in groups;
      if !found && |groups| >= capacity {
        return;
      }
      var current := if found then groups[k] else UNSET;
      var merged := ProgressUpdateStruct(current, sap);
      groups := groups[k := merged];
    }

    method ForceSetOne(k: Key, sap: Record)
      modifies this
      ensures groups
           == if k in old(groups) || |old(groups)| < capacity then old(groups)[k := Forced(sap)] else old(groups)
      ensures k in old(groups) || |old(groups)| < capacity ==>
        && k in groups && groups[k].commit == sap.commit
        && groups[k].remoteInsertLsn >= sap.remoteInsertLsn && groups[k].remoteInsertLsn >= sap.commit.remoteCommitLsn
        && groups[k].receivedLsn >= sap.receivedLsn && groups[k].receivedLsn >= sap.commit.remoteCommitLsn
        && groups[k].remoteInsertLsn in {sap.remoteInsertLsn, sap.commit.remoteCommitLsn}
        && groups[k].receivedLsn in {sap.receivedLsn, sap.commit.remoteCommitLsn}
      ensures forall j :: j in old(groups) && j != k ==> j in groups && groups[j] == old(groups)[j]
    {
      if k !in groups && |groups| >= capacity {
        return;
      }
      var p := sap;
      if p.remoteInsertLsn < p.commit.remoteCommitLsn {
        p := p.(remoteInsertLsn := p.commit.remoteCommitLsn);
      }
      if p.receivedLsn < p.commit.remoteCommitLsn {
        p := p.(receivedLsn := p.commit.remoteCommitLsn);
      }
      groups := groups[k := p];
    }

    /** Writes the header and one record per entry, in the order the hash scan produced. */
    method ResourceDump(systemIdentifier: nat, order: seq<Key>) returns (file: SnapshotFile)
      requires Enumerates(order, groups)
      ensures file == SnapshotFile(SPOCK_RES_VERSION, systemIdentifier, |order|, DumpBody(groups, order))
    {
      var body: seq<(Key, Record)> := [];
      for i := 0 to |order|
        invariant |body| == i
        invariant forall j :: 0 <= j < i ==> body[j] == (order[j], groups[order[j]])
      {
        body := body + [(order[i], groups[order[i]])];
      }
      assert body == DumpBody(groups, order);
      file := SnapshotFile(SPOCK_RES_VERSION, systemIdentifier, |order|, body);
    }

    /** Replays a snapshot into an empty table.  A foreign or outdated file is ignored; a file shorter
        than its header announces is a read error. */
    method ResourceLoad(systemIdentifier: nat, file: SnapshotFile) returns (result: LoadResult)
      requires groups == map[]
      modifies this
      ensures result.Ignored? <==> file.version != SPOCK_RES_VERSION || file.systemIdentifier != systemIdentifier
      ensures result.Ignored? ==> groups == map[]
      ensures result.ReadError? <==> !result.Ignored? && |file.body| < file.entryCount
      ensures result.Loaded? ==> groups == LoadBody(file.body[..file.entryCount], capacity)
    {
      if file.version != SPOCK_RES_VERSION || file.systemIdentifier != systemIdentifier {
        return Ignored;
      }
      var i := 0;
      while i < file.entryCount
        invariant i <= file.entryCount && i <= |file.body|
        invariant groups == LoadBody(file.body[..i], capacity)
      {
        if i == |file.body| {
          return ReadError;
        }
        var _ := ProgressUpdate(file.body[i].0, file.body[i].1);
        LoadLast(file.body, capacity, i);
        i := i + 1;
      }
      result := Loaded;
    }
  }

  /** A dump taken by one server start and read by the next one restores the registry. */
  method Restart(before: Registry, systemIdentifier: nat, order: seq<Key>, capacity: nat) returns (after: Registry)
    requires Enumerates(order, before.groups)
    ensures after.groups == before.groups
       <==> |before.groups| <= capacity && forall k :: k in before.groups ==> Restorable(before.groups[k])
  {
    var file := before.ResourceDump(systemIdentifier, order);
    after := new Registry(capacity);
    var result := after.ResourceLoad(systemIdentifier, file);
    assert file.body[..|order|] == file.body;
    SnapshotRoundTrip(before.groups, order, capacity);
  }
}
