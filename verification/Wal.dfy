/** The publisher's write-ahead log as a decoding session sees it: one record per committed
    transaction, in commit order.  The commit record of a transaction occupies
    `[commitLsn, endLsn)`. */
module Wal {

  datatype Txn = Txn(commitLsn: nat, endLsn: nat, commitTs: int)

  /** Commit records are non-empty, start after LSN 0 and do not overlap. */
  ghost predicate WellFormed(wal: seq<Txn>) {
    && (forall i :: 0 <= i < |wal| ==> 0 < wal[i].commitLsn < wal[i].endLsn)
    && (forall i, j :: 0 <= i < j < |wal| ==> wal[i].endLsn <= wal[j].commitLsn)
  }

  function Max(a: int, b: int): int {
    if a < b then b else a
  }
}
