/** The apply worker's replay queue: messages of the current remote transaction are kept in a linked
    list in memory and, beyond a configured size, in a temporary file of length-prefixed records.  List
    and file together must behave as one FIFO. */
module ReplayQueue {

  type byte = b: int | 0 <= b < 256

  type Msg = seq<byte>

  const MAX_ALLOC_SIZE := 0x3fff_ffff
  const INT_MAX := 0x7fff_ffff

  // ---------- record format: int32 length, then the bytes ----------

  function Le32(n: nat): (h: seq<byte>)
    requires n <= INT_MAX
    ensures |h| == 4
  {
    var b0: int, b1: int, b2: int, b3: int := n % 0x100, n / 0x100 % 0x100, n / 0x1_0000 % 0x100, n / 0x100_0000;
    [b0, b1, b2, b3]
  }

  /** The header read back as a signed 32-bit integer. */
  function FromLe32(h: seq<byte>): int
    requires |h| == 4
  {
    var n: int := (h[0] as int) + 0x100 * (h[1] as int) + 0x1_0000 * (h[2] as int) + 0x100_0000 * (h[3] as int);
    if n > INT_MAX then n - 0x1_0000_0000 else n
  }

  lemma {:induction false} HeaderRoundTrip(n: nat)
    requires n <= INT_MAX
    ensures FromLe32(Le32(n)) == n
  {
    assert n == n % 0x100 + 0x100 * (n / 0x100);
    assert n / 0x100 == n / 0x100 % 0x100 + 0x100 * (n / 0x100 / 0x100);
    assert n / 0x100 / 0x100 == n / 0x1_0000;
    assert n / 0x1_0000 == n / 0x1_0000 % 0x100 + 0x100 * (n / 0x1_0000 / 0x100);
    assert n / 0x1_0000 / 0x100 == n / 0x100_0000;
  }

  predicate ValidMessage(d: Msg) {
    0 < |d| <= INT_MAX
  }

  function Frame(d: Msg): seq<byte>
    requires ValidMessage(d)
  {
    Le32(|d|) + d
  }

  function Frames(ds: seq<Msg>): seq<byte>
    requires forall i :: 0 <= i < |ds| ==> ValidMessage(ds[i])
  {
    if ds == [] then [] else Frames(ds[..|ds| - 1]) + Frame(ds[|ds| - 1])
  }

  /** Where record `r` starts. */
  function Offset(ds: seq<Msg>, r: nat): nat
    requires r <= |ds|
  {
    if r == 0 then 0 else Offset(ds, r - 1) + 4 + |ds[r - 1]|
  }

  lemma {:induction false} OffsetOfPrefix(ds: seq<Msg>, d: Msg, r: nat)
    requires r <= |ds|
    ensures Offset(ds + [d], r) == Offset(ds, r)
  {
    if r == 0 {
    } else {
      OffsetOfPrefix(ds, d, r - 1);
    }
  }

  lemma {:induction false} FramesSnoc(ds: seq<Msg>, d: Msg)
    requires (forall i :: 0 <= i < |ds| ==> ValidMessage(ds[i])) && ValidMessage(d)
    ensures Frames(ds + [d]) == Frames(ds) + Frame(d)
  {
    assert (ds + [d])[..|ds|] == ds;
  }

  /** The records lie one after another, each at its offset. */
  lemma {:induction false} FrameAt(ds: seq<Msg>, r: nat)
    requires (forall i :: 0 <= i < |ds| ==> ValidMessage(ds[i])) && r <= |ds|
    ensures Offset(ds, |ds|) == |Frames(ds)| && Offset(ds, r) <= |Frames(ds)|
    ensures r < |ds| ==>
      var p, f := Offset(ds, r), Frame(ds[r]);
      p + |f| <= |Frames(ds)| && Frames(ds)[p..p + |f|] == f
  {
    if ds == [] {
    } else {
      var front, last := ds[..|ds| - 1], ds[|ds| - 1];
      assert ds == front + [last];
      FramesSnoc(front, last);
      OffsetOfPrefix(front, last, |front|);
      FrameAt(front, if r < |front| then r else |front|);
      if r < |front| {
        OffsetOfPrefix(front, last, r);
      }
    }
  }

  // ---------- the temporary file ----------

  /** What a replay step yields: a message, the end of the queue, or an error. */
  datatype Next = Message(data: seq<byte>) | Exhausted | Corrupt

  /** What the file position means: where appends go, the start of the next record, or nothing after a
      read raised an error. */
  datatype Stance = Appending | Reading | Failed

  /** How many records were written completely. */
  function Whole(disk: seq<Msg>, torn: bool): nat {
    if torn && disk != [] then |disk| - 1 else |disk|
  }

  /** The file holds the records in order; if the last one is torn, a strict prefix of it. */
  ghost predicate Stored(disk: seq<Msg>, torn: bool, content: seq<byte>) {
    && (forall i :: 0 <= i < |disk| ==> ValidMessage(disk[i]))
    && content <= Frames(disk) && Offset(disk, Whole(disk, torn)) <= |content|
    && (torn <==> |content| < |Frames(disk)|)
  }

  /** What the record reader makes of the bytes at position `p`: a message, or an error on a short or
      implausible header or on missing bytes. */
  function Parse(content: seq<byte>, p: nat): Next
    requires p <= |content|
  {
    if |content| < p + 4 then Corrupt
    else
      var len := FromLe32(content[p..p + 4]);
      if len <= 0 || len > MAX_ALLOC_SIZE || |content| < p + 4 + len then Corrupt
      else Message(content[p + 4..p + 4 + len])
  }

  lemma {:induction false} ParseFrame(content: seq<byte>, p: nat, d: Msg)
    requires ValidMessage(d) && p + |Frame(d)| <= |content| && content[p..p + |Frame(d)|] == Frame(d)
    ensures Parse(content, p) == if |d| > MAX_ALLOC_SIZE then Corrupt else Message(d)
  {
    var f := Frame(d);
    assert content[p..p + 4] == f[..4] == Le32(|d|);
    HeaderRoundTrip(|d|);
    assert content[p + 4..p + 4 + |d|] == f[4..] == d;
  }

  lemma {:induction false} ParseTornFrame(content: seq<byte>, p: nat, d: Msg)
    requires ValidMessage(d) && p <= |content| < p + |Frame(d)| && content[p..] == Frame(d)[..|content| - p]
    ensures Parse(content, p) == Corrupt
  {
    if |content| >= p + 4 {
      var f := Frame(d);
      assert content[p..p + 4] == content[p..][..4] == f[..4] == Le32(|d|);
      HeaderRoundTrip(|d|);
    }
  }

  lemma {:induction false} OffsetsGrow(ds: seq<Msg>, q: nat, r: nat)
    requires q <= r <= |ds|
    ensures Offset(ds, q) <= Offset(ds, r)
  {
    if q == r {
    } else {
      OffsetsGrow(ds, q, r - 1);
    }
  }

  /** The record reader returns exactly the complete records of acceptable length. */
  lemma {:induction false} ParseOnDisk(disk: seq<Msg>, torn: bool, r: nat, content: seq<byte>)
    requires Stored(disk, torn, content) && r < |disk| && r <= Whole(disk, torn)
    ensures Offset(disk, r) <= |content|
    ensures Parse(content, Offset(disk, r))
         == if r == Whole(disk, torn) || |disk[r]| > MAX_ALLOC_SIZE then Corrupt else Message(disk[r])
  {
    var p, all := Offset(disk, r), Frames(disk);
    FrameAt(disk, r);
    FrameAt(disk, |disk|);
    if r < Whole(disk, torn) {
      OffsetsGrow(disk, r + 1, Whole(disk, torn));
      assert content[p..p + |Frame(disk[r])|] == all[p..p + |Frame(disk[r])|];
      ParseFrame(content, p, disk[r]);
    } else {
      assert content[p..] == all[p..p + |Frame(disk[r])|][..|content| - p];
      ParseTornFrame(content, p, disk[r]);
    }
  }

  /** Writing all of a record, or a strict prefix of it, after whole records. */
  lemma {:induction false} StoredAfterWrite(disk: seq<Msg>, d: Msg, content: seq<byte>, accepted: nat)
    requires Stored(disk, false, content) && ValidMessage(d)
    ensures Stored(disk + [d], accepted < |Frame(d)|,
                   content + if accepted < |Frame(d)| then Frame(d)[..accepted] else Frame(d))
  {
    FramesSnoc(disk, d);
    FrameAt(disk, |disk|);
    FrameAt(disk + [d], |disk| + 1);
    OffsetOfPrefix(disk, d, |disk|);
    assert content == Frames(disk);
  }

  /** The spill file: a buffered temporary file with one position for reads and writes, how many
      records were written to it and how many were read back. */
  class Spill {
    var active: bool
    var content: seq<byte>
    var pos: nat
    var count: nat
    var read: nat

    ghost var disk: seq<Msg>          // messages handed to the file
    ghost var torn: bool              // the last of them was only partly written
    ghost var stance: Stance

    ghost predicate Valid()
      reads this
    {
      && count == |disk| && read <= |disk| && pos <= |content|
      && (torn ==> disk != []) && (!active ==> disk == [])
      && (stance == Appending && !torn ==> pos == |content|)
      && (stance == Reading ==> read <= Whole(disk, torn) && pos == Offset(disk, read))
    }

    /** The file holds what was handed to it. */
    ghost predicate Sound()
      reads this`disk, this`torn, this`content
    {
      Stored(disk, torn, content)
    }

    constructor ()
      ensures Valid() && Sound() && !active && disk == [] && !torn && stance == Appending
    {
      active, content, pos, count, read := false, [], 0, 0, 0;
      disk, torn, stance := [], false, Appending;
    }

    /** Creates the file. */
    method Activate()
      requires Valid() && !active && stance == Appending
      modifies this`active, this`content, this`pos
      ensures Valid() && Sound() && active
    {
      active, content, pos := true, [], 0;
    }

    /** Closing deletes the file. */
    method Close()
      modifies this
      ensures Valid() && Sound() && !active && disk == [] && !torn && stance == Appending
    {
      active, content, pos, count, read := false, [], 0, 0, 0;
      disk, torn, stance := [], false, Appending;
    }

    /** `BufFileWrite`: overwrites from the current position. */
    method Write(bs: seq<byte>)
      requires pos <= |content|
      modifies this`content, this`pos
      ensures pos == old(pos) + |bs| <= |content|
      ensures content == old(content)[..old(pos)] + bs + (if pos <= |old(content)| then old(content)[pos..] else [])
    {
      content := content[..pos] + bs + (if pos + |bs| <= |content| then content[pos + |bs|..] else []);
      pos := pos + |bs|;
    }

    /** `BufFileRead`: fewer bytes than asked for only at end of file. */
    method Read(n: nat) returns (bs: seq<byte>)
      requires pos <= |content|
      modifies this`pos
      ensures pos == old(pos) + |bs| <= |content|
      ensures bs == content[old(pos)..pos] && |bs| <= n
      ensures |bs| < n ==> pos == |content|
    {
      var k := if pos + n <= |content| then n else |content| - pos;
      bs := content[pos..pos + k];
      pos := pos + k;
    }

    /** `apply_replay_spill_write_entry`.  `accepted` is how many bytes of the record the disk takes
        before a write fails; the record is whole when it takes all of them. */
    method WriteEntry(data: Msg, accepted: nat) returns (ok: bool)
      requires Valid() && Sound() && active && stance == Appending && !torn && ValidMessage(data)
      modifies this`count, this`content, this`pos, this`disk, this`torn
      ensures Valid() && Sound() && disk == old(disk) + [data]
      ensures ok == !torn && torn == (accepted < |Frame(data)|)
    {
      StoredAfterWrite(disk, data, content, accepted);
      count := count + 1;
      disk := disk + [data];
      ok := WriteRecord(data, accepted);
      torn := !ok;
    }

    method WriteRecord(data: Msg, accepted: nat) returns (ok: bool)
      requires pos == |content| && ValidMessage(data)
      modifies this`content, this`pos
      ensures ok == (accepted >= |Frame(data)|) && pos == |content|
      ensures content == old(content) + (if ok then Frame(data) else Frame(data)[..accepted])
    {
      ghost var before := content;
      var header := Le32(|data|);
      if accepted < |header| {
        Write(header[..accepted]);
        assert content == before + Frame(data)[..accepted];
        return false;
      }
      Write(header);
      if accepted - |header| < |data| {
        Write(data[..accepted - |header|]);
        assert content == before + Frame(data)[..accepted];
        return false;
      }
      Write(data);
      assert content == before + Frame(data);
      ok := true;
    }

    /** The seek to the start that precedes a replay. */
    method Rewind()
      requires Valid()
      modifies this`read, this`stance, this`pos
      ensures Valid() && stance == Reading && read == 0
    {
      read, pos, stance := 0, 0, Reading;
    }

    /** Once every record was read the position is where the next append goes. */
    ghost method Finish()
      requires Valid() && Sound() && stance == Reading && read == |disk|
      modifies this`stance
      ensures Valid() && stance == Appending && !torn
    {
      FrameAt(disk, |disk|);
      stance := Appending;
    }

    /** `apply_replay_spill_read_entry`: the next record, or an error when it is incomplete or longer
        than the allocator allows. */
    method ReadEntry() returns (r: Next)
      requires Valid() && Sound() && active && stance == Reading && read < |disk|
      modifies this`read, this`stance, this`pos
      ensures Valid() && !r.Exhausted?
      ensures r.Corrupt? <==> old(read) == Whole(disk, torn) || |disk[old(read)]| > MAX_ALLOC_SIZE
      ensures r.Message? ==> r.data == disk[old(read)] && read == old(read) + 1 && stance == Reading
      ensures r.Corrupt? ==> stance == Failed && read == old(read)
    {
      assert pos == Offset(disk, read) && read <= Whole(disk, torn);
      assert Parse(content, pos)
          == if read == Whole(disk, torn) || |disk[read]| > MAX_ALLOC_SIZE then Corrupt else Message(disk[read]) by {
        ParseOnDisk(disk, torn, read, content);
      }
      r := ReadRecord();
      if r.Corrupt? {
        stance := Failed;
      } else {
        read := read + 1;
      }
    }

    method ReadRecord() returns (r: Next)
      requires pos <= |content|
      modifies this`pos
      ensures pos <= |content| && r == Parse(content, old(pos))
      ensures r.Message? ==> pos == old(pos) + 4 + |r.data|
    {
      ghost var p := pos;
      var header := Read(4);
      if |header| != 4 {
        return Corrupt;
      }
      var len := FromLe32(header);
      if len <= 0 || len > MAX_ALLOC_SIZE {
        return Corrupt;
      }
      var data := Read(len);
      if |data| != len {
        return Corrupt;
      }
      r := Message(data);
    }
  }

  // ---------- the queue ----------

  function TotalBytes(ms: seq<Msg>): nat {
    if ms == [] then 0 else TotalBytes(ms[..|ms| - 1]) + |ms[|ms| - 1]|
  }

  lemma {:induction false} TotalBytesSnoc(ms: seq<Msg>, d: Msg)
    ensures TotalBytes(ms + [d]) == TotalBytes(ms) + |d|
  {
    assert (ms + [d])[..|ms|] == ms;
  }

  /** How many spilled messages a replay can return: those before the first record that is torn or
      longer than the allocator allows. */
  function Recoverable(disk: seq<Msg>, torn: bool, from: nat): (r: nat)
    requires from <= Whole(disk, torn)
    ensures from <= r <= Whole(disk, torn) && (r < Whole(disk, torn) ==> |disk[r]| > MAX_ALLOC_SIZE)
    ensures forall i :: from <= i < r ==> |disk[i]| <= MAX_ALLOC_SIZE
    decreases Whole(disk, torn) - from
  {
    if from < Whole(disk, torn) && |disk[from]| <= MAX_ALLOC_SIZE then Recoverable(disk, torn, from + 1) else from
  }

  /** What a replay that has returned `n` messages must yield next. */
  function NextOf(mem: seq<Msg>, disk: seq<Msg>, torn: bool, n: nat): Next
    requires n <= |mem| + |disk|
  {
    if n < |mem| then Message(mem[n])
    else if n - |mem| == |disk| then Exhausted
    else if n - |mem| >= Whole(disk, torn) || |disk[n - |mem|]| > MAX_ALLOC_SIZE then Corrupt
    else Message(disk[n - |mem|])
  }

  /** What a replay yields from there on, and whether it ends without an error. */
  function ReplayFrom(mem: seq<Msg>, disk: seq<Msg>, torn: bool, n: nat): (seq<Msg>, bool)
    requires n <= |mem| + |disk|
    decreases |mem| + |disk| - n
  {
    match NextOf(mem, disk, torn, n)
    case Exhausted => ([], true)
    case Corrupt => ([], false)
    case Message(d) =>
      var rest := ReplayFrom(mem, disk, torn, n + 1);
      ([d] + rest.0, rest.1)
  }

  lemma {:induction false} ReplaySuffix(mem: seq<Msg>, disk: seq<Msg>, torn: bool, n: nat)
    requires n <= |mem| + Recoverable(disk, torn, 0)
    ensures ReplayFrom(mem, disk, torn, n).0 == (mem + disk)[n..|mem| + Recoverable(disk, torn, 0)]
    ensures ReplayFrom(mem, disk, torn, n).1 <==> Recoverable(disk, torn, 0) == |disk|
    decreases |mem| + |disk| - n
  {
    if n < |mem| + Recoverable(disk, torn, 0) {
      ReplaySuffix(mem, disk, torn, n + 1);
      assert NextOf(mem, disk, torn, n) == Message((mem + disk)[n]);
    }
  }

  /** A replay yields everything that was appended, in order, exactly when no record was cut short and
      none is longer than the allocator allows; otherwise everything before the first such record. */
  lemma {:induction false} ReplayIsFifo(mem: seq<Msg>, disk: seq<Msg>, torn: bool)
    requires torn ==> disk != []
    ensures ReplayFrom(mem, disk, torn, 0).0 == (mem + disk)[..|mem| + Recoverable(disk, torn, 0)]
    ensures ReplayFrom(mem, disk, torn, 0).1 <==> !torn && forall i :: 0 <= i < |disk| ==> |disk[i]| <= MAX_ALLOC_SIZE
    ensures ReplayFrom(mem, disk, torn, 0).1 ==> ReplayFrom(mem, disk, torn, 0).0 == mem + disk
  {
    ReplaySuffix(mem, disk, torn, 0);
    assert (mem + disk)[..|mem| + |disk|] == mem + disk;
  }

  /** The outcome of a replay that has returned `out` so far. */
  function Outcome(out: seq<Msg>, mem: seq<Msg>, disk: seq<Msg>, torn: bool): (seq<Msg>, bool)
    requires |out| <= |mem| + |disk|
  {
    var rest := ReplayFrom(mem, disk, torn, |out|);
    (out + rest.0, rest.1)
  }

  lemma {:induction false} OutcomeStep(out: seq<Msg>, mem: seq<Msg>, disk: seq<Msg>, torn: bool)
    requires |out| <= |mem| + |disk|
    ensures Outcome(out, mem, disk, torn) ==
      match NextOf(mem, disk, torn, |out|)
      case Message(d) => Outcome(out + [d], mem, disk, torn)
      case Exhausted => (out, true)
      case Corrupt => (out, false)
  {
    var next := NextOf(mem, disk, torn, |out|);
    if next.Message? {
      var rest := ReplayFrom(mem, disk, torn, |out| + 1);
      assert out + ([next.data] + rest.0) == (out + [next.data]) + rest.0;
    } else {
      assert out + [] == out;
    }
  }

  class Queue {
    const limit: nat                 // bytes kept in memory; 0 means no limit
    var mem: seq<Msg>                // the in-memory list, head first
    var next: nat                    // replay cursor into it
    var bytes: nat
    var replaying: bool
    const spill: Spill

    ghost var size: nat              // total length of the messages in memory

    ghost predicate Valid()
      reads this, spill
    {
      && spill.Valid()
      && next <= |mem| && size == TotalBytes(mem)
      && (!spill.active ==> bytes == size) && (limit > 0 ==> size <= limit)
      && (!replaying ==> next == |mem| && (!spill.torn ==> spill.stance == Appending))
      && (replaying ==> spill.stance != Appending && (next < |mem| ==> spill.stance == Reading && spill.read == 0))
    }

    /** Every message appended since the last reset, in arrival order. */
    ghost function Contents(): seq<Msg>
      reads this, spill
    {
      mem + spill.disk
    }

    /** How many of them the current replay has returned. */
    ghost function Returned(): nat
      reads this, spill
    {
      next + spill.read
    }

    constructor (queueSizeMb: nat)
      ensures Valid() && spill.Sound() && fresh(spill) && Contents() == [] && !replaying && !spill.torn
      ensures limit == queueSizeMb * 1024 * 1024
      ensures !spill.active && bytes == 0
    {
      limit := queueSizeMb * 1024 * 1024;
      mem, next, bytes, size, replaying := [], 0, 0, 0, false;
      spill := new Spill();
    }

    /** `apply_replay_queue_append_entry`: false when the spill write raised an error. */
    method Append(data: Msg, accepted: nat) returns (ok: bool)
      requires Valid() && spill.Sound() && !replaying && !spill.torn && ValidMessage(data)
      modifies this, spill
      ensures Valid() && spill.Sound() && !replaying
      ensures Contents() == old(Contents()) + [data]
      ensures ok == !spill.torn && (accepted >= |Frame(data)| ==> ok)
      ensures spill.active <==> old(spill.active) || (limit > 0 && old(bytes) + |data| > limit)
      ensures mem == if spill.active then old(mem) else old(mem) + [data]
      ensures !spill.active ==> bytes == old(bytes) + |data|
    {
      if !spill.active && limit > 0 && bytes + |data| > limit {
        spill.Activate();
        bytes := 0;
      }
      if spill.active {
        ok := spill.WriteEntry(data, accepted);
      } else {
        TotalBytesSnoc(mem, data);
        bytes, size := bytes + |data|, size + |data|;
        mem := mem + [data];
        next := |mem|;
        ok := true;
      }
      assert Contents() == old(Contents()) + [data];
    }

    /** `apply_replay_queue_start_replay`, also when an error strikes while a replay is under way or after
        one that ended in an error. */
    method StartReplay()
      requires Valid()
      modifies this`replaying, this`next, spill`read, spill`stance, spill`pos
      ensures Valid() && replaying && spill.stance == Reading && Returned() == 0
    {
      next, replaying := 0, true;
      spill.Rewind();
    }

    /** `apply_replay_queue_next_entry`: the list first, then the file; at the end replay mode is left. */
    method NextEntry() returns (r: Next)
      requires Valid() && spill.Sound() && replaying && spill.stance == Reading
      modifies this`replaying, this`next, spill`read, spill`stance, spill`pos
      ensures Valid() && r == NextOf(mem, spill.disk, spill.torn, old(Returned()))
      ensures Returned() == old(Returned()) + (if r.Message? then 1 else 0)
      ensures replaying == !r.Exhausted? && (r.Message? ==> spill.stance == Reading)
    {
      if next < |mem| {
        r := Message(mem[next]);
        next := next + 1;
      } else if spill.active && spill.read < spill.count {
        r := spill.ReadEntry();
      } else {
        replaying := false;
        spill.Finish();
        r := Exhausted;
      }
    }

    /** `apply_replay_queue_reset`. */
    method Reset()
      modifies this, spill
      ensures Valid() && spill.Sound() && Contents() == [] && !replaying && !spill.torn
      ensures !spill.active && bytes == 0
    {
      mem, next, bytes, size, replaying := [], 0, 0, 0, false;
      spill.Close();
    }

    /** A whole replay, from whatever point an earlier one was left: it always yields the same.  Once it
        ends without an error, appends may follow. */
    method Replay() returns (out: seq<Msg>, ok: bool)
      requires Valid() && spill.Sound()
      modifies this`replaying, this`next, spill`read, spill`stance, spill`pos
      ensures Valid() && (out, ok) == ReplayFrom(mem, spill.disk, spill.torn, 0)
      ensures ok ==> !replaying
    {
      StartReplay();
      var more := true;
      out, ok := [], false;
      while more
        modifies this`replaying, this`next, spill`read, spill`stance, spill`pos
        invariant Valid() && |out| <= |mem| + |spill.disk|
        invariant more ==> replaying && spill.stance == Reading && Returned() == |out|
        invariant Outcome([], mem, spill.disk, spill.torn)
               == if more then Outcome(out, mem, spill.disk, spill.torn) else (out, ok)
        invariant ok ==> !replaying
        decreases |mem| + |spill.disk| - |out|, more
      {
        OutcomeStep(out, mem, spill.disk, spill.torn);
        var r := NextEntry();
        if r.Message? {
          out := out + [r.data];
        } else {
          more, ok := false, r.Exhausted?;
        }
      }
      assert [] + ReplayFrom(mem, spill.disk, spill.torn, 0).0 == ReplayFrom(mem, spill.disk, spill.torn, 0).0;
    }
  }
}
