/** The log manager: records get their numbers in a buffer, and reach the disk in order. */
module LogManager {
  import opened LogCodec

  const LOG_BUFFER_SIZE := 1024 * 4096

  // recs: everything logged since number `first`; disk and buffer together hold its bytes.
  ghost predicate LogOk(recs: seq<Rec>, first: int, disk: Bytes, buffer: Bytes, globalLsn: int, persistLsn: int,
          lastInBuffer: int) {
    && globalLsn == first + |recs| && first - 1 <= persistLsn < globalLsn
    && (forall i :: 0 <= i < |recs| ==> recs[i].lsn == first + i)
    && disk == EncodeAll(recs[..persistLsn + 1 - first])
    && buffer == EncodeAll(recs[persistLsn + 1 - first..])
    && |buffer| <= LOG_BUFFER_SIZE
    && (buffer != [] ==> lastInBuffer == globalLsn - 1)
    && (buffer == [] <==> persistLsn == globalLsn - 1)
  }

  lemma {:induction false} EncodeAllJoin(a: seq<Rec>, b: seq<Rec>)
    ensures EncodeAll(a + b) == EncodeAll(a) + EncodeAll(b)
  {
    hide Encode, TotLen, EncBody;
    if a == [] {
      assert a + b == b;
    } else {
      EncodeAllJoin(a[1..], b);
      assert (a + b)[1..] == a[1..] + b && (a + b)[0] == a[0];
      Regroup(Encode(a[0]), EncodeAll(a[1..]), EncodeAll(b));
      hide EncodeAll;
    }
  }

  lemma Regroup(x: Bytes, y: Bytes, z: Bytes)
    ensures x + (y + z) == x + y + z
  {
  }

  // Disk and buffer together are the encoding of everything, in order.
  lemma LogBytes(recs: seq<Rec>, first: int, disk: Bytes, buffer: Bytes, globalLsn: int, persistLsn: int,
          lastInBuffer: int)
    requires LogOk(recs, first, disk, buffer, globalLsn, persistLsn, lastInBuffer)
    ensures disk + buffer == EncodeAll(recs)
  {
    hide EncodeAll;
    var k := persistLsn + 1 - first;
    EncodeAllJoin(recs[..k], recs[k..]);
    assert recs[..k] + recs[k..] == recs;
  }

  lemma Flushed(recs: seq<Rec>, first: int, disk: Bytes, buffer: Bytes, globalLsn: int, persistLsn: int,
          lastInBuffer: int)
    requires LogOk(recs, first, disk, buffer, globalLsn, persistLsn, lastInBuffer) && buffer != []
    ensures LogOk(recs, first, disk + buffer, [], globalLsn, lastInBuffer, lastInBuffer)
  {
    hide EncodeAll;
    LogBytes(recs, first, disk, buffer, globalLsn, persistLsn, lastInBuffer);
    WholeSlices(recs);
  }

  lemma WholeSlices(recs: seq<Rec>)
    ensures recs[..|recs|] == recs && EncodeAll(recs[|recs|..]) == []
  {
  }

  lemma Added(recs: seq<Rec>, first: int, disk: Bytes, buffer: Bytes, globalLsn: int, persistLsn: int,
          lastInBuffer: int, r: Rec)
    requires LogOk(recs, first, disk, buffer, globalLsn, persistLsn, lastInBuffer)
    requires r.lsn == globalLsn && |buffer| + TotLen(r) <= LOG_BUFFER_SIZE
    ensures LogOk(recs + [r], first, disk, buffer + Encode(r), globalLsn + 1, persistLsn, globalLsn)
  {
    var k := persistLsn + 1 - first;
    assert (recs + [r])[..k] == recs[..k] && (recs + [r])[k..] == recs[k..] + [r];
    EncodeAllJoin(recs[k..], [r]);
    assert EncodeAll([r]) == Encode(r) + EncodeAll([]);
    assert |Encode(r)| == TotLen(r) > 0;
  }

  lemma SameLength(r: Rec, lsn: int)
    ensures TotLen(r.(lsn := lsn)) == TotLen(r)
  {
  }

  lemma PersistBelow(recs: seq<Rec>, first: int, disk: Bytes, buffer: Bytes, globalLsn: int, persistLsn: int,
          lastInBuffer: int)
    requires LogOk(recs, first, disk, buffer, globalLsn, persistLsn, lastInBuffer)
    ensures persistLsn < globalLsn
  {
  }

  class LogManager {
    var disk: Bytes
    var buffer: Bytes
    var globalLsn: int
    var persistLsn: int
    var lastInBuffer: int
    ghost var recs: seq<Rec>
    ghost const first: int

    ghost predicate Valid()
      reads this
    {
      LogOk(recs, first, disk, buffer, globalLsn, persistLsn, lastInBuffer)
    }

    constructor ()
      ensures Valid() && recs == [] && first == 0 && disk == [] && persistLsn == -1
    {
      disk, buffer, globalLsn, persistLsn, lastInBuffer := [], [], 0, -1, -1;
      recs, first := [], 0;
    }

    // Numbers the record and appends it to the buffer, which goes to the disk first if there is no room.
    method AddLogToBuffer(r: Rec) returns (lsn: int)
      requires Valid() && TotLen(r) <= LOG_BUFFER_SIZE
      modifies this
      ensures Valid() && lsn == old(globalLsn) && recs == old(recs) + [r.(lsn := lsn)]
      ensures persistLsn < lsn && (persistLsn == old(persistLsn) || persistLsn == lsn - 1)
      ensures old(disk) <= disk
    {
      hide LogOk, Encode, TotLen;
      if |buffer| + TotLen(r) > LOG_BUFFER_SIZE {
        FlushLogToDisk();
      }
      var r' := r.(lsn := globalLsn);
      SameLength(r, globalLsn);
      PersistBelow(recs, first, disk, buffer, globalLsn, persistLsn, lastInBuffer);
      Added(recs, first, disk, buffer, globalLsn, persistLsn, lastInBuffer, r');
      globalLsn := globalLsn + 1;
      lastInBuffer := r'.lsn;
      buffer := buffer + Encode(r');
      recs := recs + [r'];
      lsn := r'.lsn;
    }

    method FlushLogToDisk()
      requires Valid()
      modifies this
      ensures Valid() && recs == old(recs) && globalLsn == old(globalLsn)
      ensures persistLsn == globalLsn - 1 && buffer == [] && disk == old(disk) + old(buffer)
    {
      if |buffer| > 0 {
        Flushed(recs, first, disk, buffer, globalLsn, persistLsn, lastInBuffer);
        disk := disk + buffer;
        buffer := [];
        persistLsn := lastInBuffer;
      }
    }
  }

  // A log cut anywhere in the bytes that were being written still yields all flushed records, in order.
  lemma {:induction false} FlushedRecordsRead(recs: seq<Rec>, first: int, disk: Bytes, buffer: Bytes, globalLsn: int,
          persistLsn: int, lastInBuffer: int, cut: nat)
    requires LogOk(recs, first, disk, buffer, globalLsn, persistLsn, lastInBuffer) && cut <= |buffer|
    ensures first - 1 <= persistLsn && disk + buffer[..cut] <= EncodeAll(recs)
    ensures persistLsn + 1 - first <= Whole(recs, |disk| + cut) <= |recs|
  {
    hide EncodeAll, Whole;
    LogBytes(recs, first, disk, buffer, globalLsn, persistLsn, lastInBuffer);
    var k := persistLsn + 1 - first;
    WholeAtLeast(recs, k, |disk| + cut);
    hide LogOk;
  }

  lemma {:induction false} WholeAtLeast(recs: seq<Rec>, k: nat, n: nat)
    requires k <= |recs| && |EncodeAll(recs[..k])| <= n
    ensures Whole(recs, n) >= k
  {
    if k > 0 {
      assert recs[..k][1..] == recs[1..][..k - 1];
      WholeAtLeast(recs[1..], k - 1, n - TotLen(recs[0]));
    }
  }
}
