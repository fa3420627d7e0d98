/**
 * The transaction-status log of backend/tm/Impl/TransactionManagerImpl.java.
 *
 * The .xid file is an 8-byte big-endian header holding the number of
 * transactions ever begun, followed by one status byte per transaction id
 * (id 1 first): 0 active, 1 committed, 2 aborted. The file is modelled as
 * its byte contents; every write is a positioned overwrite of that sequence.
 */
module TransactionManagerImpl {
  import opened Parser
  import opened Errors

  const LEN_XID_HEADER_LENGTH: nat := 8
  const XID_FIELD_SIZE: nat := 1
  const FIELD_TRAN_ACTIVE: Byte := 0
  const FIELD_TRAN_COMMITTED: Byte := 1
  const FIELD_TRAN_ABORTED: Byte := 2
  /** The super transaction: always committed, never stored in the file. */
  const SUPER_XID: Int64 := 0
  const XID_SUFFIX: string := ".xid"

  /** The largest counter a well-formed log can hold: its length, 8 + counter, is a long. */
  const MAX_COUNTER: int := TWO_63 - 1 - LEN_XID_HEADER_LENGTH

  /** getXidPosition, in the wrap-around arithmetic of Java longs. */
  function XidPosition(xid: Int64): (r: Int64)
    ensures 1 <= xid <= MAX_COUNTER + 1 ==> r == LEN_XID_HEADER_LENGTH + (xid - 1)
  {
    Wrap64(LEN_XID_HEADER_LENGTH + Wrap64(Wrap64(xid - 1) * XID_FIELD_SIZE))
  }

  /**
   * A positioned write of `data` at offset `off` of a file, as FileChannel.write
   * does after position(off): bytes are overwritten, and the file grows when
   * the write runs past its end.
   */
  function WriteAt(file: seq<Byte>, off: nat, data: seq<Byte>): (r: seq<Byte>)
    requires off <= |file|
    ensures |r| == if off + |data| <= |file| then |file| else off + |data|
    ensures r[..off] == file[..off]
    ensures r[off..off + |data|] == data
    ensures off + |data| <= |file| ==> r[off + |data|..] == file[off + |data|..]
  {
    file[..off] + data + if off + |data| < |file| then file[off + |data|..] else []
  }

  /** The counter stored in the header. */
  function Counter(file: seq<Byte>): (c: Int64)
    requires |file| >= LEN_XID_HEADER_LENGTH
  {
    ParseLong(file[..LEN_XID_HEADER_LENGTH])
  }

  /** A well-formed log: the header, then exactly as many status bytes as it counts. */
  predicate ValidXidFile(file: seq<Byte>) {
    && |file| >= LEN_XID_HEADER_LENGTH
    && |file| == LEN_XID_HEADER_LENGTH + Counter(file)
    && |file| < TWO_63
  }

  /**
   * checkXIDCounter: the file must hold the header, and getXidPosition of
   * counter + 1 (in long arithmetic) must be the file's length. Exactly the
   * files whose length is 8 plus the stored counter pass.
   */
  function CheckXidCounter(file: seq<Byte>): (r: Result<Int64>)
    ensures r.Ok? <==> ValidXidFile(file)
    ensures r.Ok? ==> r.value == Counter(file) && 0 <= r.value <= MAX_COUNTER
    ensures r.Err? ==> r.error == BadXIDFileException
  {
    var fileLen := |file|;
    if fileLen < LEN_XID_HEADER_LENGTH then Err(BadXIDFileException)
    else
      var counter := Counter(file);
      var end := XidPosition(Wrap64(counter + 1));
      assert Wrap64(Wrap64(counter + 1) - 1) == counter;
      if end != fileLen then Err(BadXIDFileException) else Ok(counter)
  }


  /** A valid file holds exactly `counter` status bytes, xid n at offset 8 + (n - 1). */
  lemma ValidXidFileLayout(file: seq<Byte>, xid: Int64)
    requires ValidXidFile(file) && 1 <= xid <= Counter(file)
    ensures Counter(file) >= 0 && |file| - LEN_XID_HEADER_LENGTH == Counter(file)
    ensures LEN_XID_HEADER_LENGTH <= XidPosition(xid) < |file|
    ensures XidPosition(1) == LEN_XID_HEADER_LENGTH
  {
  }

  /** checkXID: the byte stored for xid equals status. */
  predicate StatusIs(file: seq<Byte>, xid: Int64, status: Byte)
    requires ValidXidFile(file) && 1 <= xid <= Counter(file)
  {
    file[XidPosition(xid)] == status
  }

  predicate ActiveIn(file: seq<Byte>, xid: Int64)
    requires ValidXidFile(file) && 0 <= xid <= Counter(file)
  {
    if xid == SUPER_XID then false else StatusIs(file, xid, FIELD_TRAN_ACTIVE)
  }

  predicate CommittedIn(file: seq<Byte>, xid: Int64)
    requires ValidXidFile(file) && 0 <= xid <= Counter(file)
  {
    if xid == SUPER_XID then true else StatusIs(file, xid, FIELD_TRAN_COMMITTED)
  }

  predicate AbortedIn(file: seq<Byte>, xid: Int64)
    requires ValidXidFile(file) && 0 <= xid <= Counter(file)
  {
    if xid == SUPER_XID then false else StatusIs(file, xid, FIELD_TRAN_ABORTED)
  }

  /** The super transaction is committed, never active or aborted, whatever the file says. */
  lemma SuperXidIsCommitted(file: seq<Byte>)
    requires ValidXidFile(file)
    ensures !ActiveIn(file, SUPER_XID) && CommittedIn(file, SUPER_XID) && !AbortedIn(file, SUPER_XID)
  {
  }

  /** The three status codes are distinct, so at most one query holds for a transaction. */
  lemma AtMostOneStatus(file: seq<Byte>, xid: Int64)
    requires ValidXidFile(file) && 0 <= xid <= Counter(file)
    ensures !(ActiveIn(file, xid) && CommittedIn(file, xid))
    ensures !(ActiveIn(file, xid) && AbortedIn(file, xid))
    ensures !(CommittedIn(file, xid) && AbortedIn(file, xid))
  {
  }

  /** The file after begin: the new status byte written first, then the incremented header. */
  function BeginFile(file: seq<Byte>): (f: seq<Byte>)
    requires ValidXidFile(file) && Counter(file) < MAX_COUNTER
  {
    var xid := Counter(file) + 1;
    WriteAt(WriteAt(file, XidPosition(xid), [FIELD_TRAN_ACTIVE]), 0, Long2Byte(xid))
  }

  /** The file after commit or abort of xid: its status byte overwritten. */
  function SetStatusFile(file: seq<Byte>, xid: Int64, status: Byte): (f: seq<Byte>)
    requires ValidXidFile(file) && 1 <= xid <= Counter(file)
  {
    WriteAt(file, XidPosition(xid), [status])
  }

  /**
   * begin appends one active status byte for xid counter + 1 and stores the
   * new counter in the header; the result is again a valid log. Every
   * earlier status byte is unchanged.
   */
  lemma BeginSpec(file: seq<Byte>)
    requires ValidXidFile(file) && Counter(file) < MAX_COUNTER
    ensures var c, f := Counter(file), BeginFile(file);
      && |f| == |file| + 1
      && ValidXidFile(f) && Counter(f) == c + 1
      && f[XidPosition(c + 1)] == FIELD_TRAN_ACTIVE
      && f[LEN_XID_HEADER_LENGTH..|file|] == file[LEN_XID_HEADER_LENGTH..]
  {
    var c := Counter(file);
    var staged := WriteAt(file, XidPosition(c + 1), [FIELD_TRAN_ACTIVE]);
    assert staged == file + [FIELD_TRAN_ACTIVE];
    var f := BeginFile(file);
    assert f[..LEN_XID_HEADER_LENGTH] == Long2Byte(c + 1);
    ParseLongOfLong2Byte(c + 1);
    assert f[LEN_XID_HEADER_LENGTH..] == staged[LEN_XID_HEADER_LENGTH..];
  }

  /**
   * begin leaves a valid log whose counter is one more: the part of BeginSpec
   * that Begins needs, kept apart so that Begins's proof stays small.
   */
  lemma BeginAdvances(file: seq<Byte>)
    requires ValidXidFile(file) && Counter(file) < MAX_COUNTER
    ensures ValidXidFile(BeginFile(file)) && Counter(BeginFile(file)) == Counter(file) + 1
  {
    BeginSpec(file);
  }

  /**
   * The write order of begin: a crash after the status byte is appended but
   * before the header is rewritten leaves a file that checkXIDCounter rejects.
   */
  lemma InterruptedBeginDetected(file: seq<Byte>)
    requires ValidXidFile(file) && Counter(file) < MAX_COUNTER
    ensures !ValidXidFile(WriteAt(file, XidPosition(Counter(file) + 1), [FIELD_TRAN_ACTIVE]))
  {
    var staged := WriteAt(file, XidPosition(Counter(file) + 1), [FIELD_TRAN_ACTIVE]);
    assert staged[..LEN_XID_HEADER_LENGTH] == file[..LEN_XID_HEADER_LENGTH];
  }

  /** A valid log cut short by one byte is rejected. */
  lemma TruncationDetected(file: seq<Byte>)
    requires ValidXidFile(file)
    ensures !ValidXidFile(file[..|file| - 1])
  {
    var cut := file[..|file| - 1];
    if |cut| >= LEN_XID_HEADER_LENGTH {
      assert cut[..LEN_XID_HEADER_LENGTH] == file[..LEN_XID_HEADER_LENGTH];
    }
  }

  /**
   * commit and abort overwrite the one status byte of xid: the length, the
   * header and every other byte stay as they were, and the log stays valid.
   */
  lemma SetStatusSpec(file: seq<Byte>, xid: Int64, status: Byte)
    requires ValidXidFile(file) && 1 <= xid <= Counter(file)
    ensures var f := SetStatusFile(file, xid, status);
      && |f| == |file|
      && ValidXidFile(f) && Counter(f) == Counter(file)
      && f[XidPosition(xid)] == status
      && forall i :: 0 <= i < |file| && i != XidPosition(xid) ==> f[i] == file[i]
  {
    var f := SetStatusFile(file, xid, status);
    var p := XidPosition(xid);
    assert f[..LEN_XID_HEADER_LENGTH] == file[..LEN_XID_HEADER_LENGTH] by {
      assert f[..p][..LEN_XID_HEADER_LENGTH] == f[..LEN_XID_HEADER_LENGTH];
    }
    forall i | 0 <= i < |file| && i != p
      ensures f[i] == file[i]
    {
      if i < p {
        assert f[..p][i] == file[..p][i];
      } else {
        assert f[p + 1..][i - p - 1] == file[p + 1..][i - p - 1];
      }
    }
  }

  /** Right after begin, the new transaction is active and neither committed nor aborted. */
  lemma BeginMakesActive(file: seq<Byte>)
    requires ValidXidFile(file) && Counter(file) < MAX_COUNTER
    ensures var f := BeginFile(file);
      ValidXidFile(f) && Counter(f) == Counter(file) + 1 &&
      ActiveIn(f, Counter(f)) && !CommittedIn(f, Counter(f)) && !AbortedIn(f, Counter(f))
  {
    BeginSpec(file);
  }

  /** After commit of xid, only isCommitted holds for it. */
  lemma CommitMakesCommitted(file: seq<Byte>, xid: Int64)
    requires ValidXidFile(file) && 1 <= xid <= Counter(file)
    ensures var f := SetStatusFile(file, xid, FIELD_TRAN_COMMITTED);
      ValidXidFile(f) && Counter(f) == Counter(file) &&
      CommittedIn(f, xid) && !ActiveIn(f, xid) && !AbortedIn(f, xid)
  {
    SetStatusSpec(file, xid, FIELD_TRAN_COMMITTED);
  }

  /** After abort of xid, only isAborted holds for it. */
  lemma AbortMakesAborted(file: seq<Byte>, xid: Int64)
    requires ValidXidFile(file) && 1 <= xid <= Counter(file)
    ensures var f := SetStatusFile(file, xid, FIELD_TRAN_ABORTED);
      ValidXidFile(f) && Counter(f) == Counter(file) &&
      AbortedIn(f, xid) && !ActiveIn(f, xid) && !CommittedIn(f, xid)
  {
    SetStatusSpec(file, xid, FIELD_TRAN_ABORTED);
  }

  /** Statuses are permanent: begin leaves the byte of every earlier transaction alone. */
  lemma BeginKeepsStatus(file: seq<Byte>, xid: Int64, status: Byte)
    requires ValidXidFile(file) && Counter(file) < MAX_COUNTER && 1 <= xid <= Counter(file)
    requires StatusIs(file, xid, status)
    ensures ValidXidFile(BeginFile(file)) && Counter(BeginFile(file)) == Counter(file) + 1
    ensures StatusIs(BeginFile(file), xid, status)
  {
    BeginSpec(file);
    var f := BeginFile(file);
    var p := XidPosition(xid);
    assert f[LEN_XID_HEADER_LENGTH..|file|][p - LEN_XID_HEADER_LENGTH] == file[LEN_XID_HEADER_LENGTH..][p - LEN_XID_HEADER_LENGTH];
  }

  /** ... and commit or abort of one transaction leaves every other transaction's status alone. */
  lemma SetStatusKeepsOthers(file: seq<Byte>, xid: Int64, other: Int64, status: Byte, was: Byte)
    requires ValidXidFile(file) && 1 <= xid <= Counter(file) && 1 <= other <= Counter(file) && other != xid
    requires StatusIs(file, other, was)
    ensures ValidXidFile(SetStatusFile(file, xid, status))
    ensures Counter(SetStatusFile(file, xid, status)) == Counter(file)
    ensures StatusIs(SetStatusFile(file, xid, status), other, was)
  {
    SetStatusSpec(file, xid, status);
  }

  /**
   * n successive begins from a valid log: the ids they hand out, in order,
   * and the final file.
   */
  function Begins(file: seq<Byte>, n: nat): (r: (seq<Int64>, seq<Byte>))
    requires ValidXidFile(file) && Counter(file) + n <= MAX_COUNTER
    ensures |r.0| == n && ValidXidFile(r.1) && Counter(r.1) == Counter(file) + n
    ensures forall i :: 0 <= i < n ==> r.0[i] == Counter(file) + 1 + i
    decreases n
  {
    if n == 0 then ([], file)
    else
      var before := Begins(file, n - 1);
      var c := Counter(before.1);
      BeginAdvances(before.1);
      (before.0 + [c + 1], BeginFile(before.1))
  }

  /**
   * The transaction manager: the .xid file's contents and the in-memory
   * counter. The OS handle, the channel and the counter lock are left out.
   */
  class TransactionManagerImpl {
    var file: seq<Byte>
    var xidCounter: Int64

    /** The state checkXIDCounter establishes and every operation keeps. */
    ghost predicate Valid()
      reads this
    {
      ValidXidFile(file) && xidCounter == Counter(file)
    }

    /** The fields as the constructor leaves them once checkXIDCounter has passed; see Open. */
    constructor (contents: seq<Byte>, counter: Int64)
      requires ValidXidFile(contents) && counter == Counter(contents)
      ensures Valid() && file == contents && xidCounter == counter
    {
      file := contents;
      xidCounter := counter;
    }

    /** updateXID: one status byte written at the xid's position. */
    method UpdateXid(xid: Int64, status: Byte)
      requires 0 <= XidPosition(xid) <= |file|
      modifies this
      ensures file == WriteAt(old(file), XidPosition(xid), [status])
      ensures xidCounter == old(xidCounter)
    {
      var offset := XidPosition(xid);
      file := WriteAt(file, offset, [status]);
    }

    /** incrXIDCCounter: the counter incremented (as a long) and written to the header. */
    method IncrXidCounter()
      modifies this
      ensures xidCounter == Wrap64(old(xidCounter) + 1)
      ensures file == WriteAt(old(file), 0, Long2Byte(xidCounter))
    {
      xidCounter := Wrap64(xidCounter + 1);
      file := WriteAt(file, 0, Long2Byte(xidCounter));
    }

    /** begin: the next xid, counter + 1, recorded active; the log stays valid. */
    method Begin() returns (xid: Int64)
      requires Valid() && xidCounter < MAX_COUNTER
      modifies this
      ensures Valid()
      ensures xid == old(xidCounter) + 1 && xidCounter == xid
      ensures file == BeginFile(old(file))
    {
      xid := Wrap64(xidCounter + 1);
      UpdateXid(xid, FIELD_TRAN_ACTIVE);
      IncrXidCounter();
      BeginSpec(old(file));
    }

    method Commit(xid: Int64)
      requires Valid() && 1 <= xid <= xidCounter
      modifies this
      ensures Valid() && xidCounter == old(xidCounter)
      ensures file == SetStatusFile(old(file), xid, FIELD_TRAN_COMMITTED)
    {
      UpdateXid(xid, FIELD_TRAN_COMMITTED);
      SetStatusSpec(old(file), xid, FIELD_TRAN_COMMITTED);
    }

    method Abort(xid: Int64)
      requires Valid() && 1 <= xid <= xidCounter
      modifies this
      ensures Valid() && xidCounter == old(xidCounter)
      ensures file == SetStatusFile(old(file), xid, FIELD_TRAN_ABORTED)
    {
      UpdateXid(xid, FIELD_TRAN_ABORTED);
      SetStatusSpec(old(file), xid, FIELD_TRAN_ABORTED);
    }

    /** checkXID: reads the status byte of xid from the file and compares it. */
    method CheckXid(xid: Int64, status: Byte) returns (b: bool)
      requires Valid() && 1 <= xid <= xidCounter
      ensures b == StatusIs(file, xid, status)
      ensures b <==> file[LEN_XID_HEADER_LENGTH + xid - 1] == status
    {
      var offset := XidPosition(xid);
      b := file[offset] == status;
    }

    method IsActive(xid: Int64) returns (b: bool)
      requires Valid() && 0 <= xid <= xidCounter
      ensures b == ActiveIn(file, xid)
      ensures xid == SUPER_XID ==> !b
      ensures xid != SUPER_XID ==> (b <==> file[LEN_XID_HEADER_LENGTH + xid - 1] == FIELD_TRAN_ACTIVE)
    {
      if xid == SUPER_XID {
        return false;
      }
      b := CheckXid(xid, FIELD_TRAN_ACTIVE);
    }

    method IsCommitted(xid: Int64) returns (b: bool)
      requires Valid() && 0 <= xid <= xidCounter
      ensures b == CommittedIn(file, xid)
      ensures xid == SUPER_XID ==> b
      ensures xid != SUPER_XID ==> (b <==> file[LEN_XID_HEADER_LENGTH + xid - 1] == FIELD_TRAN_COMMITTED)
    {
      if xid == SUPER_XID {
        return true;
      }
      b := CheckXid(xid, FIELD_TRAN_COMMITTED);
    }

    method IsAborted(xid: Int64) returns (b: bool)
      requires Valid() && 0 <= xid <= xidCounter
      ensures b == AbortedIn(file, xid)
      ensures xid == SUPER_XID ==> !b
      ensures xid != SUPER_XID ==> (b <==> file[LEN_XID_HEADER_LENGTH + xid - 1] == FIELD_TRAN_ABORTED)
    {
      if xid == SUPER_XID {
        return false;
      }
      b := CheckXid(xid, FIELD_TRAN_ABORTED);
    }
  }

  /**
   * The constructor TransactionManagerImpl(raf, fc): it runs checkXIDCounter,
   * which panics on a malformed file; a panic is the Err outcome.
   */
  method Open(contents: seq<Byte>) returns (r: Result<TransactionManagerImpl>)
    ensures r.Err? <==> !ValidXidFile(contents)
    ensures r.Err? ==> r.error == BadXIDFileException
    ensures r.Ok? ==> fresh(r.value) && r.value.Valid()
    ensures r.Ok? ==> r.value.file == contents && r.value.xidCounter == Counter(contents)
  {
    var check := CheckXidCounter(contents);
    if check.Err? {
      return Err(check.error);
    }
    var tm := new TransactionManagerImpl(contents, check.value);
    return Ok(tm);
  }
}
