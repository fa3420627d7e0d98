/**
 * The static factory `create` of backend/tm/TransactionManager.java. The
 * file system is a map from path to file contents; whether the OS lets the
 * process read and write the new file is given as a flag.
 */
module TransactionManager {
  import opened Parser
  import opened Errors
  import Impl = TransactionManagerImpl

  /** The header create writes: eight zero bytes, a counter of 0. */
  const EMPTY_LOG: seq<Byte> := [0, 0, 0, 0, 0, 0, 0, 0]

  /** A freshly created log passes checkXIDCounter with counter 0. */
  lemma EmptyLogIsValid()
    ensures Impl.CheckXidCounter(EMPTY_LOG) == Ok(0)
  {
    ZeroBytesDecodeToZero();
    assert EMPTY_LOG[..Impl.LEN_XID_HEADER_LENGTH] == EMPTY_LOG;
  }

  /**
   * create(path): createNewFile on path + ".xid" (a panic if it already
   * exists), the read/write check (a panic if either is refused), the
   * zero header written at position 0, and the manager constructed over it.
   */
  method Create(path: string, disk: map<string, seq<Byte>>, readWritable: bool)
    returns (r: Result<Impl.TransactionManagerImpl>, disk': map<string, seq<Byte>>)
    ensures path + Impl.XID_SUFFIX in disk ==>
      r == Err(FileExistsException) && disk' == disk
    ensures path + Impl.XID_SUFFIX !in disk && !readWritable ==>
      r == Err(FileCannotRWException) && disk' == disk[path + Impl.XID_SUFFIX := []]
    ensures path + Impl.XID_SUFFIX !in disk && readWritable ==>
      && disk' == disk[path + Impl.XID_SUFFIX := EMPTY_LOG]
      && r.Ok? && fresh(r.value) && r.value.Valid()
      && r.value.file == EMPTY_LOG && r.value.xidCounter == 0
  {
    var name := path + Impl.XID_SUFFIX;
    if name in disk {
      return Err(FileExistsException), disk;
    }
    disk' := disk[name := []];
    if !readWritable {
      return Err(FileCannotRWException), disk';
    }
    var header := seq(Impl.LEN_XID_HEADER_LENGTH, _ => 0);
    disk' := disk'[name := Impl.WriteAt(disk'[name], 0, header)];
    assert disk'[name] == EMPTY_LOG;
    EmptyLogIsValid();
    r := Impl.Open(disk'[name]);
  }

  /**
   * A freshly created log, begun twice (ids 1 and 2), with commit(1) and
   * abort(2): reopened, it passes the check with counter 2, is 10 bytes
   * long, and reports 1 committed and not active, 2 aborted.
   */
  lemma CommitOneAbortTwo()
    ensures var f0 := EMPTY_LOG;
      Impl.ValidXidFile(f0) && Impl.Counter(f0) == 0 &&
      var f1 := Impl.BeginFile(f0);
      Impl.ValidXidFile(f1) && Impl.Counter(f1) == 1 &&
      var f2 := Impl.BeginFile(f1);
      Impl.ValidXidFile(f2) && Impl.Counter(f2) == 2 &&
      var f3 := Impl.SetStatusFile(f2, 1, Impl.FIELD_TRAN_COMMITTED);
      Impl.ValidXidFile(f3) && Impl.Counter(f3) == 2 &&
      var f4 := Impl.SetStatusFile(f3, 2, Impl.FIELD_TRAN_ABORTED);
      && Impl.CheckXidCounter(f4) == Ok(2) && |f4| == Impl.LEN_XID_HEADER_LENGTH + 2
      && Impl.CommittedIn(f4, 1) && !Impl.ActiveIn(f4, 1) && Impl.AbortedIn(f4, 2)
  {
    EmptyLogIsValid();
    var f1 := Impl.BeginFile(EMPTY_LOG);
    Impl.BeginSpec(EMPTY_LOG);
    var f2 := Impl.BeginFile(f1);
    Impl.BeginSpec(f1);
    var f3 := Impl.SetStatusFile(f2, 1, Impl.FIELD_TRAN_COMMITTED);
    Impl.CommitMakesCommitted(f2, 1);
    var f4 := Impl.SetStatusFile(f3, 2, Impl.FIELD_TRAN_ABORTED);
    Impl.AbortMakesAborted(f3, 2);
    Impl.SetStatusKeepsOthers(f3, 2, 1, Impl.FIELD_TRAN_ABORTED, Impl.FIELD_TRAN_COMMITTED);
  }
}
