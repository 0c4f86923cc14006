/**
 * The per-file handle of the KVSFS backend of NFS-Ganesha
 * (src/nfs-ganesha/FSAL_KVSFS/file.c): a handle is closed or open with some
 * flags, and open, read, write, commit, close and byte-range lock requests
 * drive it over an opaque store-level descriptor.
 *
 * Every call into the key-value store (context lookup, open, read, write,
 * close, getattr, range lock) is an input outcome. The store's status
 * translation is `Posix2Fsal`, a symbolic encoding of the errno.
 */
module KvsfsFile {
  import opened Wrappers
  import opened Errno

  /** The `openflags` value of a closed handle; any other value means open with those flags. */
  const FSAL_O_CLOSED: nat := 0

  const U64_MODULUS: int := 0x1_0000_0000_0000_0000

  newtype u64 = x: int | 0 <= x < 0x1_0000_0000_0000_0000

  /** Major status codes returned to the server. */
  datatype FsalErr = NoError | Fault | NotSupp | FromErrno(errno: int)

  /** A returned status: major code and the errno carried alongside it. */
  datatype FsalStatus = FsalStatus(major: FsalErr, minor: int)

  const Ok: FsalStatus := FsalStatus(NoError, 0)

  /** Translation of a POSIX errno into a major status; errno 0 is no error. */
  function Posix2Fsal(errno: int): FsalErr
  {
    if errno == 0 then NoError else FromErrno(errno)
  }

  /** The status returned for a failed store call answering `rc`. */
  function ErrorStatus(rc: int): (st: FsalStatus)
    ensures rc != 0 ==> st.major != NoError
  {
    FsalStatus(Posix2Fsal(-rc), -rc)
  }

  /** A store-level descriptor: the owner pid the lock path checks and an opaque id. */
  datatype Fd = Fd(ownerPid: int, id: nat)

  /** The attribute snapshot taken at open time (opaque here). */
  datatype Stat = Stat(ino: nat, size: nat, mode: nat)

  /** Lock operations a server may ask for; anything but test, lock and unlock is unsupported. */
  datatype LockOp = OpLockT | OpLock | OpUnlock | OpOther(code: int)

  /** Requested lock types; anything but read and write is unsupported. */
  datatype LockType = LockR | LockW | LockOther(code: int)

  /** A lock request from the server: type, first byte and length. */
  datatype LockParam = LockParam(lockType: LockType, start: u64, length: u64, reclaim: bool)

  datatype KvsnsLockOp = KvsnsLockT | KvsnsLock | KvsnsUnlock
  datatype KvsnsLockType = LckRdOnly | LckRw

  /** The range-lock request passed to the store: the range is [start, end). */
  datatype KvsnsLockRequest = KvsnsLockRequest(op: KvsnsLockOp, lType: KvsnsLockType, start: u64, end: u64)

  /**
   * End of the half-open range [start, start + length) in unsigned 64-bit
   * arithmetic. The range is as long as requested exactly when the sum does
   * not wrap; when it wraps, the end falls below the start.
   */
  function RangeEnd(start: u64, length: u64): (end: u64)
    ensures end >= start <==> start as int + length as int < U64_MODULUS
    ensures end >= start ==> end as int - start as int == length as int
    ensures end < start ==> end as int == start as int + length as int - U64_MODULUS
  {
    ((start as int + length as int) % U64_MODULUS) as u64
  }

  /** The store operation for a supported server lock operation. */
  function KvsnsOp(op: LockOp): KvsnsLockOp
    requires !op.OpOther?
  {
    match op
    case OpLockT => KvsnsLockT
    case OpLock => KvsnsLock
    case OpUnlock => KvsnsUnlock
  }

  /** The store lock type for a supported server lock type: read is read-only, write is read-write. */
  function KvsnsType(t: LockType): KvsnsLockType
    requires !t.LockOther?
  {
    if t.LockR? then LckRdOnly else LckRw
  }

  /** One KVSFS file handle. */
  class FileHandle {
    var openflags: nat
    var fd: Fd
    var savedStat: Stat

    constructor (fd0: Fd, stat0: Stat)
      ensures openflags == FSAL_O_CLOSED && fd == fd0 && savedStat == stat0
    {
      openflags, fd, savedStat := FSAL_O_CLOSED, fd0, stat0;
    }

    predicate IsOpen()
      reads this
    {
      openflags != FSAL_O_CLOSED
    }

    /**
     * Opens a closed handle: resolves the filesystem context, opens the
     * descriptor, records `flags`, then snapshots the attributes. A context or
     * open failure leaves the handle closed and untouched; once the open
     * succeeded the handle keeps `flags` even when the snapshot fails.
     */
    method Open(flags: nat, ctxRc: Rc, openRc: Rc, newFd: Fd, getattrRc: Rc, stat: Stat) returns (st: FsalStatus)
      requires openflags == FSAL_O_CLOSED
      modifies this
      ensures ctxRc != 0 ==> st == ErrorStatus(ctxRc) && unchanged(this)
      ensures ctxRc == 0 && openRc != 0 ==> st == ErrorStatus(openRc) && unchanged(this)
      ensures ctxRc == 0 && openRc == 0 ==>
        && openflags == flags
        && fd == newFd
        && st == (if getattrRc == 0 then Ok else ErrorStatus(getattrRc))
        && savedStat == (if getattrRc == 0 then stat else old(savedStat))
    {
      if ctxRc != 0 {
        return ErrorStatus(ctxRc);
      }
      if openRc != 0 {
        return ErrorStatus(openRc);
      }
      fd := newFd;
      openflags := flags;
      if getattrRc != 0 {
        return ErrorStatus(getattrRc);
      }
      savedStat := stat;
      st := Ok;
    }

    /** The handle's open state, read without changing it. */
    method Status() returns (flags: nat)
      ensures flags == openflags
      ensures flags == FSAL_O_CLOSED <==> !IsOpen()
    {
      flags := openflags;
    }

    /**
     * Reads through the descriptor; the store answers `r`, the number of bytes
     * read or a negative errno. Zero bytes is end of file, a positive count is
     * not, a negative answer is an error that writes neither out-parameter.
     */
    method Read(offset: u64, bufferSize: nat, ctxRc: Rc, r: int)
      returns (st: FsalStatus, readAmount: Option<nat>, endOfFile: Option<bool>)
      requires ctxRc == 0 ==> IsOpen()
      ensures ctxRc != 0 ==> st == ErrorStatus(ctxRc) && readAmount.None? && endOfFile.None?
      ensures ctxRc == 0 && r < 0 ==> st == ErrorStatus(r) && readAmount.None? && endOfFile.None?
      ensures ctxRc == 0 && r >= 0 ==> st == Ok && readAmount == Some(r) && endOfFile == Some(r == 0)
      ensures endOfFile == Some(true) <==> readAmount == Some(0)
    {
      if ctxRc != 0 {
        return ErrorStatus(ctxRc), None, None;
      }
      if r < 0 {
        return ErrorStatus(r), None, None;
      } else if r == 0 {
        endOfFile, readAmount := Some(true), Some(0);
      } else {
        endOfFile, readAmount := Some(false), Some(r);
      }
      st := Ok;
    }

    /**
     * Writes through the descriptor; the store answers `r`, the number of
     * bytes written or a negative errno. A write is never reported stable.
     */
    method Write(offset: u64, bufferSize: nat, ctxRc: Rc, r: int)
      returns (st: FsalStatus, writeAmount: Option<nat>, stable: Option<bool>)
      requires ctxRc == 0 ==> IsOpen()
      ensures ctxRc != 0 ==> st == ErrorStatus(ctxRc) && writeAmount.None? && stable.None?
      ensures ctxRc == 0 && r < 0 ==> st == ErrorStatus(r) && writeAmount.None? && stable.None?
      ensures ctxRc == 0 && r >= 0 ==> st == Ok && writeAmount == Some(r) && stable == Some(false)
      ensures stable != Some(true)
    {
      if ctxRc != 0 {
        return ErrorStatus(ctxRc), None, None;
      }
      if r < 0 {
        return ErrorStatus(r), None, None;
      }
      writeAmount, stable := Some(r), Some(false);
      st := Ok;
    }

    /** Commit performs no durability action and always reports success. */
    method Commit(offset: int, len: nat) returns (st: FsalStatus)
      ensures st == Ok
    {
      st := Ok;
    }

    /**
     * Closes the handle: a context failure changes nothing; a closed handle is
     * left closed with success; an open one ends closed whatever the store's
     * close answered, and that answer is the returned status.
     */
    method Close(ctxRc: Rc, closeRc: Rc) returns (st: FsalStatus)
      modifies this
      ensures ctxRc != 0 ==> st == ErrorStatus(ctxRc) && unchanged(this)
      ensures ctxRc == 0 && !old(IsOpen()) ==> st == Ok && unchanged(this)
      ensures ctxRc == 0 && old(IsOpen()) ==>
        openflags == FSAL_O_CLOSED && fd == old(fd) && savedStat == old(savedStat)
        && st == (if closeRc == 0 then Ok else ErrorStatus(closeRc))
      ensures ctxRc == 0 ==> !IsOpen()
    {
      if ctxRc != 0 {
        return ErrorStatus(ctxRc);
      }
      st := Ok;
      if openflags != FSAL_O_CLOSED {
        if closeRc < 0 {
          st := ErrorStatus(closeRc);
        }
        openflags := FSAL_O_CLOSED;
      }
    }

    /**
     * A byte-range lock request. The checks run in a fixed order: the context
     * lookup; a closed handle or a descriptor with a negative owner pid is a
     * fault; a test without a slot for the conflicting lock is a fault; an
     * operation other than test, lock or unlock is unsupported; a lock type
     * other than read or write is unsupported; the context lookup again. Only
     * then is `issued`, the range request, passed to the store, whose answer
     * is `storeRc`. The handle is never changed.
     */
    method Lock(op: LockOp, request: LockParam, hasConflictSlot: bool, ctxRc: Rc, ctxRc2: Rc, storeRc: Rc)
      returns (st: FsalStatus, issued: Option<KvsnsLockRequest>)
      ensures ctxRc != 0 ==> st == ErrorStatus(ctxRc) && issued.None?
      ensures ctxRc == 0 && (fd.ownerPid < 0 || !IsOpen()) ==> st == FsalStatus(Fault, 0) && issued.None?
      ensures ctxRc == 0 && fd.ownerPid >= 0 && IsOpen() ==>
        if op.OpLockT? && !hasConflictSlot then
          st == FsalStatus(Fault, 0) && issued.None?
        else if op.OpOther? || request.lockType.LockOther? then
          st == FsalStatus(NotSupp, 0) && issued.None?
        else if ctxRc2 != 0 then
          st == ErrorStatus(ctxRc2) && issued.None?
        else
          && issued == Some(KvsnsLockRequest(KvsnsOp(op), KvsnsType(request.lockType),
                                             request.start, RangeEnd(request.start, request.length)))
          && st == (if storeRc == 0 then Ok else ErrorStatus(storeRc))
      ensures issued.Some? ==> IsOpen() && fd.ownerPid >= 0 && !op.OpOther? && !request.lockType.LockOther?
    {
      if ctxRc != 0 {
        return ErrorStatus(ctxRc), None;
      }
      if fd.ownerPid < 0 || openflags == FSAL_O_CLOSED {
        return FsalStatus(Fault, 0), None;
      }
      if !hasConflictSlot && op.OpLockT? {
        return FsalStatus(Fault, 0), None;
      }
      var kop: KvsnsLockOp;
      if op.OpLockT? {
        kop := KvsnsLockT;
      } else if op.OpLock? {
        kop := KvsnsLock;
      } else if op.OpUnlock? {
        kop := KvsnsUnlock;
      } else {
        return FsalStatus(NotSupp, 0), None;
      }
      var ltype: KvsnsLockType;
      if request.lockType.LockR? {
        ltype := LckRdOnly;
      } else if request.lockType.LockW? {
        ltype := LckRw;
      } else {
        return FsalStatus(NotSupp, 0), None;
      }
      if ctxRc2 != 0 {
        return ErrorStatus(ctxRc2), None;
      }
      var req := KvsnsLockRequest(kop, ltype, request.start, RangeEnd(request.start, request.length));
      issued := Some(req);
      st := if storeRc != 0 then ErrorStatus(storeRc) else Ok;
    }
  }

  /**
   * A handle opened, read to end of file, and closed twice, with every store
   * call succeeding: a 5-byte read is not end of file, a 0-byte read is, and
   * the second close is a successful no-op.
   */
  method OpenReadClose(fd0: Fd, stat: Stat) returns (sts: seq<FsalStatus>, amounts: seq<Option<nat>>, eofs: seq<Option<bool>>, flags: nat)
    ensures sts == [Ok, Ok, Ok, Ok, Ok]
    ensures amounts == [Some(5), Some(0)] && eofs == [Some(false), Some(true)]
    ensures flags == FSAL_O_CLOSED
  {
    var h := new FileHandle(fd0, stat);
    var openSt := h.Open(2, 0, 0, fd0, 0, stat);
    var st1, n1, eof1 := h.Read(0, 10, 0, 5);
    var st2, n2, eof2 := h.Read(5, 10, 0, 0);
    var closed := h.Close(0, 0);
    var closedAgain := h.Close(0, 0);
    flags := h.Status();
    sts, amounts, eofs := [openSt, st1, st2, closed, closedAgain], [n1, n2], [eof1, eof2];
  }
}
