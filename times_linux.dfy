/** The Linux backend (times_linux.go). Each entry point issues one statx query and
    falls back to the plain stat path when the kernel lacks statx (ENOSYS). The
    system calls are inputs: the statx call is a parameter mapping the query to its
    outcome, and the fallback's outcome is given as a value. */
module LinuxTimes {
  import opened GoInt
  import opened Times

  /** ENOSYS on Linux: the kernel does not implement the system call. */
  const ENOSYS: int := 38

  /** The dirfd that makes statx resolve a relative path from the working directory. */
  const AT_FDCWD: int := -100

  const AT_STATX_SYNC_AS_STAT: bv32 := 0x0000
  const AT_SYMLINK_NOFOLLOW: bv32 := 0x0100
  const AT_EMPTY_PATH: bv32 := 0x1000

  const STATX_ATIME: bv32 := 0x0020
  const STATX_MTIME: bv32 := 0x0040
  const STATX_CTIME: bv32 := 0x0080
  const STATX_BTIME: bv32 := 0x0800

  /** The fields all three entry points ask statx for. */
  const RequestedFields: bv32 := STATX_ATIME | STATX_MTIME | STATX_CTIME | STATX_BTIME

  /** unix.StatxTimestamp. */
  datatype StatxTimestamp = StatxTimestamp(sec: Int64, nsec: Uint32)

  /** The part of unix.Statx_t this package reads: the mask of populated fields and
      the four timestamps. */
  datatype Statx = Statx(mask: Uint32, atime: StatxTimestamp, btime: StatxTimestamp,
                         ctime: StatxTimestamp, mtime: StatxTimestamp)

  /** syscall.Timespec on a 64-bit target. */
  datatype SysTimespec = SysTimespec(sec: Int64, nsec: Int64)

  /** The part of syscall.Stat_t this package reads. */
  datatype StatT = StatT(atim: SysTimespec, mtim: SysTimespec, ctim: SysTimespec)

  /** An os.FileInfo from os.Stat, os.Lstat or File.Stat; Sys() yields its Stat_t. */
  datatype FileInfo = FileInfo(sys: StatT)

  /** An open *os.File, known by its descriptor. */
  datatype File = File(fd: nat)

  /** The arguments of one unix.Statx call. */
  datatype StatxRequest = StatxRequest(dirfd: int, path: string, flags: bv32, mask: bv32)

  /** What unix.Statx did: filled the Statx_t, or failed with an error. */
  datatype StatxOutcome = Filled(statx: Statx) | Failed(err: Error)

  /** The statx system call as the running kernel answers it. */
  type StatxCall = StatxRequest -> StatxOutcome

  /** errors.Is(err, unix.ENOSYS). */
  predicate IsENOSYS(e: Error) {
    e == Errno(ENOSYS)
  }

  /** The query Stat issues. */
  function StatRequest(name: string): StatxRequest {
    StatxRequest(AT_FDCWD, name, AT_EMPTY_PATH | AT_STATX_SYNC_AS_STAT, RequestedFields)
  }

  /** The query Lstat issues. */
  function LstatRequest(name: string): StatxRequest {
    StatxRequest(AT_FDCWD, name, AT_EMPTY_PATH | AT_STATX_SYNC_AS_STAT | AT_SYMLINK_NOFOLLOW, RequestedFields)
  }

  /** The query StatFile issues: the descriptor itself, with an empty path. */
  function StatFileRequest(file: File): StatxRequest {
    StatxRequest(file.fd, "", AT_EMPTY_PATH | AT_STATX_SYNC_AS_STAT, RequestedFields)
  }

  /** Lstat asks for what Stat asks for and, in addition, not to follow a final
      symlink; StatFile asks about the descriptor with an empty path. All three
      request the same four timestamp fields. */
  lemma RequestsDiffer(name: string, file: File)
    ensures StatRequest(name).flags & AT_SYMLINK_NOFOLLOW == 0
    ensures LstatRequest(name) == StatRequest(name).(flags := StatRequest(name).flags | AT_SYMLINK_NOFOLLOW)
    ensures StatFileRequest(file) == StatRequest("").(dirfd := file.fd)
    ensures StatRequest(name).mask == LstatRequest(name).mask == StatFileRequest(file).mask
    ensures var m := StatRequest(name).mask;
            m & STATX_ATIME != 0 && m & STATX_MTIME != 0 && m & STATX_CTIME != 0 && m & STATX_BTIME != 0
  {
  }

  /** statxTimestampToTime: time.Unix(ts.Sec, int64(ts.Nsec)). The instant has
      ts.Sec whole seconds and ts.Nsec nanoseconds, any whole seconds in ts.Nsec
      carried into the seconds. */
  function StatxTimestampToTime(ts: StatxTimestamp): (t: Time)
    ensures UnixSeconds(t) == ts.sec + ts.nsec / NanosPerSecond
    ensures SubsecondNanos(t) == ts.nsec % NanosPerSecond
  {
    Unix(ts.sec, ts.nsec)
  }

  /** timespecToTime: time.Unix(ts.Sec, ts.Nsec). The same split holds, also for a
      negative ts.Nsec, which borrows from the seconds. */
  function TimespecToTime(ts: SysTimespec): (t: Time)
    ensures UnixSeconds(t) == ts.sec + ts.nsec / NanosPerSecond
    ensures SubsecondNanos(t) == ts.nsec % NanosPerSecond
  {
    Unix(ts.sec, ts.nsec)
  }

  /** Whether statx reported the birth time as populated:
      statx.Mask&unix.STATX_BTIME == unix.STATX_BTIME on the uint32 mask of the
      reply. The test reads bit 11 of the mask and no other bit. */
  function HasBtime(mask: Uint32): (b: bool)
    ensures b <==> Bit(mask, 11)
  {
    assert Pow2(11) == STATX_BTIME as int;
    AndPow2(mask, 11);
    And(mask, STATX_BTIME as int) == STATX_BTIME as int
  }

  /** extractTimes: access, modification and change time always; birth time only
      when the returned mask marks it populated. */
  function ExtractTimes(s: Statx): (ts: Timespec)
    ensures ts.btime.Some? <==> HasBtime(s.mask)
    ensures ts.btime.Some? ==> ts.btime.value == StatxTimestampToTime(s.btime)
    ensures ts.ctime == Some(StatxTimestampToTime(s.ctime))
    ensures ts.atime == StatxTimestampToTime(s.atime) && ts.mtime == StatxTimestampToTime(s.mtime)
  {
    if HasBtime(s.mask) then
      Timespec(StatxTimestampToTime(s.atime), StatxTimestampToTime(s.mtime),
               Some(StatxTimestampToTime(s.ctime)), Some(StatxTimestampToTime(s.btime)))
    else
      Timespec(StatxTimestampToTime(s.atime), StatxTimestampToTime(s.mtime),
               Some(StatxTimestampToTime(s.ctime)), None)
  }

  /** The record depends on the mask only through bit 11 (STATX_BTIME), and on the
      birth timestamp only when that bit is set. */
  lemma ExtractTimesDependsOn(s1: Statx, s2: Statx)
    requires s1.atime == s2.atime && s1.mtime == s2.mtime && s1.ctime == s2.ctime
    requires Bit(s1.mask, 11) == Bit(s2.mask, 11)
    requires Bit(s1.mask, 11) ==> s1.btime == s2.btime
    ensures ExtractTimes(s1) == ExtractTimes(s2)
  {
  }

  /** getTimespec: the fallback record from a Stat_t, with change time and never a
      birth time. */
  function GetTimespec(fi: FileInfo): (ts: Timespec)
    ensures ts.ctime.Some? && ts.btime.None?
    ensures ts.atime == TimespecToTime(fi.sys.atim)
    ensures ts.mtime == TimespecToTime(fi.sys.mtim)
    ensures ts.ctime.value == TimespecToTime(fi.sys.ctim)
  {
    Timespec(TimespecToTime(fi.sys.atim), TimespecToTime(fi.sys.mtim), Some(TimespecToTime(fi.sys.ctim)), None)
  }

  /** When statx does not report a birth time and both calls see the same
      timestamps, the statx path and the stat path produce the same record. */
  lemma StatxAgreesWithStat(s: Statx, fi: FileInfo)
    requires !HasBtime(s.mask)
    requires s.atime.sec == fi.sys.atim.sec && s.atime.nsec == fi.sys.atim.nsec
    requires s.mtime.sec == fi.sys.mtim.sec && s.mtime.nsec == fi.sys.mtim.nsec
    requires s.ctime.sec == fi.sys.ctim.sec && s.ctime.nsec == fi.sys.ctim.nsec
    ensures ExtractTimes(s) == GetTimespec(fi)
  {
  }

  /** The branch all three entry points share: ENOSYS selects the fallback, any
      other error is returned unchanged with no record, success extracts the times. */
  function FromStatx(outcome: StatxOutcome, fallback: Result<Timespec>): Result<Timespec> {
    match outcome
    case Failed(e) => if IsENOSYS(e) then fallback else Err(e)
    case Filled(s) => Ok(ExtractTimes(s))
  }

  /** Stat(name). fallback is the outcome of the stat path, stat(name, os.Stat). */
  function Stat(name: string, statx: StatxCall, fallback: Result<Timespec>): (r: Result<Timespec>)
    ensures match statx(StatRequest(name))
            case Failed(e) => r == if IsENOSYS(e) then fallback else Err(e)
            case Filled(s) => r == Ok(ExtractTimes(s))
  {
    FromStatx(statx(StatRequest(name)), fallback)
  }

  /** Lstat(name). fallback is the outcome of stat(name, os.Lstat). */
  function Lstat(name: string, statx: StatxCall, fallback: Result<Timespec>): (r: Result<Timespec>)
    ensures match statx(LstatRequest(name))
            case Failed(e) => r == if IsENOSYS(e) then fallback else Err(e)
            case Filled(s) => r == Ok(ExtractTimes(s))
  {
    FromStatx(statx(LstatRequest(name)), fallback)
  }

  /** StatFile(file). fileStat is the outcome of file.Stat(), used only when the
      kernel lacks statx. */
  function StatFile(file: File, statx: StatxCall, fileStat: Result<FileInfo>): (r: Result<Timespec>)
    ensures match statx(StatFileRequest(file))
            case Failed(e) =>
              if !IsENOSYS(e) then r == Err(e)
              else if fileStat.Err? then r == Err(fileStat.error)
              else r == Ok(GetTimespec(fileStat.value))
            case Filled(s) => r == Ok(ExtractTimes(s))
  {
    FromStatx(statx(StatFileRequest(file)), Times.Stat(GetTimespec, fileStat))
  }

  /** The ENOSYS of a kernel without statx never reaches the caller, unless the
      fallback itself reports it. */
  lemma NoENOSYSSurfaces(name: string, file: File, statx: StatxCall,
                         fallback: Result<Timespec>, fileStat: Result<FileInfo>)
    requires fallback.Err? ==> !IsENOSYS(fallback.error)
    requires fileStat.Err? ==> !IsENOSYS(fileStat.error)
    ensures Stat(name, statx, fallback).Err? ==> !IsENOSYS(Stat(name, statx, fallback).error)
    ensures Lstat(name, statx, fallback).Err? ==> !IsENOSYS(Lstat(name, statx, fallback).error)
    ensures StatFile(file, statx, fileStat).Err? ==> !IsENOSYS(StatFile(file, statx, fileStat).error)
  {
  }

  /** Every record the Linux entry points return carries a change time, provided the
      stat path behind Stat and Lstat yields one (as getTimespec does). */
  lemma ChangeTimeAlwaysPresent(name: string, file: File, statx: StatxCall,
                                fallback: Result<Timespec>, fileStat: Result<FileInfo>)
    requires fallback.Ok? ==> fallback.value.ctime.Some?
    ensures Stat(name, statx, fallback).Ok? ==> Stat(name, statx, fallback).value.ctime.Some?
    ensures Lstat(name, statx, fallback).Ok? ==> Lstat(name, statx, fallback).value.ctime.Some?
    ensures StatFile(file, statx, fileStat).Ok? ==> StatFile(file, statx, fileStat).value.ctime.Some?
  {
  }

  /** A birth time is reported only when statx succeeded and marked it populated,
      provided the stat path yields none (as getTimespec does). */
  lemma BirthTimeOnlyFromStatx(name: string, file: File, statx: StatxCall,
                               fallback: Result<Timespec>, fileStat: Result<FileInfo>)
    requires fallback.Ok? ==> fallback.value.btime.None?
    ensures var r := Stat(name, statx, fallback);
            r.Ok? && r.value.btime.Some? <==>
            statx(StatRequest(name)).Filled? && HasBtime(statx(StatRequest(name)).statx.mask)
    ensures var r := Lstat(name, statx, fallback);
            r.Ok? && r.value.btime.Some? <==>
            statx(LstatRequest(name)).Filled? && HasBtime(statx(LstatRequest(name)).statx.mask)
    ensures var r := StatFile(file, statx, fileStat);
            r.Ok? && r.value.btime.Some? <==>
            statx(StatFileRequest(file)).Filled? && HasBtime(statx(StatFileRequest(file)).statx.mask)
  {
  }
}
