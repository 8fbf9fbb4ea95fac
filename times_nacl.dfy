/** The NaCl backend (times_nacl.go): the record is filled from the second and
    nanosecond fields of the native Stat_t; change time is always present and birth
    time never is. */
module NaclTimes {
  import opened GoInt
  import opened Times

  /** The part of NaCl's syscall.Stat_t this package reads. */
  datatype StatT = StatT(atime: Int64, atimeNsec: Int64, mtime: Int64, mtimeNsec: Int64,
                         ctime: Int64, ctimeNsec: Int64)

  /** An os.FileInfo whose Sys() is a Stat_t. */
  datatype FileInfo = FileInfo(sys: StatT)

  /** timespecToTime(sec, nsec) = time.Unix(sec, nsec). The conversion is exact even
      when nsec lies outside [0, 1e9): the instant has sec + nsec / 1e9 whole seconds
      and nsec % 1e9 nanoseconds. */
  function TimespecToTime(sec: Int64, nsec: Int64): (t: Time)
    ensures UnixSeconds(t) == sec + nsec / NanosPerSecond
    ensures SubsecondNanos(t) == nsec % NanosPerSecond
  {
    Unix(sec, nsec)
  }

  /** getTimespec: atime, mtime and ctime components, and nobtime. Each present field
      is converted from its own second and nanosecond pair. */
  function GetTimespec(fi: FileInfo): (ts: Timespec)
    ensures ts.ctime.Some? && ts.btime.None?
    ensures ts.atime == TimespecToTime(fi.sys.atime, fi.sys.atimeNsec)
    ensures ts.mtime == TimespecToTime(fi.sys.mtime, fi.sys.mtimeNsec)
    ensures ts.ctime == Some(TimespecToTime(fi.sys.ctime, fi.sys.ctimeNsec))
  {
    var stat := fi.sys;
    Timespec(TimespecToTime(stat.atime, stat.atimeNsec),
             TimespecToTime(stat.mtime, stat.mtimeNsec),
             Some(TimespecToTime(stat.ctime, stat.ctimeNsec)),
             None)
  }

  /** Each record field is taken from its own pair of native fields, so no field is
      wired to another's source: two Stat_t that agree on one pair give records that
      agree on the matching field. */
  lemma FieldsNotCrossWired(fi1: FileInfo, fi2: FileInfo)
    ensures (fi1.sys.atime, fi1.sys.atimeNsec) == (fi2.sys.atime, fi2.sys.atimeNsec) ==>
              GetTimespec(fi1).atime == GetTimespec(fi2).atime
    ensures (fi1.sys.mtime, fi1.sys.mtimeNsec) == (fi2.sys.mtime, fi2.sys.mtimeNsec) ==>
              GetTimespec(fi1).mtime == GetTimespec(fi2).mtime
    ensures (fi1.sys.ctime, fi1.sys.ctimeNsec) == (fi2.sys.ctime, fi2.sys.ctimeNsec) ==>
              GetTimespec(fi1).ctime == GetTimespec(fi2).ctime
  {
  }

  /** Each accessor reports the seconds and nanoseconds of its own native pair,
      whatever the nanosecond field holds: whole seconds in it are carried into the
      seconds, and a negative one borrows from them. */
  lemma FieldsFromOwnPair(fi: FileInfo)
    ensures var ts := GetTimespec(fi);
            UnixSeconds(AccessTime(ts)) == fi.sys.atime + fi.sys.atimeNsec / NanosPerSecond &&
            SubsecondNanos(AccessTime(ts)) == fi.sys.atimeNsec % NanosPerSecond &&
            UnixSeconds(ModTime(ts)) == fi.sys.mtime + fi.sys.mtimeNsec / NanosPerSecond &&
            SubsecondNanos(ModTime(ts)) == fi.sys.mtimeNsec % NanosPerSecond &&
            ChangeTime(ts).1 &&
            UnixSeconds(ChangeTime(ts).0) == fi.sys.ctime + fi.sys.ctimeNsec / NanosPerSecond &&
            SubsecondNanos(ChangeTime(ts).0) == fi.sys.ctimeNsec % NanosPerSecond
  {
  }

  /** On NaCl the generic Stat reports a change time and never a birth time. */
  lemma StatCapabilities(osStat: Result<FileInfo>)
    ensures Times.Stat(GetTimespec, osStat).Ok? ==>
              ChangeTime(Times.Stat(GetTimespec, osStat).value).1 &&
              !BirthTime(Times.Stat(GetTimespec, osStat).value).1
  {
  }
}
