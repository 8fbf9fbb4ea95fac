/** The Windows backend (times_windows.go): the record is filled from the three
    FILETIME fields of Win32FileAttributeData; birth time is always present and
    change time never is. Filetime.Nanoseconds(), which converts the 100-ns ticks
    since 1601 to nanoseconds since 1970, is library code and is a parameter here. */
module WindowsTimes {
  import opened GoInt
  import opened Times

  /** syscall.Filetime. */
  datatype Filetime = Filetime(lowDateTime: Uint32, highDateTime: Uint32)

  /** The part of syscall.Win32FileAttributeData this package reads. */
  datatype Win32FileAttributeData = Win32FileAttributeData(creationTime: Filetime, lastAccessTime: Filetime,
                                                           lastWriteTime: Filetime)

  /** An os.FileInfo whose Sys() is a Win32FileAttributeData. */
  datatype FileInfo = FileInfo(sys: Win32FileAttributeData)

  /** getTimespec: atime from LastAccessTime, mtime from LastWriteTime, btime from
      CreationTime, and noctime. Each is time.Unix(0, ft.Nanoseconds()), which is
      exactly the given nanosecond count. */
  function GetTimespec(nanoseconds: Filetime -> Int64, fi: FileInfo): (ts: Timespec)
    ensures ts.ctime.None?
    ensures ts.btime == Some(nanoseconds(fi.sys.creationTime) as Time)
    ensures ts.atime == nanoseconds(fi.sys.lastAccessTime)
    ensures ts.mtime == nanoseconds(fi.sys.lastWriteTime)
  {
    var stat := fi.sys;
    Timespec(Unix(0, nanoseconds(stat.lastAccessTime)),
             Unix(0, nanoseconds(stat.lastWriteTime)),
             None,
             Some(Unix(0, nanoseconds(stat.creationTime))))
  }

  /** On Windows the generic Stat and Get report a birth time and never a change
      time; the birth time is the creation time. */
  lemma StatCapabilities(nanoseconds: Filetime -> Int64, osStat: Result<FileInfo>, fi: FileInfo)
    ensures var r := Times.Stat(fi' => GetTimespec(nanoseconds, fi'), osStat);
            r.Ok? ==> !ChangeTime(r.value).1 && BirthTime(r.value) == (nanoseconds(osStat.value.sys.creationTime) as Time, true)
    ensures var ts := Get(fi' => GetTimespec(nanoseconds, fi'), fi);
            ChangeTime(ts) == (ZeroTime, false) && BirthTime(ts) == (nanoseconds(fi.sys.creationTime) as Time, true)
  {
  }
}
