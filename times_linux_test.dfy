/** The helpers and cases of times_linux_test.go: timeToStatx splits an instant into
    a statx timestamp, statxT builds a filled Statx_t, and the fake statx
    implementations drive Stat, Lstat and StatFile through each of their paths. */
module LinuxTimesTest {
  import opened GoInt
  import opened Times
  import opened LinuxTimes

  /** timeToStatx. t.UnixNano() is defined only while the nanosecond count fits in an
      int64. The duration arithmetic is Go's int64 arithmetic and wraps on overflow;
      it does overflow for instants less than a second above the int64 minimum, yet
      the timestamp still holds the whole seconds and the sub-second nanoseconds of t. */
  function TimeToStatx(t: Time): (ts: StatxTimestamp)
    requires InInt64(t)
    ensures ts.sec == UnixSeconds(t)
    ensures ts.nsec == SubsecondNanos(t)
  {
    var unixNano := WrapInt64(t * 1);
    var sec := UnixSeconds(t);
    assert InInt64(sec) by {
      assert sec * NanosPerSecond <= t < (sec + 1) * NanosPerSecond;
    }
    var nsec := WrapInt64(unixNano - WrapInt64(sec * NanosPerSecond));
    assert nsec == SubsecondNanos(t) by {
      WrapInt64InRange(t * 1);
      WrapInt64Sub(t, sec * NanosPerSecond);
      WrapInt64InRange(t - sec * NanosPerSecond);
    }
    StatxTimestamp(sec, ToUint32(nsec))
  }

  /** Converting the timestamp of timeToStatx back with statxTimestampToTime gives
      the original instant. */
  lemma TimeToStatxRoundTrip(t: Time)
    requires InInt64(t)
    ensures StatxTimestampToTime(TimeToStatx(t)) == t
  {
    UnixOfSplit(t);
  }

  /** The zero value of unix.StatxTimestamp. */
  const ZeroStatxTimestamp: StatxTimestamp := StatxTimestamp(0, 0)

  /** statxT: a Statx_t whose access, modification and change timestamps are t, and
      which, if hasBtime, has birth time t and only the birth-time bit in its mask;
      every other field keeps its zero value. */
  function StatxT(t: Time, hasBtime: bool): (s: Statx)
    requires InInt64(t)
    ensures s.mask == if hasBtime then STATX_BTIME as int else 0
    ensures HasBtime(s.mask) <==> hasBtime
    ensures s.atime == s.mtime == s.ctime == TimeToStatx(t)
    ensures hasBtime ==> s.btime == TimeToStatx(t)
    ensures !hasBtime ==> s.btime == ZeroStatxTimestamp
  {
    var statxt := TimeToStatx(t);
    if hasBtime then Statx(STATX_BTIME as int, statxt, statxt, statxt, statxt)
    else Statx(0, statxt, ZeroStatxTimestamp, statxt, statxt)
  }

  /** extractTimes recovers t in every field that statxT filled, and reports a birth
      time exactly when statxT set one. */
  lemma ExtractStatxT(t: Time, hasBtime: bool)
    requires InInt64(t)
    ensures ExtractTimes(StatxT(t, hasBtime)) == Timespec(t, t, Some(t), if hasBtime then Some(t) else None)
  {
    TimeToStatxRoundTrip(t);
  }

  /** unsupportedStatx: a kernel without statx; every query fails with ENOSYS. */
  function UnsupportedStatx(q: StatxRequest): (o: StatxOutcome)
    ensures o.Failed? && IsENOSYS(o.err)
  {
    Failed(Errno(ENOSYS))
  }

  /** errBadStatx, returned by badStatx. */
  const ErrBadStatx: Error := Failure("bad")

  /** badStatx: statx failing, for every query, with an error other than ENOSYS. */
  function BadStatx(q: StatxRequest): (o: StatxOutcome)
    ensures o.Failed? && !IsENOSYS(o.err)
  {
    Failed(ErrBadStatx)
  }

  /** fakeSupportedStatx(ts): statx copying ts into the caller's buffer, whatever is asked. */
  function FakeSupportedStatx(s: Statx): (statx: StatxCall)
    ensures forall q :: statx(q) == Filled(s)
  {
    q => Filled(s)
  }

  /** The "unsupported" case: every entry point returns what the stat path returns. */
  lemma UnsupportedUsesFallback(name: string, file: File, fallback: Result<Timespec>, fileStat: Result<FileInfo>)
    ensures LinuxTimes.Stat(name, UnsupportedStatx, fallback) == fallback
    ensures Lstat(name, UnsupportedStatx, fallback) == fallback
    ensures StatFile(file, UnsupportedStatx, fileStat) == Times.Stat(GetTimespec, fileStat)
  {
  }

  /** The "bad stat" case: the error comes back unchanged, whatever the stat path
      would have returned. */
  lemma BadStatxPropagates(name: string, file: File, fallback: Result<Timespec>, fileStat: Result<FileInfo>)
    ensures LinuxTimes.Stat(name, BadStatx, fallback) == Err(ErrBadStatx)
    ensures Lstat(name, BadStatx, fallback) == Err(ErrBadStatx)
    ensures StatFile(file, BadStatx, fileStat) == Err(ErrBadStatx)
  {
  }

  /** The two "fake supported" cases: every entry point returns t in each field,
      with a birth time exactly in the case that has one. */
  lemma FakeSupportedReturnsT(t: Time, hasBtime: bool, name: string, file: File,
                               fallback: Result<Timespec>, fileStat: Result<FileInfo>)
    requires InInt64(t)
    ensures var want := Ok(Timespec(t, t, Some(t), if hasBtime then Some(t) else None));
            var statx := FakeSupportedStatx(StatxT(t, hasBtime));
            LinuxTimes.Stat(name, statx, fallback) == want &&
            Lstat(name, statx, fallback) == want &&
            StatFile(file, statx, fileStat) == want
  {
    ExtractStatxT(t, hasBtime);
  }
}
