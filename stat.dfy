/** The platform-independent part of the package (stat.go): the instant type, the
    capability-tagged record every backend returns, its four accessors, and the
    generic entry points Get and Stat, which take the backend's getTimespec as a
    parameter. */
module Times {

  /** An instant, as a count of nanoseconds since 1970-01-01T00:00:00Z. */
  type Time = int

  const NanosPerSecond: int := 1_000_000_000

  /** Go's zero time.Time, 0001-01-01T00:00:00Z, which is 62135596800 seconds before
      the Unix epoch. The accessors of an absent field return it. */
  const ZeroTime: Time := -62_135_596_800 * NanosPerSecond

  /** t.Unix(): the whole seconds of t, rounded towards the past. */
  function UnixSeconds(t: Time): int
  {
    t / NanosPerSecond
  }

  /** t.Nanosecond(): the offset of t within its second. */
  function SubsecondNanos(t: Time): (n: int)
    ensures 0 <= n < NanosPerSecond
  {
    t % NanosPerSecond
  }

  /** time.Unix(sec, nsec): the instant sec seconds plus nsec nanoseconds after the
      epoch. nsec may lie outside [0, 1e9): the instant then has the whole seconds of
      nsec carried into its seconds, and nothing is lost or clamped. */
  function Unix(sec: int, nsec: int): (t: Time)
    ensures UnixSeconds(t) == sec + nsec / NanosPerSecond
    ensures SubsecondNanos(t) == nsec % NanosPerSecond
  {
    var q, r := sec + nsec / NanosPerSecond, nsec % NanosPerSecond;
    assert sec * NanosPerSecond + nsec == q * NanosPerSecond + r;
    DivModUnique(sec * NanosPerSecond + nsec, q, r);
    sec * NanosPerSecond + nsec
  }

  /** Division by NanosPerSecond is determined by quotient and remainder. */
  lemma DivModUnique(t: int, q: int, r: int)
    requires t == q * NanosPerSecond + r && 0 <= r < NanosPerSecond
    ensures t / NanosPerSecond == q && t % NanosPerSecond == r
  {
    var q', r' := t / NanosPerSecond, t % NanosPerSecond;
    assert (q - q') * NanosPerSecond == r' - r;
  }

  /** Splitting an instant into seconds and sub-second nanoseconds and rebuilding it
      with time.Unix gives the same instant. */
  lemma UnixOfSplit(t: Time)
    ensures Unix(UnixSeconds(t), SubsecondNanos(t)) == t
  {
  }

  datatype Option<T> = None | Some(value: T)

  /** The Timespec interface. Go assembles it from embedded components: atime and
      mtime always, ctime or noctime, btime or nobtime. Here ctime == Some(v) stands
      for a ctime component holding v and ctime == None for noctime; likewise btime. */
  datatype Timespec = Timespec(atime: Time, mtime: Time, ctime: Option<Time>, btime: Option<Time>)

  /** AccessTime(), provided by the atime component. */
  function AccessTime(ts: Timespec): (t: Time)
    ensures t == ts.atime
  {
    ts.atime
  }

  /** ModTime(), provided by the mtime component. */
  function ModTime(ts: Timespec): (t: Time)
    ensures t == ts.mtime
  {
    ts.mtime
  }

  /** ChangeTime(): (v, true) from a ctime component and (zero time, false) from
      noctime. The flag is true exactly when a change time is available. */
  function ChangeTime(ts: Timespec): (r: (Time, bool))
    ensures r.1 <==> ts.ctime.Some?
    ensures r.1 ==> r.0 == ts.ctime.value
    ensures !r.1 ==> r.0 == ZeroTime
  {
    match ts.ctime
    case Some(v) => (v, true)
    case None => (ZeroTime, false)
  }

  /** BirthTime(): (v, true) from a btime component and (zero time, false) from
      nobtime. The flag is true exactly when a birth time is available. */
  function BirthTime(ts: Timespec): (r: (Time, bool))
    ensures r.1 <==> ts.btime.Some?
    ensures r.1 ==> r.0 == ts.btime.value
    ensures !r.1 ==> r.0 == ZeroTime
  {
    match ts.btime
    case Some(v) => (v, true)
    case None => (ZeroTime, false)
  }

  /** The record a caller can rebuild from what the four accessors report. */
  function FromAccessors(atime: Time, mtime: Time, change: (Time, bool), birth: (Time, bool)): Timespec
  {
    Timespec(atime, mtime,
             if change.1 then Some(change.0) else None,
             if birth.1 then Some(birth.0) else None)
  }

  /** The accessors lose nothing: the record is determined by what they report, so
      an absent field is never confused with one that holds the zero time. */
  lemma AccessorsDetermineRecord(ts: Timespec)
    ensures FromAccessors(AccessTime(ts), ModTime(ts), ChangeTime(ts), BirthTime(ts)) == ts
  {
  }

  /** A stored zero time and an absent field are told apart by the flag. */
  lemma AbsentIsNotZero(a: Time, m: Time, b: Option<Time>, c: Option<Time>)
    ensures ChangeTime(Timespec(a, m, Some(ZeroTime), b)) != ChangeTime(Timespec(a, m, None, b))
    ensures BirthTime(Timespec(a, m, c, Some(ZeroTime))) != BirthTime(Timespec(a, m, c, None))
  {
  }

  /** An OS error. Errno is a numeric system error (syscall.Errno); Failure is any
      other Go error value, known by its message. */
  datatype Error = Errno(code: int) | Failure(message: string)

  /** Go's (value, error) pair: Err carries the non-nil error, and the value
      returned beside it is nil. */
  datatype Result<T> = Ok(value: T) | Err(error: Error)

  /** Get(fi): the backend's record for an os.FileInfo the caller already has. It
      has no error path. */
  function Get<FI>(getTimespec: FI -> Timespec, fi: FI): (ts: Timespec)
    ensures ts == getTimespec(fi)
  {
    getTimespec(fi)
  }

  /** Stat(name), given the outcome of os.Stat(name): a failure is returned as it is
      with no record, a success becomes the backend's record for the FileInfo. So
      Stat succeeds exactly when os.Stat does, and then agrees with Get. */
  function Stat<FI>(getTimespec: FI -> Timespec, osStat: Result<FI>): (r: Result<Timespec>)
    ensures r.Ok? <==> osStat.Ok?
    ensures osStat.Err? ==> r == Err(osStat.error)
    ensures osStat.Ok? ==> r.value == Get(getTimespec, osStat.value)
  {
    match osStat
    case Err(e) => Err(e)
    case Ok(fi) => Ok(getTimespec(fi))
  }
}
