# times: file timestamps across platforms, in Dafny

This project models the core of the Go package `times` (djherbis/times), which
reports a file's access, modification, change and birth times through one
interface whatever the platform. The model covers:

- the capability-tagged record `Timespec` (stat.go): access and modification time
  always, change and birth time each either present or absent, with the accessors
  `AccessTime`, `ModTime`, `ChangeTime` and `BirthTime`; absence is an `Option`
  (`None` stands for Go's `noctime`/`nobtime` components, whose accessors return the
  zero `time.Time` and `false`);
- the generic `Get` and `Stat` of stat.go, parameterised by the backend's
  `getTimespec`;
- the Linux backend (times_linux.go): `Stat`, `Lstat` and `StatFile` each issue one
  statx query, fall back to the plain stat path on `ENOSYS`, return any other error
  unchanged, and otherwise build the record with `extractTimes`, whose birth time is
  present exactly when the returned mask has the `STATX_BTIME` bit;
- the NaCl and Windows field mappings (times_nacl.go, times_windows.go);
- the helpers and cases of times_linux_test.go, including the round trip between
  `timeToStatx` and `statxTimestampToTime`.

An instant (`Times.Time`) is an integer count of nanoseconds since the Unix epoch, so
`time.Unix(sec, nsec)` is `sec * 1_000_000_000 + nsec`. Go's zero `time.Time`
(0001-01-01 UTC) is `-62135596800` seconds. Native integer fields keep their Go
widths (`GoInt.Int64`, `GoInt.Uint32`). The reply mask `Statx_t.Mask` is a uint32
integer and Go's `&` on it is written out bit by bit (`GoInt.And`); the constant
flags and masks of the requests are 32-bit bit-vectors. The test helper's
`time.Duration` arithmetic is modelled with explicit int64 wrap-around (`GoInt.WrapInt64`), and the round-trip
lemma shows that the wrap-around, which does happen for instants within a second of
the int64 minimum, never changes its result.

System calls are inputs. The Linux statx call is a parameter of type
`StatxRequest -> StatxOutcome`, so the arguments each entry point passes (directory
descriptor, path, flags, field mask) are part of the model. The outcome of the
Linux stat path `stat(name, os.Stat)` / `stat(name, os.Lstat)`, whose helper is not
part of this model, is an abstract `Result<Timespec>` parameter, and the outcome of
`file.Stat()` is a `Result<FileInfo>` parameter. Go's `(value, error)` pair is
`Times.Result`: `Err` carries the error and stands for the nil record.

In two places the package does less than one might expect, and the model follows the code:
- times_linux.go keeps no process-wide "statx supported" flag; every call
  issues statx again and falls back on `ENOSYS`, so there is no capability cache in
  the model;
- the Linux constants say `HasBirthTime = false`, yet `extractTimes` reports a birth
  time whenever the kernel marks it populated; the model follows `extractTimes`.

## Model

| member | source | states |
|---|---|---|
| `GoInt.WrapInt64` | times_linux_test.go:14-15 | Go's int64 duration arithmetic yields an int64 congruent to the exact result modulo 2^64 |
| `GoInt.ToUint32` | times_linux_test.go:16 | uint32(x) keeps x modulo 2^32 |
| `GoInt.AndPow2` | times_linux.go:98 | masking an integer with a single bit 2^k yields 2^k if bit k is set and 0 otherwise |
| `GoInt.WrapInt64Unique` | times_linux_test.go:14-16 | the int64 result of wrapped arithmetic is the unique int64 congruent to the exact value modulo 2^64 |
| `GoInt.WrapInt64Sub` | times_linux_test.go:14-15 | wrapping an operand before a subtraction and wrapping after it give the same int64 |
| `Times.UnixOfSplit` | times_linux_test.go:13-17 | rebuilding an instant with time.Unix from its whole seconds and sub-second nanoseconds gives the instant back |
| `Times.Unix` | times_linux.go:94 | time.Unix(sec, nsec) is the instant with sec + nsec / 1e9 whole seconds and nsec % 1e9 sub-second nanoseconds, so an out-of-range nsec is carried into the seconds without loss |
| `Times.AccessTime` | stat.go:36 | AccessTime() returns the access time the atime component holds |
| `Times.ModTime` | stat.go:46 | ModTime() returns the modification time the mtime component holds |
| `Times.ChangeTime` | stat.go:48-58 | the flag is true iff the record has a change time; the value is then the stored one, and otherwise the zero time |
| `Times.BirthTime` | stat.go:50-62 | the flag is true iff the record has a birth time; the value is then the stored one, and otherwise the zero time |
| `Times.AccessorsDetermineRecord` | stat.go:23-62 | the four accessors together determine the record: access and modification time are the stored values and an absent field is distinguishable from a present one |
| `Times.AbsentIsNotZero` | stat.go:56-62 | a change or birth time that holds the zero time is reported differently from an absent one |
| `Times.Get` | stat.go:10-12 | Get(fi) is the backend's getTimespec(fi), with no error path |
| `Times.Stat` | stat.go:15-21 | Stat succeeds iff os.Stat does, then returns Get of the FileInfo, and otherwise returns os.Stat's own error with no record |
| `LinuxTimes.RequestsDiffer` | times_linux.go:44-76 | all three calls ask for the same mask with all four timestamp bits; Lstat's query is Stat's plus AT_SYMLINK_NOFOLLOW, which Stat's lacks; StatFile queries the descriptor with an empty path |
| `LinuxTimes.StatxTimestampToTime` | times_linux.go:93-95 | a statx timestamp denotes Sec whole seconds and Nsec nanoseconds, with any whole seconds in Nsec carried over |
| `LinuxTimes.TimespecToTime` | times_linux.go:114-116 | the same for a syscall.Timespec, whose Nsec may be negative and then borrows from the seconds |
| `LinuxTimes.HasBtime` | times_linux.go:98 | the test Mask & STATX_BTIME == STATX_BTIME holds exactly when bit 11 of the uint32 mask is set |
| `LinuxTimes.ExtractTimes` | times_linux.go:97-112 | birth time present iff the mask has STATX_BTIME, then taken from Btime; change time always present; access, modification and change come from Atime, Mtime and Ctime whatever the mask says |
| `LinuxTimes.ExtractTimesDependsOn` | times_linux.go:97-112 | the record depends on the mask only through the STATX_BTIME bit and on Btime only when that bit is set |
| `LinuxTimes.GetTimespec` | times_linux.go:118-124 | the stat-path record always has change time and never birth time; its fields come from Atim, Mtim and Ctim |
| `LinuxTimes.StatxAgreesWithStat` | times_linux.go:97-124 | with no birth time reported, the statx path and the stat path give the same record for the same timestamps |
| `LinuxTimes.Stat` | times_linux.go:41-54 | on ENOSYS the result is exactly the fallback's; any other statx error is returned unchanged with no record; success gives extractTimes of the filled struct |
| `LinuxTimes.Lstat` | times_linux.go:57-70 | the same as Stat, for the no-follow query and the os.Lstat fallback |
| `LinuxTimes.StatFile` | times_linux.go:73-91 | on ENOSYS it returns file.Stat()'s error if that fails and getTimespec of its FileInfo otherwise; other statx errors propagate unchanged; success gives extractTimes |
| `LinuxTimes.NoENOSYSSurfaces` | times_linux.go:41-91 | none of the three calls returns ENOSYS unless the fallback itself does |
| `LinuxTimes.ChangeTimeAlwaysPresent` | times_linux.go:26-124 | every record the three calls return has a change time, given a stat path that provides one |
| `LinuxTimes.BirthTimeOnlyFromStatx` | times_linux.go:41-112 | a returned record has a birth time iff statx succeeded with STATX_BTIME in its mask, given a stat path without birth time |
| `LinuxTimesTest.TimeToStatx` | times_linux_test.go:13-17 | timeToStatx yields the whole seconds and the sub-second nanoseconds of t despite int64 wrap-around in its duration arithmetic |
| `LinuxTimesTest.TimeToStatxRoundTrip` | times_linux_test.go:13-17 | statxTimestampToTime of timeToStatx(t) is the original instant t |
| `LinuxTimesTest.StatxT` | times_linux_test.go:19-34 | statxT's mask is exactly STATX_BTIME when hasBtime and 0 otherwise, so it passes the birth-time test iff hasBtime; access, modification and change stamps are timeToStatx(t); the birth stamp is timeToStatx(t) when hasBtime and the zero timestamp otherwise |
| `LinuxTimesTest.ExtractStatxT` | times_linux_test.go:19-34 | extractTimes of statxT(t, hasBtime) has t in access, modification and change time, and birth time t exactly when hasBtime |
| `LinuxTimesTest.UnsupportedStatx` | times_linux_test.go:38-40 | every query fails with ENOSYS |
| `LinuxTimesTest.BadStatx` | times_linux_test.go:42-46 | every query fails with an error that is not ENOSYS |
| `LinuxTimesTest.FakeSupportedStatx` | times_linux_test.go:48-53 | every query, whatever its arguments, fills in the given Statx_t and succeeds |
| `LinuxTimesTest.UnsupportedUsesFallback` | times_linux_test.go:38-40 | with a statx that always fails with ENOSYS, every call returns the stat path's result |
| `LinuxTimesTest.BadStatxPropagates` | times_linux_test.go:42-46 | with a statx that fails with another error, every call returns that error |
| `LinuxTimesTest.FakeSupportedReturnsT` | times_linux_test.go:48-53 | with a statx that fills statxT(t, hasBtime), every call returns t in each field, with birth time exactly when hasBtime |
| `NaclTimes.TimespecToTime` | times_nacl.go:22-24 | the conversion is exact for any nanosecond field, also outside [0, 1e9): sec + nsec / 1e9 whole seconds and nsec % 1e9 nanoseconds |
| `NaclTimes.GetTimespec` | times_nacl.go:15-32 | the record always has a change time and never a birth time; access, modification and change time are timespecToTime of Atime/AtimeNsec, Mtime/MtimeNsec and Ctime/CtimeNsec |
| `NaclTimes.FieldsNotCrossWired` | times_nacl.go:26-32 | each record field depends only on its own native pair: Atime/AtimeNsec, Mtime/MtimeNsec, Ctime/CtimeNsec |
| `NaclTimes.FieldsFromOwnPair` | times_nacl.go:26-32 | each accessor reports the seconds and nanoseconds of its own native pair, with whole seconds of an out-of-range nanosecond field carried into the seconds |
| `NaclTimes.StatCapabilities` | times_nacl.go:15-20 | the generic Stat on NaCl reports a change time and no birth time |
| `WindowsTimes.GetTimespec` | times_windows.go:15-28 | no change time; birth time from CreationTime; access from LastAccessTime and modification from LastWriteTime, each exactly the given nanosecond count |
| `WindowsTimes.StatCapabilities` | times_windows.go:15-28 | the generic Stat and Get on Windows report no change time and a birth time equal to the creation time |

## Left out

- The system calls themselves (`unix.Statx`, `os.Stat`, `os.Lstat`, `file.Stat`, `file.Fd`): foreign I/O, represented by their outcomes as parameters.
- The helper `stat(name, fn)` used by the Linux fallback is not part of this model; its outcome is an abstract parameter.
- `runtime.KeepAlive(file)` in StatFile: a garbage-collector lifetime concern with no logical content.
- A process-wide "statx supported" flag and its concurrency: times_linux.go has none (only its test refers to one).
- The constants `HasChangeTime` and `HasBirthTime`: on Linux they do not agree with what `extractTimes` returns, so no property relates them to records.
- The type assertion `fi.Sys().(*syscall.Stat_t)` (or `*syscall.Win32FileAttributeData`): the model's FileInfo always carries the native struct, so the panic on a foreign FileInfo is not modelled.
- `errors.Is` unwrapping of wrapped errors: statx returns a bare errno, so ENOSYS is recognised by equality.
- `Filetime.Nanoseconds()` (the 1601-epoch, 100-ns tick conversion): library code, taken as a given function.
- The range limits of Go's `time.Time` and its formatting and zones: instants are unbounded integers.
- stat_generic.go, a build-tag duplicate of stat.go's Stat, and example/main.go, a demo program.
- The wall-clock tests (times_test.go, the interval checks in times_linux_test.go), which depend on the current time.
