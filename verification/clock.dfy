/** The parts of package time the cookie store relies on, with instants as
    integer nanoseconds since the Unix epoch. */
module Clock {
  import opened Bytes

  const NanosPerSecond: nat := 1_000_000_000

  /** time.Duration: a signed 64-bit count of nanoseconds. */
  type Duration = int64

  const MinDuration: Duration := -0x8000_0000_0000_0000
  const MaxDuration: Duration := 0x7fff_ffff_ffff_ffff

  /** A time.Time as nanoseconds since 00:00:00 UTC on 1 January 1970. */
  type Instant = int

  /** time.Unix(0, 0). */
  const UnixEpoch: Instant := 0

  /** The zero time.Time, 00:00:00 UTC on 1 January of year 1. */
  const ZeroTime: Instant := -62_135_596_800 * NanosPerSecond

  /** Time.Unix: whole seconds since the epoch, rounded down. */
  function UnixSeconds(t: Instant): (s: int)
    ensures s * NanosPerSecond <= t < s * NanosPerSecond + NanosPerSecond
  {
    t / NanosPerSecond
  }

  /** time.Unix(sec, 0). */
  function FromUnix(sec: int): (t: Instant)
    ensures UnixSeconds(t) == sec
    ensures t % NanosPerSecond == 0
  {
    sec * NanosPerSecond
  }

  /** The instant that survives a round trip through whole Unix seconds. */
  function Truncate(t: Instant): (r: Instant)
    ensures r <= t < r + NanosPerSecond
    ensures r % NanosPerSecond == 0
  {
    FromUnix(UnixSeconds(t))
  }

  /** Time.Sub: the exact difference, saturated to the Duration range. */
  function Sub(t: Instant, u: Instant): (d: Duration)
    ensures MinDuration <= t - u <= MaxDuration ==> d == t - u
    ensures t - u > MaxDuration ==> d == MaxDuration
    ensures t - u < MinDuration ==> d == MinDuration
  {
    if t - u > MaxDuration then MaxDuration
    else if t - u < MinDuration then MinDuration
    else t - u
  }

  /** d / time.Second for a Duration d: Go's integer division, which
      truncates toward zero. */
  function WholeSeconds(d: Duration): (q: int)
    ensures d >= 0 ==> 0 <= q && q * NanosPerSecond <= d < q * NanosPerSecond + NanosPerSecond
    ensures d < 0 ==> q <= 0 && q * NanosPerSecond - NanosPerSecond < d <= q * NanosPerSecond
  {
    var m: int := d;
    if m >= 0 then m / NanosPerSecond else -((-m) / NanosPerSecond)
  }
}
