/** The configuration fields the core reads, and Go's 64-bit integer and
    `time.Duration` arithmetic. Loading from the environment is not part of
    this model: the fields arrive as parameters with any `int64` value. */
module Config {
  import opened Bytes

  const MinInt64: int := -0x8000_0000_0000_0000
  const MaxInt64: int := 0x7fff_ffff_ffff_ffff

  /** Go's `int` on a 64-bit platform. */
  type int64 = x: int | MinInt64 <= x <= MaxInt64

  /** Two's-complement wrap-around of a mathematical integer into `int64`,
      as Go's signed addition and multiplication behave on overflow. */
  function Wrap64(x: int): (r: int64)
    ensures MinInt64 <= x <= MaxInt64 ==> r == x
    ensures (r - x) % 0x1_0000_0000_0000_0000 == 0
  {
    (x - MinInt64) % 0x1_0000_0000_0000_0000 + MinInt64
  }

  /** One second as a `time.Duration` (nanoseconds). */
  const Second: int := 1_000_000_000

  /** The largest whole number of seconds a `time.Duration` can hold. */
  const MaxDurationSeconds: int := MaxInt64 / Second

  /** `time.Duration(n) * time.Second`, which wraps when `n` seconds do
      not fit in 64 bits of nanoseconds. */
  function Seconds(n: int64): (d: int64)
    ensures -MaxDurationSeconds <= n <= MaxDurationSeconds ==> d == n * Second
    ensures n <= 0 && -MaxDurationSeconds <= n ==> d <= 0
  {
    Wrap64(n * Second)
  }

  /** The fields of the process configuration the modelled code uses. */
  datatype Config = Config(
    msgCharLimit: int64,
    scheduleSec: int64,
    msgPerTick: int64,
    webhookTimeoutSeconds: int64,
    webhookAuthKey: Bytes,
    apiKey: Bytes)
}
