/** The HC-SR04 helpers of ultrasonic01.h: the echo-width-to-centimetre conversion of
    `measure_cm` and the three-sample median used for noise rejection. */
module Ultrasonic {

  /** `Timings::timeout_us`, the default bound on each echo wait. */
  const DefaultTimeoutUs: int := 300000

  /** What the two busy-wait loops of `measure_cm` observe: how long the echo line took
      to rise after the trigger pulse, and how long it then stayed high (both in
      microseconds, as read from the boot timer). */
  datatype Echo = Echo(riseWaitUs: nat, pulseUs: nat)

  /** `measure_cm`: -1 when either wait exceeds the timeout, otherwise the pulse width
      divided by 58 and rounded to the nearest centimetre. */
  function MeasureCm(e: Echo, timeoutUs: int): (cm: int)
    ensures cm == -1 <==> (e.riseWaitUs > timeoutUs || e.pulseUs > timeoutUs)
    ensures cm != -1 ==> cm >= 0 && 58 * cm - 29 <= e.pulseUs < 58 * cm + 29
  {
    if e.riseWaitUs > timeoutUs then -1
    else if e.pulseUs > timeoutUs then -1
    else (e.pulseUs + 29) / 58
  }

  /** With the default timeout every successful reading stays below 10000, the sentinel
      the nodes substitute for a timeout, so a median above 9999 always means a sentinel. */
  lemma ReadingBelowSentinel(e: Echo)
    ensures MeasureCm(e, DefaultTimeoutUs) <= 5172
  {
  }

  /** What `measure_cm` returns for each echo of a sampling loop, at the default
      timeout. */
  function Readings(echoes: seq<Echo>): (raw: seq<int>)
    ensures |raw| == |echoes|
    ensures forall j :: 0 <= j < |echoes| ==> raw[j] == MeasureCm(echoes[j], DefaultTimeoutUs)
  {
    seq(|echoes|, j requires 0 <= j < |echoes| => MeasureCm(echoes[j], DefaultTimeoutUs))
  }

  /** `median3`: three conditional swaps of locals, then the middle one. The result is
      one of the arguments, lies between the smallest and the largest, and at least two
      of the three are on either side of it (itself included): it is the middle value. */
  function Median3(a: int, b: int, c: int): (m: int)
    ensures m == a || m == b || m == c
    ensures Min3(a, b, c) <= m <= Max3(a, b, c)
    ensures (if a <= m then 1 else 0) + (if b <= m then 1 else 0) + (if c <= m then 1 else 0) >= 2
    ensures (if a >= m then 1 else 0) + (if b >= m then 1 else 0) + (if c >= m then 1 else 0) >= 2
  {
    var (a1, b1) := if a > b then (b, a) else (a, b);
    var (b2, c2) := if b1 > c then (c, b1) else (b1, c);
    var (a3, b3) := if a1 > b2 then (b2, a1) else (a1, b2);
    b3
  }

  function Min3(a: int, b: int, c: int): int {
    if a <= b && a <= c then a else if b <= c then b else c
  }

  function Max3(a: int, b: int, c: int): int {
    if a >= b && a >= c then a else if b >= c then b else c
  }

  /** The order in which the three samples arrive does not matter. */
  lemma Median3Symmetric(a: int, b: int, c: int)
    ensures Median3(a, b, c) == Median3(b, a, c)
    ensures Median3(a, b, c) == Median3(a, c, b)
    ensures Median3(a, b, c) == Median3(c, b, a)
    ensures Median3(a, b, c) == Median3(b, c, a)
    ensures Median3(a, b, c) == Median3(c, a, b)
  {
  }

  /** Two agreeing samples outvote the third, wherever it stands: a single outlier never
      wins, and two sentinels force the sentinel. */
  lemma Median3Majority(x: int, y: int)
    ensures Median3(x, x, y) == x
    ensures Median3(x, y, x) == x
    ensures Median3(y, x, x) == x
  {
  }
}
