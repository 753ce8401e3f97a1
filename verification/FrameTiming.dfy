/** When the next frame starts: the arithmetic around the vertical blank. All times are in
    nanoseconds, and the elapsed time counts from the last vertical blank. */
module FrameTiming {
  import opened Geometry

  const MILLI := 1_000_000
  const SECOND := 1_000_000_000

  datatype Clock = Clock(vBlankInterval: int, fpsInterval: int, vBlankTime: int, blocksForRetrace: bool) {
    predicate IsValid() {
      0 < vBlankInterval <= SECOND && 0 <= fpsInterval <= SECOND && 0 <= vBlankTime <= SECOND
    }

    /** The frame interval is a positive number of blanks. */
    predicate Aligned() {
      IsValid() && vBlankInterval <= fpsInterval && fpsInterval % vBlankInterval == 0
    }

    /** What is noted as elapsed at startup and after an idle pass, to say "start now". */
    function StartNow(): int { fpsInterval - (vBlankTime + 1) }
  }

  /** Conversion to a 32-bit `int` and to a 32-bit `uint`. */
  function ToInt32(n: int): (r: int)
    ensures -0x8000_0000 <= r < 0x8000_0000
    ensures -0x8000_0000 <= n < 0x8000_0000 ==> r == n
    ensures 0x8000_0000 <= n < 0x1_0000_0000 ==> r == n - 0x1_0000_0000
  {
    (n + 0x8000_0000) % 0x1_0000_0000 - 0x8000_0000
  }

  function ToUInt32(n: int): (r: nat)
    ensures r < 0x1_0000_0000
    ensures 0 <= n < 0x1_0000_0000 ==> r == n
    ensures -0x1_0000_0000 <= n < 0 ==> r == n + 0x1_0000_0000
  {
    n % 0x1_0000_0000
  }

  function NanoToMilli(nano: int): int { Quotient(ToInt32(nano), MILLI) }

  /** The intervals as they are set up when compositing starts. */
  function Startup(syncsToVBlank: bool, blocks: bool, maxFpsInterval: int, refreshRate: int, vBlankTime: int): Clock
    requires refreshRate > 0 && (syncsToVBlank ==> refreshRate <= SECOND)
  {
    if syncsToVBlank then
      var vBlankInterval := Quotient(SECOND, refreshRate);
      assert vBlankInterval > 0 by { QuotientPositive(refreshRate); }
      Clock(vBlankInterval, Max(Quotient(maxFpsInterval, vBlankInterval) * vBlankInterval, vBlankInterval), vBlankTime,
            blocks)
    else Clock(MILLI, maxFpsInterval, vBlankTime, blocks)
  }

  lemma QuotientPositive(d: int)
    requires 0 < d <= SECOND
    ensures 1 <= Quotient(SECOND, d) <= SECOND
  {
    var q := SECOND / d;
    assert SECOND == q * d + SECOND % d;
    assert q <= 0 ==> q * d <= 0;
    assert q <= q * d;
  }

  /** With vertical sync the frame interval becomes the largest multiple of the blank interval
      that is not above the wish, or one blank interval if the wish is smaller than that. */
  lemma StartupAligns(blocks: bool, maxFpsInterval: int, refreshRate: int, vBlankTime: int)
    requires 0 < refreshRate <= SECOND && 0 <= maxFpsInterval <= SECOND && 0 <= vBlankTime <= SECOND
    ensures
      var c := Startup(true, blocks, maxFpsInterval, refreshRate, vBlankTime);
      && c.Aligned()
      && (maxFpsInterval < c.vBlankInterval ==> c.fpsInterval == c.vBlankInterval)
      && (maxFpsInterval >= c.vBlankInterval ==>
            c.fpsInterval <= maxFpsInterval < c.fpsInterval + c.vBlankInterval)
      && c.vBlankInterval * refreshRate <= SECOND < (c.vBlankInterval + 1) * refreshRate
      && c.vBlankTime == vBlankTime && c.blocksForRetrace == blocks
    ensures
      var c := Startup(false, blocks, maxFpsInterval, refreshRate, vBlankTime);
      c.fpsInterval == maxFpsInterval && c.vBlankInterval == MILLI && c.vBlankTime == vBlankTime && c.blocksForRetrace == blocks
  {
    QuotientPositive(refreshRate);
    var v := Quotient(SECOND, refreshRate);
    var k := maxFpsInterval / v;
    assert maxFpsInterval == k * v + maxFpsInterval % v;
    MultipleHasNoRest(k, v);
    MultipleHasNoRest(1, v);
    if k >= 1 {
      assert v <= k * v;
    } else {
      assert k == 0;
    }
  }

  lemma MultipleHasNoRest(k: int, v: int)
    requires v > 0
    ensures (k * v) % v == 0
  {
    DivisionIsUnique(k * v, v, k, 0);
  }

  lemma DivisionIsUnique(n: int, v: int, q: int, r: int)
    requires v > 0 && n == q * v + r && 0 <= r < v
    ensures n / v == q && n % v == r
  {
    var q', r' := n / v, n % v;
    assert n == q' * v + r';
    assert (q - q') * v == r' - r;
    assert q - q' >= 1 ==> (q - q') * v >= v;
    assert q - q' <= -1 ==> (q - q') * v <= -v;
  }

  // ---------------------------------------------------------------- the wait

  function Padding(c: Clock, elapsed: int): int
    requires c.vBlankInterval > 0
  {
    var v := c.vBlankInterval;
    if elapsed > c.fpsInterval then v - Remainder(elapsed, v)
    else (v - Remainder(elapsed, v)) + (Quotient(c.fpsInterval, v) - 1) * v
  }

  function WaitTime(c: Clock, elapsed: int): nat
    requires c.vBlankInterval > 0
  {
    if c.blocksForRetrace then
      var padding := Padding(c, elapsed);
      if padding < c.vBlankTime then ToUInt32(NanoToMilli(padding + c.vBlankInterval - c.vBlankTime))
      else ToUInt32(NanoToMilli(padding - c.vBlankTime))
    else if c.fpsInterval > elapsed then
      var wait := ToUInt32(NanoToMilli(c.fpsInterval - elapsed));
      if wait == 0 then 1 else wait
    else 1
  }

  function TimerInterval(c: Clock, elapsed: int): (ms: nat)
    requires c.vBlankInterval > 0
    ensures ms <= 250
    ensures WaitTime(c, elapsed) <= 250 ==> ms == WaitTime(c, elapsed)
    ensures WaitTime(c, elapsed) > 250 ==> ms == 250
  {
    Min(WaitTime(c, elapsed), 250)
  }

  /** The padding ends at a blank after now: at the next one when the last frame is older than the
      frame interval, and otherwise one frame interval after the blank before now. */
  lemma PaddingEndsAtVBlank(c: Clock, elapsed: int)
    requires c.Aligned()
    ensures Padding(c, elapsed) >= 1
    ensures (elapsed + Padding(c, elapsed)) % c.vBlankInterval == 0
    ensures elapsed > c.fpsInterval ==> Padding(c, elapsed) <= c.vBlankInterval
    ensures elapsed <= c.fpsInterval ==>
              elapsed + Padding(c, elapsed) == c.fpsInterval + Quotient(elapsed, c.vBlankInterval) * c.vBlankInterval
    ensures Padding(c, elapsed) <= c.fpsInterval + c.vBlankInterval
  {
    var v, f := c.vBlankInterval, c.fpsInterval;
    var q, k := Quotient(elapsed, v), f / v;
    TruncatedDivision(elapsed, v);
    PaddingIs(c, elapsed, k);
    if elapsed > f {
      MultipleHasNoRest(q + 1, v);
    } else {
      MultipleHasNoRest(q + k, v);
    }
  }

  lemma TruncatedDivision(a: int, v: int)
    requires 0 < v
    ensures a == Quotient(a, v) * v + Remainder(a, v)
    ensures a >= 0 ==> 0 <= Remainder(a, v) < v
    ensures a < 0 ==> Remainder(a, v) == -((-a) % v) && -v < Remainder(a, v) <= 0
  {
    if a < 0 {
      var q := (-a) / v;
      assert -a == q * v + (-a) % v;
      assert -q * v == -(q * v);
    }
  }

  /** The padding as a distance between multiples of the blank interval. */
  lemma PaddingIs(c: Clock, elapsed: int, k: int)
    requires c.Aligned() && k == c.fpsInterval / c.vBlankInterval
    ensures c.fpsInterval == k * c.vBlankInterval
    ensures
      var q := Quotient(elapsed, c.vBlankInterval);
      elapsed + Padding(c, elapsed) == (if elapsed > c.fpsInterval then q + 1 else q + k) * c.vBlankInterval
    ensures
      var r := Remainder(elapsed, c.vBlankInterval);
      Padding(c, elapsed) == if elapsed > c.fpsInterval then c.vBlankInterval - r else c.fpsInterval - r
  {
    var v := c.vBlankInterval;
    TruncatedDivision(elapsed, v);
    var q := Quotient(elapsed, v);
    assert c.fpsInterval == k * v;
    assert (k - 1) * v == k * v - v;
    assert (q + 1) * v == q * v + v;
    assert (q + k) * v == q * v + k * v;
  }

  /** The instant that is aimed for: a blank, or the one after it if there is too little time left
      to paint before. */
  function Target(c: Clock, elapsed: int): int
    requires c.vBlankInterval > 0
  {
    var padding := Padding(c, elapsed);
    elapsed + padding + if padding < c.vBlankTime then c.vBlankInterval else 0
  }

  lemma TargetIsVBlank(c: Clock, elapsed: int)
    requires c.Aligned()
    ensures elapsed < Target(c, elapsed) && Target(c, elapsed) % c.vBlankInterval == 0
  {
    PaddingEndsAtVBlank(c, elapsed);
    var v := c.vBlankInterval;
    var end := elapsed + Padding(c, elapsed);
    var k := end / v;
    assert end == k * v;
    assert end + v == (k + 1) * v;
    MultipleHasNoRest(k + 1, v);
  }

  /** The whole milliseconds of the wait end `vBlankTime` before the target, less than one
      millisecond early, exactly if `vBlankTime` fits before the later of the two blanks. */
  lemma WaitKeepsMargin(c: Clock, elapsed: int)
    requires c.Aligned() && c.blocksForRetrace
    ensures
      var n := Target(c, elapsed) - elapsed - c.vBlankTime;
      ToInt32(n) == n && WaitTime(c, elapsed) == ToUInt32(NanoToMilli(n))
    ensures
      var early := Target(c, elapsed) - (elapsed + WaitTime(c, elapsed) * MILLI);
      c.vBlankTime <= early < c.vBlankTime + MILLI
      <==> c.vBlankTime <= Padding(c, elapsed) + c.vBlankInterval
  {
    PaddingEndsAtVBlank(c, elapsed);
    var padding := Padding(c, elapsed);
    var n := Target(c, elapsed) - elapsed - c.vBlankTime;
    assert n == if padding < c.vBlankTime then padding + c.vBlankInterval - c.vBlankTime else padding - c.vBlankTime;
    var w := ToUInt32(NanoToMilli(n));
    MillisecondsOf(n);
    assert WaitTime(c, elapsed) == w;
  }

  lemma MillisecondsOf(n: int)
    requires -SECOND <= n <= 2 * SECOND
    ensures n >= 0 ==> n - MILLI < ToUInt32(NanoToMilli(n)) * MILLI <= n
    ensures n < 0 ==> ToUInt32(NanoToMilli(n)) * MILLI > n
    ensures -MILLI < n < 0 ==> ToUInt32(NanoToMilli(n)) == 0
    ensures n <= -MILLI ==> ToUInt32(NanoToMilli(n)) >= 0x8000_0000
    ensures ToInt32(n) == n
  {
    assert ToInt32(n) == n;
    if n < 0 {
      assert Quotient(n, MILLI) == -((-n) / MILLI);
      assert n <= -MILLI ==> -1000 <= Quotient(n, MILLI) <= -1;
    }
  }

  /** The wait wraps around, and the timer runs for the longest it may, exactly if `vBlankTime` is
      at least a millisecond longer than what is left until the later of the two blanks. If it is
      longer by less than that, the wait is zero. */
  lemma WaitWraps(c: Clock, elapsed: int)
    requires c.Aligned() && c.blocksForRetrace
    ensures
      var late := c.vBlankTime - (Padding(c, elapsed) + c.vBlankInterval);
      && (WaitTime(c, elapsed) >= 0x8000_0000 <==> late >= MILLI)
      && (late >= MILLI ==> TimerInterval(c, elapsed) == 250)
      && (0 < late < MILLI ==> WaitTime(c, elapsed) == 0)
  {
    PaddingEndsAtVBlank(c, elapsed);
    WaitKeepsMargin(c, elapsed);
    MillisecondsOf(Target(c, elapsed) - elapsed - c.vBlankTime);
  }

  /** That can happen: the default of 6 ms is longer than the interval of a 240 Hz screen. */
  lemma FastScreenWaitsTooLong()
    ensures
      var c := Startup(true, true, SECOND / 240, 240, 6 * MILLI);
      c.Aligned() && TimerInterval(c, 4_100_000) == 250 && Padding(c, 4_100_000) < MILLI
  {
    var c := Startup(true, true, SECOND / 240, 240, 6 * MILLI);
    assert c == Clock(4_166_666, 4_166_666, 6_000_000, true);
    assert Remainder(4_100_000, 4_166_666) == 4_100_000;
    assert Padding(c, 4_100_000) == 66_666;
    assert NanoToMilli(66_666 + 4_166_666 - 6_000_000) == -1;
  }

  /** "Start now" starts at once exactly if the frame interval exceeds the whole blanks that
      `vBlankTime` reaches into by less than a millisecond; otherwise the other blanks of the
      frame are waited for. */
  lemma StartNowWaits(c: Clock)
    requires c.Aligned() && c.blocksForRetrace && c.StartNow() > -c.vBlankInterval
    ensures
      var reached := (c.vBlankTime / c.vBlankInterval + 1) * c.vBlankInterval;
      && Target(c, c.StartNow()) - c.StartNow() == c.vBlankTime + 1 + Max(c.fpsInterval - reached, 0)
      && (WaitTime(c, c.StartNow()) == 0 <==> Max(c.fpsInterval - reached, 0) + 1 < MILLI)
  {
    var e, reached := c.StartNow(), (c.vBlankTime / c.vBlankInterval + 1) * c.vBlankInterval;
    StartNowPadding(c, reached);
    var n := 1 + Max(c.fpsInterval - reached, 0);
    assert Target(c, e) - e - c.vBlankTime == n;
    WaitKeepsMargin(c, e);
    MillisecondsOf(n);
  }

  /** A `vBlankTime` of a frame and a blank or more is too long by the whole blanks beyond. It
      still starts at once if they are shorter than a millisecond, and otherwise the wait wraps. */
  lemma StartNowWraps(c: Clock)
    requires c.Aligned() && c.blocksForRetrace && c.StartNow() <= -c.vBlankInterval
    ensures
      var late := (-c.StartNow() / c.vBlankInterval - 1) * c.vBlankInterval - 1;
      && (late < MILLI ==> WaitTime(c, c.StartNow()) == 0)
      && (late >= MILLI ==> WaitTime(c, c.StartNow()) >= 0x8000_0000 && TimerInterval(c, c.StartNow()) == 250)
  {
    var v, e := c.vBlankInterval, c.StartNow();
    var q, r := -e / v, (-e) % v;
    TruncatedDivision(e, v);
    PaddingIs(c, e, c.fpsInterval / v);
    assert -e == q * v + r;
    assert (q - 1) * v == q * v - v;
    FullBlank(q, v, r);
    assert Padding(c, e) + v - c.vBlankTime == 1 - (q - 1) * v;
    assert c.vBlankTime - Padding(c, e) == q * v - 1;
    WaitWraps(c, e);
    MillisecondsOf(Target(c, e) - e - c.vBlankTime);
    WaitKeepsMargin(c, e);
  }

  lemma FullBlank(q: int, v: int, r: int)
    requires 0 < v <= q * v + r && 0 <= r < v
    ensures q >= 1 && q * v >= v
  {
    assert q <= 0 ==> q * v <= 0;
    assert q >= 1 ==> q * v >= v;
  }

  lemma StartNowPadding(c: Clock, reached: int)
    requires c.Aligned() && c.StartNow() > -c.vBlankInterval
    requires reached == (c.vBlankTime / c.vBlankInterval + 1) * c.vBlankInterval
    ensures Padding(c, c.StartNow()) == c.vBlankTime + 1 + Max(c.fpsInterval - reached, 0)
    ensures reached >= 0
  {
    var v, f, e := c.vBlankInterval, c.fpsInterval, c.StartNow();
    var k, m, r := f / v, c.vBlankTime / v, c.vBlankTime % v;
    PaddingIs(c, e, k);
    assert c.vBlankTime == m * v + r;
    WholeBlanks(c.vBlankTime, v);
    assert reached == m * v + v;
    assert (k - 1 - m) * v == f - reached;
    if e >= 0 {
      DivisionIsUnique(e, v, k - 1 - m, v - 1 - r);
      BlanksLeft(k - 1 - m, v, e);
    } else {
      DivisionIsUnique(-e, v, 0, -e);
      TruncatedDivision(e, v);
      BlanksBeyond(k - 1 - m, v, r, e);
    }
  }

  lemma WholeBlanks(n: int, v: int)
    requires n >= 0 && v > 0
    ensures n / v * v >= 0
  {
    var q := n / v;
    assert n == q * v + n % v;
    assert q <= -1 ==> q * v <= -v;
  }

  lemma BlanksLeft(n: int, v: int, e: int)
    requires v > 0 && 0 <= e < n * v + v
    ensures n * v >= 0
  {
    assert n <= -1 ==> n * v <= -v;
  }

  lemma BlanksBeyond(n: int, v: int, r: int, e: int)
    requires v > 0 && 0 <= r < v && e == n * v + (v - 1 - r) < 0
    ensures n * v < 0
  {
    assert n >= 0 ==> n * v >= 0;
  }

  /** Without a blocking swap the timer waits for the rest of the frame interval, but never less
      than a millisecond. */
  lemma WaitWithoutBlocking(c: Clock, elapsed: int)
    requires c.IsValid() && !c.blocksForRetrace && elapsed >= -SECOND
    ensures WaitTime(c, elapsed) >= 1
    ensures WaitTime(c, elapsed) * MILLI <= Max(c.fpsInterval - elapsed, MILLI)
    ensures c.fpsInterval - elapsed < WaitTime(c, elapsed) * MILLI + MILLI
  {
    var n := c.fpsInterval - elapsed;
    if n > 0 {
      assert ToInt32(n) == n;
    }
  }

}
