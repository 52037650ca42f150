/** The arithmetic of Configuration in application/app.c: how many bytes an acquisition has, how often one starts, and
    how long until the first. ceil is the exact ceiling. */
module Period {
  import opened Basics
  import opened Word32
  import opened Csr
  import CodeRam

  const MICROSECONDS: nat := 1000000

  /** s_SampleRateValue, in samples per second. */
  const SAMPLE_RATES: seq<nat> := [78125, 156250, 312500, 625000, 1250000, 2500000]

  /** The code in microseconds: 2^n - 1 pulses. */
  function CodeTime(n: nat, pulseWidth: nat): nat { (Pow2(n) - 1) * pulseWidth }

  /** Samples taken in whole during the code, of four bytes each. */
  function SampleLength(n: nat, pulseWidth: nat, rate: nat): nat { CodeTime(n, pulseWidth) * rate / MICROSECONDS * 4 }

  function Ceiling(x: nat, d: nat): nat
    requires d > 0
  {
    if x % d == 0 then x / d else x / d + 1
  }

  function AcqPeriod(n: nat, pulseWidth: nat): nat { Ceiling(CodeTime(n, pulseWidth), MICROSECONDS) + 2 }

  function StartOffset(period: nat, seconds: nat): nat
    requires period > 0
  {
    period - seconds % period
  }

  /** What the code computes, each product in unsigned 64 bits. */
  method Timing(n: nat, pulseWidth: nat, rateIndex: nat, seconds: nat)
    returns (length: nat, t3: nat, tDelta: nat)
    requires n <= 11 && pulseWidth < 0x8000_0000 && rateIndex < |SAMPLE_RATES| && seconds < U32
    ensures length == SampleLength(n, pulseWidth, SAMPLE_RATES[rateIndex])
    ensures t3 == AcqPeriod(n, pulseWidth) && tDelta == StartOffset(t3, seconds)
    ensures length < 0x1_0000_0000_0000 && 2 <= t3 < 0x1_0000_0000 && 1 <= tDelta <= t3
    ensures var code := (Pow2(n) - 1) * pulseWidth;
            && length % 4 == 0
            && length / 4 * 1000000 <= code * (78125 * Pow2(rateIndex)) < (length / 4 + 1) * 1000000
            && code <= (t3 - 2) * 1000000 < code + 1000000
            && (seconds + tDelta) % t3 == 0
  {
    hide Pow2, CodeTime, SampleLength, AcqPeriod, Ceiling, StartOffset;
    var rate := SAMPLE_RATES[rateIndex];
    NoOverflow(n, pulseWidth, rate);
    PeriodBounds(n, pulseWidth);
    var pulses := CodeRam.Power(n);
    Unfolded(n, pulseWidth, rate);
    var micros := (pulses - 1) * pulseWidth;
    assert micros == CodeTime(n, pulseWidth);
    length := Length64(micros, rate);
    var t2 := Ceil(micros);
    t3 := (t2 + 2) % U32;
    NoWrap(t2 + 2, U32);
    OffsetRange(t3, seconds);
    tDelta := t3 - seconds % t3;
    RatesDouble(rateIndex);
    WholeSamples(micros * rate);
    OffsetHits(t3, seconds, tDelta);
  }

  lemma OffsetRange(period: nat, seconds: nat)
    requires period > 0
    ensures seconds % period < period && StartOffset(period, seconds) == period - seconds % period
  {
  }

  /** Each rate of the table is twice the one before. */
  lemma RatesDouble(i: nat)
    requires i < |SAMPLE_RATES|
    ensures |SAMPLE_RATES| == 6 && SAMPLE_RATES[i] == 78125 * Pow2(i)
  {
    assert Pow2(1) == 2 && Pow2(2) == 4 && Pow2(3) == 8 && Pow2(4) == 16 && Pow2(5) == 32;
  }

  /** The most samples that are complete in x sample-microseconds. */
  lemma WholeSamples(x: nat)
    ensures var length := x / 1000000 * 4;
            length % 4 == 0 && length / 4 * 1000000 <= x < (length / 4 + 1) * 1000000
  {
  }

  /** The sample length, each operation in unsigned 64 bits. */
  method Length64(micros: nat, rate: nat) returns (length: nat)
    requires micros * rate < U64 && rate > 0
    ensures length == micros * rate / MICROSECONDS * 4
  {
    assert micros <= micros * rate;
    NoWrap(micros, U64);
    var product := micros % U64 * rate % U64;
    NoWrap(micros * rate, U64);
    var samples := product / MICROSECONDS;
    NoWrap(samples * 4, U64);
    length := samples * 4 % U64;
  }

  lemma NoWrap(x: nat, m: nat)
    requires x < m
    ensures x % m == x
  {
  }

  /** ceil of a number of microseconds, in seconds. */
  method Ceil(micros: nat) returns (r: nat)
    ensures r * MICROSECONDS >= micros && r == Ceiling(micros, MICROSECONDS)
  {
    r := micros / MICROSECONDS;
    if r * MICROSECONDS < micros {
      r := r + 1;
    }
  }

  lemma Unfolded(n: nat, pulseWidth: nat, rate: nat)
    ensures CodeTime(n, pulseWidth) == (Pow2(n) - 1) * pulseWidth
    ensures SampleLength(n, pulseWidth, rate) == CodeTime(n, pulseWidth) * rate / MICROSECONDS * 4
    ensures AcqPeriod(n, pulseWidth) == Ceiling(CodeTime(n, pulseWidth), MICROSECONDS) + 2
  {
  }

  lemma PowSmall(n: nat)
    requires n <= 11
    ensures Pow2(n) <= 2048
  {
    CodeRam.Pow2Below(n, 11);
    assert Pow2(3) == 8;
    assert Pow2(7) == 16 * Pow2(3);
    assert Pow2(11) == 16 * Pow2(7);
  }

  lemma MulBounds(a: nat, b: nat, x: nat, y: nat)
    requires a <= x && b <= y
    ensures a * b <= x * y
  {
    assert a * b <= a * y && a * y <= x * y;
  }

  /** No product of the sample length wraps, and the length is below 2^48: the flag cannot wrap in an acquisition. */
  lemma NoOverflow(n: nat, pulseWidth: nat, rate: nat)
    requires n <= 11 && pulseWidth < 0x8000_0000 && rate in SAMPLE_RATES
    ensures CodeTime(n, pulseWidth) <= 2047 * 0x7FFF_FFFF
    ensures CodeTime(n, pulseWidth) * rate < 0x1_0000_0000_0000_0000
    ensures SampleLength(n, pulseWidth, rate) < 0x1_0000_0000_0000
  {
    PowSmall(n);
    MulBounds(Pow2(n) - 1, pulseWidth, 2047, 0x7FFF_FFFF);
    MulBounds(CodeTime(n, pulseWidth), rate, 2047 * 0x7FFF_FFFF, 2500000);
  }

  /** The period is the code in seconds, rounded up, and two seconds more. */
  lemma PeriodBounds(n: nat, pulseWidth: nat)
    requires n <= 11 && pulseWidth < 0x8000_0000
    ensures var t := AcqPeriod(n, pulseWidth) - 2;
            CodeTime(n, pulseWidth) <= t * 1000000 < CodeTime(n, pulseWidth) + 1000000
    ensures 2 <= AcqPeriod(n, pulseWidth) < 5000000
  {
    PowSmall(n);
    MulBounds(Pow2(n) - 1, pulseWidth, 2047, 0x7FFF_FFFF);
  }

  /** The samples fit inside the period, with the two spare seconds left free. */
  lemma SamplesFit(n: nat, pulseWidth: nat, rate: nat)
    requires n <= 11 && pulseWidth < 0x8000_0000
    ensures SampleLength(n, pulseWidth, rate) <= 4 * rate * (AcqPeriod(n, pulseWidth) - 2)
    ensures SampleLength(n, pulseWidth, rate) % 4 == 0
  {
    PeriodBounds(n, pulseWidth);
    hide AcqPeriod, CodeTime;
    var t, c := AcqPeriod(n, pulseWidth) - 2, CodeTime(n, pulseWidth);
    MulBounds(c, rate, t * MICROSECONDS, rate);
    assert c * rate <= t * rate * MICROSECONDS;
    Quotient(c * rate, t * rate);
    assert 4 * (t * rate) == 4 * rate * t;
  }

  lemma Quotient(x: nat, q: nat)
    requires x <= q * MICROSECONDS
    ensures x / MICROSECONDS <= q
  {
  }

  /** The first acquisition starts at the next multiple of the period: of all offsets from 1 second to a whole period,
      the one chosen is the only one to hit such a multiple. */
  lemma OffsetHits(period: nat, seconds: nat, d: nat)
    requires period > 0 && 1 <= d <= period
    ensures (seconds + d) % period == 0 <==> d == StartOffset(period, seconds)
  {
    var q, r := seconds / period, seconds % period;
    assert seconds == period * q + r;
    if d + r < period {
      ModUnique(seconds + d, period, q, d + r);
    } else if d + r == period {
      assert seconds + d == period * (q + 1);
      ModUnique(seconds + d, period, q + 1, 0);
    } else {
      assert seconds + d == period * (q + 1) + (d + r - period);
      ModUnique(seconds + d, period, q + 1, d + r - period);
    }
  }

  /** Register 6 after Configuration: the period reads back exactly when it is below 2^16, the offset exactly when it is
      below 2^15, and the start bit is set. */
  lemma TimingReadsBack(regs: seq<Word>, c: Settings, n: nat, pulseWidth: nat, seconds: nat)
    requires |regs| == AXI_CSR_PHY_SIZE
    requires c.tAcq == AcqPeriod(n, pulseWidth) && c.tDelta == StartOffset(c.tAcq, seconds)
    ensures var regs' := After(regs, ConfigWrites(c));
            && (ReadReg(regs', CSR_T_ACQ) == c.tAcq <==> c.tAcq < 0x1_0000)
            && (ReadReg(regs', CSR_T_DELTA) == c.tDelta <==> c.tDelta < 0x8000)
            && ReadReg(regs', CSR_T_START) == 1
  {
    hide After, ReadReg, ConfigWrites, Pow2, AcqPeriod;
    ConfigReadsBack(regs, c);
    FieldPowers();
  }

  /** So the three fields of register 6 read back together at every clock second exactly when the period is below
      2^15 seconds. */
  lemma TimingAlwaysReadsBack(period: nat)
    requires period > 0
    ensures (forall seconds: nat :: period < 0x1_0000 && StartOffset(period, seconds) < 0x8000) <==> period < 0x8000
  {
    if period >= 0x8000 {
      assert StartOffset(period, 0) == period;
    }
  }
}
