// Conversion of a wanted sleep duration into DW1000 sleep-counter units.
// The sleep counter holds the upper 16 bits of a 28-bit count of the
// low-power oscillator, so one unit is 4096 oscillator periods and the
// conversion `((wanted_ms * osc_freq) / 1000) >> 12` rounds down.
module SleepScheduler {

  /** Oscillator periods per sleep-counter unit (the `>> 12`). */
  const CountsPerUnit: nat := 4096

  /** The examples' formula on unbounded integers: the reference against
      which their fixed-width versions are compared. */
  function Ticks(wantedMs: nat, oscFreqHz: nat): nat
  {
    (wantedMs * oscFreqHz / 1000) / CountsPerUnit
  }

  /** Floor rounding: `Ticks` units of 4096 oscillator periods last at most
      `wantedMs`, and one unit more would last longer than `wantedMs`.
      (Both sides are scaled by 1000 * oscFreqHz to stay in integers.) */
  lemma TicksFloor(wantedMs: nat, oscFreqHz: nat)
    ensures Ticks(wantedMs, oscFreqHz) * CountsPerUnit * 1000 <= wantedMs * oscFreqHz
    ensures wantedMs * oscFreqHz < (Ticks(wantedMs, oscFreqHz) + 1) * CountsPerUnit * 1000
  {
    var p := wantedMs * oscFreqHz;
    var q := p / 1000;
    var t := q / CountsPerUnit;
    assert q * 1000 <= p < (q + 1) * 1000;
    assert t * CountsPerUnit <= q < (t + 1) * CountsPerUnit;
    calc {
      t * CountsPerUnit * 1000;
    <= { MulLeMono(t * CountsPerUnit, q, 1000); }
      q * 1000;
    <=
      p;
    }
    calc {
      p;
    <
      (q + 1) * 1000;
    <= { MulLeMono(q + 1, (t + 1) * CountsPerUnit, 1000); }
      (t + 1) * CountsPerUnit * 1000;
    }
  }

  /** A longer wanted duration or a faster oscillator never yields fewer units. */
  lemma TicksMonotone(w1: nat, f1: nat, w2: nat, f2: nat)
    requires w1 <= w2 && f1 <= f2
    ensures Ticks(w1, f1) <= Ticks(w2, f2)
  {
    MulLeMono(w1, w2, f1);
    MulLeMono(f1, f2, w2);
    assert w1 * f1 <= w2 * f2;
    DivLeMono(w1 * f1, w2 * f2, 1000);
    DivLeMono(w1 * f1 / 1000, w2 * f2 / 1000, CountsPerUnit);
  }

  lemma MulLeMono(a: nat, b: nat, c: nat)
    requires a <= b
    ensures a * c <= b * c && c * a <= c * b
  {
  }

  lemma DivLeMono(a: nat, b: nat, d: nat)
    requires a <= b && d > 0
    ensures a / d <= b / d
  {
    if a / d > b / d {
      MulLeMono(b / d + 1, a / d, d);
      assert false;
    }
  }

  /** Dividing by a larger divisor never gives a larger quotient. */
  lemma DivByLargerDivisor(n: nat, c1: nat, c2: nat)
    requires 0 < c1 <= c2
    ensures n / c2 <= n / c1
  {
    MulLeMono(c1, c2, n / c2);
    assert (n / c2) * c1 <= n;
    if n / c2 > n / c1 {
      MulLeMono(n / c1 + 1, n / c2, c1);
      assert false;
    }
  }
}
