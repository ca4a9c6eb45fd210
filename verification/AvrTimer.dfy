/** The prescaler search of src/avr/timer.c. */
module AvrTimer {

  const PSCS: seq<nat> := [1, 8, 64, 256, 1024]

  /** `F_CPU / 1000000UL * delayUs`, in the 32 bits of an `unsigned long`. */
  function Ticks(delayUs: nat): nat {
    16 * delayUs % 0x1_0000_0000
  }

  /** The product wraps at 2^28 microseconds: longer delays get the ticks of their remainder. */
  lemma TicksWrap(delayUs: nat)
    ensures Ticks(delayUs) == 16 * (delayUs % 268_435_456)
    ensures Ticks(delayUs) == 16 * delayUs <==> delayUs < 268_435_456
  {
  }

  predicate Fits(ticks: nat, p: nat)
    requires p > 0
  {
    ticks / p <= 0xFFFF
  }

  /** The choice for a number of ticks: the smallest prescaler that fits, its count below the ticks
      by less than one 8192th of them; or, beyond every prescaler, the longest count there is. */
  predicate Chosen(ticks: nat, pscId: nat, cnt: nat) {
    && pscId < 5 && cnt <= 0xFFFF
    && (ticks >= 67_108_864 ==> pscId == 4 && cnt == 0xFFFF)
    && (ticks < 67_108_864 ==>
          && (forall k :: 0 <= k < pscId ==> PSCS[k] > 0 && !Fits(ticks, PSCS[k]))
          && PSCS[pscId] * cnt <= ticks < PSCS[pscId] * (cnt + 1)
          && (ticks > 0 ==> 8192 * (ticks - PSCS[pscId] * cnt) < ticks))
  }

  lemma FitsSomewhere(ticks: nat)
    ensures Fits(ticks, 1024) <==> ticks < 67_108_864
  {
  }

  /** Each prescaler is at most eight times the one before, which bounds the rounding. */
  lemma CountAccurate(ticks: nat, pscId: nat)
    requires pscId < 5
    requires forall k :: 0 <= k < pscId ==> PSCS[k] > 0 && !Fits(ticks, PSCS[k])
    ensures var p, cnt := PSCS[pscId], ticks / PSCS[pscId];
            p * cnt <= ticks < p * (cnt + 1) && (ticks > 0 ==> 8192 * (ticks - p * cnt) < ticks)
  {
    if pscId > 0 {
      assert !Fits(ticks, PSCS[pscId - 1]);
    }
  }

  /** Every `uint32_t` delay gets the choice for its ticks. */
  method Search(delayUs: nat) returns (pscId: nat, cnt: nat)
    requires delayUs < 0x1_0000_0000
    ensures Chosen(Ticks(delayUs), pscId, cnt)
  {
    ghost var ticks := Ticks(delayUs);
    cnt := 0xFFFF;
    var pscChosen := false;
    pscId := 0;
    while pscId < |PSCS|
      invariant pscId <= 5 && !pscChosen
      invariant forall k :: 0 <= k < pscId ==> PSCS[k] > 0 && !Fits(ticks, PSCS[k])
    {
      cnt := Ticks(delayUs) / PSCS[pscId];
      CountAccurate(ticks, pscId);
      if cnt <= 0xFFFF {
        pscChosen := true;
        break;
      }
      pscId := pscId + 1;
    }
    FitsSomewhere(ticks);
    if !pscChosen {
      cnt := 0xFFFF;
      pscId := |PSCS| - 1;
    }
  }

  // ----- when the counter overflows -----

  /** Timer ticks from a count to the overflow interrupt: the counter counts up to 0xFFFF and wraps
      (normal mode of Timer/Counter1, ATmega328P data sheet). */
  function UntilOverflow(pscId: nat, cnt: nat): nat
    requires pscId < 5 && cnt <= 0xFFFF
  {
    PSCS[pscId] * (0x1_0000 - cnt)
  }

  /** Does the interrupt come when the delay has passed, or less than one prescaled tick before? */
  predicate InTime(ticks: nat, pscId: nat, cnt: nat)
    requires pscId < 5 && cnt <= 0xFFFF
  {
    UntilOverflow(pscId, cnt) <= ticks < UntilOverflow(pscId, cnt) + PSCS[pscId]
  }

  /** The register is loaded with the ticks to wait, not with their complement. */
  lemma HalfOfTheRange(ticks: nat, pscId: nat, cnt: nat)
    requires ticks < 67_108_864 && Chosen(ticks, pscId, cnt)
    ensures InTime(ticks, pscId, cnt) <==> cnt == 0x8000
  {
    Multiples(PSCS[pscId], cnt, 0x1_0000 - cnt);
  }

  /** The numbers of ticks for which the chosen count is half of the range, one stretch for each
      prescaler. */
  lemma HalfCounts(ticks: nat, pscId: nat, cnt: nat)
    requires ticks < 67_108_864 && Chosen(ticks, pscId, cnt)
    ensures cnt == 0x8000 <==>
            (ticks == 0x8000 || 8 * 0x8000 <= ticks < 8 * 0x8001 || 64 * 0x8000 <= ticks < 64 * 0x8001
             || 256 * 0x8000 <= ticks < 256 * 0x8001 || 1024 * 0x8000 <= ticks < 1024 * 0x8001)
  {
    assert pscId > 0 ==> !Fits(ticks, PSCS[pscId - 1]);
  }

  /** Of all the delays `cnTimerStart` takes, the interrupt comes in time for these and no others. */
  lemma FiresInTimeExactly(delayUs: nat, pscId: nat, cnt: nat)
    requires 0 < delayUs < 0x1_0000_0000 && Chosen(Ticks(delayUs), pscId, cnt)
    ensures InTime(16 * delayUs, pscId, cnt) <==>
            (delayUs == 2048 || delayUs == 16384 || 131_072 <= delayUs < 131_076
             || 524_288 <= delayUs < 524_304 || 2_097_152 <= delayUs < 2_097_216)
  {
    TicksWrap(delayUs);
    if Ticks(delayUs) < 67_108_864 {
      HalfOfTheRange(Ticks(delayUs), pscId, cnt);
      HalfCounts(Ticks(delayUs), pscId, cnt);
    }
  }

  lemma Multiples(p: nat, a: nat, b: nat)
    requires p > 0
    ensures a < b ==> p * (a + 1) <= p * b
    ensures a > b ==> p * a >= p * (b + 1)
  {
  }

  /** The bootloader's three seconds: 46875 counts of 1024 ticks are asked for, 18661 pass, which
      is 1194304 microseconds. */
  lemma BootloaderTimeout(pscId: nat, cnt: nat)
    ensures Chosen(Ticks(3_000_000), pscId, cnt) <==> pscId == 4 && cnt == 46_875
    ensures UntilOverflow(4, 46_875) == 1024 * 18_661 == 16 * 1_194_304
  {
    assert Fits(48_000_000, 1024) && !Fits(48_000_000, 256);
  }

  /** Timer 1 and the statics of the driver. */
  class Timer1 {
    var overflowInterrupt: bool   // TIMSK1.TOIE1
    var pscId: nat                // TCCR1B, as an index into PSCS
    var running: bool             // TCCR1B != 0
    var count: nat                // TCNT1
    var timeoutFunc: bool
    var timerOneshot: bool

    /** Can the handler still be called? */
    predicate CanFire()
      reads this
    {
      overflowInterrupt && running && timeoutFunc
    }

    method TimerStart(delayUs: nat, oneshot: bool, onTimeout: bool) returns (ok: bool)
      requires delayUs < 0x1_0000_0000
      modifies this
      ensures ok <==> delayUs != 0 && onTimeout
      ensures ok ==> CanFire() && timerOneshot == oneshot && Chosen(Ticks(delayUs), pscId, count)
      ensures !ok ==> unchanged(this)
    {
      hide Chosen, Ticks;
      if delayUs == 0 || !onTimeout {
        return false;
      }
      timeoutFunc := true;
      timerOneshot := oneshot;
      var id, cnt := Search(delayUs);
      overflowInterrupt := true;
      count := cnt % 0x1_0000;
      pscId, running := id, true;
      return true;
    }

    method TimerStop()
      modifies this
      ensures !CanFire() && !running && !overflowInterrupt && !timeoutFunc && count == 0
      ensures timerOneshot == old(timerOneshot)
    {
      running := false;
      overflowInterrupt := false;
      count := 0;
      timeoutFunc := false;
    }

    /** The overflow interrupt; `called` says whether the handler ran. A one-shot timer runs it once. */
    method OverflowInterrupt() returns (called: bool)
      modifies this
      ensures called == old(timeoutFunc)
      ensures timerOneshot == old(timerOneshot)
      ensures timerOneshot ==> !CanFire() && !running && !overflowInterrupt && !timeoutFunc && count == 0
      ensures !timerOneshot ==> unchanged(this)
    {
      called := false;
      if timeoutFunc {
        called := true;
      }
      if timerOneshot {
        TimerStop();
      }
    }
  }
}
