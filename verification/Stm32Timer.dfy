/** The one-shot timer of src/stm32/timer.c: the prescaler search, and when its interrupt can fire. */
module Stm32Timer {

  const INT_MAX: nat := 0x7FFF_FFFF

  /** The longest delay for which the `int` arithmetic of the search does not overflow. */
  const MAX_DELAY: nat := 29_825_251

  /** At 72 MHz a delay is 72 ticks for each microsecond.
      psc is the smallest prescaler whose period covers the delay, and arr the largest reload value
      that does not overshoot it; the shortfall is below one 65536th of the delay. */
  predicate Accurate(delayUs: nat, psc: nat, arr: nat) {
    var ticks := 72 * delayUs;
    var short := ticks - (psc + 1) * (arr + 1);
    && psc <= 0xFFFF && 0 < arr <= 0xFFFF
    && 0x1_0000 * psc < ticks <= 0x1_0000 * (psc + 1)
    && 0 <= short <= psc
    && 0x1_0000 * short < ticks
  }

  lemma QuotientBounds(ticks: nat, psc: nat, q: nat, rest: nat)
    requires ticks >= 72 && 0x1_0000 * psc < ticks <= 0x1_0000 * (psc + 1)
    requires ticks == (psc + 1) * q + rest && rest <= psc
    ensures 1 < q <= 0x1_0000
  {
  }

  lemma ReloadValue(ticks: nat, psc: nat)
    requires ticks >= 72 && 0x1_0000 * psc < ticks <= 0x1_0000 * (psc + 1)
    ensures var q := ticks / (psc + 1);
            1 < q <= 0x1_0000 && 0 <= ticks - (psc + 1) * q <= psc
  {
    var n := psc + 1;
    var q, rest := ticks / n, ticks % n;
    QuotientBounds(ticks, psc, q, rest);
  }

  /** The search loop: tries prescalers from 0 up and stops at the first one that fits. The asserted
      ranges are those of a 32-bit `int`. */
  method Search(delayUs: nat) returns (psc: nat, arr: nat)
    requires 0 < delayUs <= MAX_DELAY
    ensures Accurate(delayUs, psc, arr)
  {
    var ticks := 72 * delayUs;
    arr := 0xFFFF;
    psc := 0;
    while psc <= 0xFFFF
      invariant psc <= 0x1_0000 && 0x1_0000 * psc < ticks
      decreases 0x1_0000 - psc
    {
      assert 72 * delayUs <= INT_MAX && 0x1_0000 * (psc + 1) <= INT_MAX;
      if 72 * delayUs <= 0x1_0000 * (psc + 1) {
        ReloadValue(ticks, psc);
        arr := ticks / (psc + 1) - 1;
        if 0 < arr && arr <= 0xFFFF {
          break;
        }
      }
      psc := psc + 1;
    }
  }

  /** TIM2 with its clock gate and its line in the interrupt controller. */
  class Tim2 {
    var clockEnabled: bool   // RCC_APB1ENR
    var cen: bool            // CR1.CEN
    var opm: bool            // CR1.OPM
    var uie: bool            // DIER.UIE
    var psc: nat
    var arr: nat
    var lineEnabled: bool    // NVIC_ISER0 / NVIC_ICER0
    var timeoutFunc: bool    // has a handler been set?

    /** Can the handler still be called? */
    predicate CanFire()
      reads this
    {
      clockEnabled && cen && uie && lineEnabled
    }

    method TimerStart(delayUs: nat, oneshot: bool, onTimeout: bool) returns (ok: bool)
      requires delayUs <= MAX_DELAY
      modifies this
      ensures ok <==> delayUs != 0 && onTimeout
      ensures ok ==> CanFire() && timeoutFunc && Accurate(delayUs, psc, arr)
      ensures ok ==> opm == (old(opm) || oneshot)
      ensures !ok ==> unchanged(this)
    {
      if delayUs == 0 || !onTimeout {
        return false;
      }
      clockEnabled := true;
      cen := false;
      var p, a := Search(delayUs);
      psc := p % 0x1_0000;
      arr := a % 0x1_0000;
      timeoutFunc := true;
      if oneshot {
        opm := true;
      }
      uie := true;
      lineEnabled := true;
      cen := true;
      return true;
    }

    /** After this the handler is not called any more, not even for an update that is pending. */
    method TimerStop()
      modifies this
      ensures !CanFire() && !cen && !uie && !lineEnabled && !clockEnabled
      ensures opm == old(opm) && psc == old(psc) && arr == old(arr) && timeoutFunc == old(timeoutFunc)
    {
      cen := false;
      uie := false;
      lineEnabled := false;
      clockEnabled := false;
    }
  }

  datatype Call = Start(delayUs: nat, oneshot: bool, onTimeout: bool) | Stop

  /** A call that starts the timer as a one-shot. */
  predicate StartsOneShot(c: Call) {
    c.Start? && c.oneshot && c.delayUs != 0 && c.onTimeout
  }

  /** Any calls, then a repeating start: the timer fires again and again if and only if no call before
      had started it as a one-shot, however long ago and however often it was stopped since. */
  method RepeatingStart(tim: Tim2, calls: seq<Call>, delayUs: nat)
    requires 0 < delayUs <= MAX_DELAY
    requires forall k :: 0 <= k < |calls| && calls[k].Start? ==> calls[k].delayUs <= MAX_DELAY
    modifies tim
    ensures tim.CanFire() && Accurate(delayUs, tim.psc, tim.arr)
    ensures !tim.opm <==> !old(tim.opm) && forall k :: 0 <= k < |calls| ==> !StartsOneShot(calls[k])
  {
    for i := 0 to |calls|
      invariant tim.opm <==> old(tim.opm) || exists k :: 0 <= k < i && StartsOneShot(calls[k])
    {
      match calls[i]
      case Start(delay, oneshot, onTimeout) => var _ := tim.TimerStart(delay, oneshot, onTimeout);
      case Stop => tim.TimerStop();
    }
    var _ := tim.TimerStart(delayUs, false, true);
  }

  /** For the bootloader's three seconds the choice is unique, and 3232 of 216 million ticks short. */
  lemma BootloaderTimeout(psc: nat, arr: nat)
    ensures Accurate(3_000_000, psc, arr) <==> psc == 3295 && arr == 65532
  {
  }
}
