/** The system tick of the updater, which paces the ARP timer over a 32-bit counter that wraps. */
module Ticks {
  import opened Arithmetic

  /** The tick counter, the counter value at the last firing, and how often the timer has fired. */
  datatype Clock = Clock(localtime: nat, arpTimer: nat, fired: nat)

  /** SysTick_Handler with the lwip_periodic_handle it calls. */
  function Tick(c: Clock, interval: nat): Clock {
    var now := U32(c.localtime + 1);
    if U32(now - c.arpTimer) >= interval then Clock(now, now, c.fired + 1) else c.(localtime := now)
  }

  function TicksFrom(c: Clock, interval: nat, n: nat): Clock
    decreases n
  {
    if n == 0 then c else Tick(TicksFrom(c, interval, n - 1), interval)
  }

  /** The unsigned difference of two counter readings is the time between them. */
  lemma Elapsed(now: nat, then': nat)
    requires 0 <= now - then' < UINT_RANGE
    ensures U32(0) == 0 && U32(U32(now) - U32(then')) == now - then'
  {
  }

  lemma Advance(n: nat)
    ensures U32(U32(n) + 1) == U32(n + 1)
  {
  }

  /** The tick after time `n`, when the timer last fired `r` ticks before. */
  lemma TickAt(c: Clock, interval: nat, n: nat, r: nat)
    requires r < interval < UINT_RANGE && r <= n && c.localtime == U32(n) && c.arpTimer == U32(n - r)
    ensures Tick(c, interval)
      == if r + 1 == interval then Clock(U32(n + 1), U32(n + 1), c.fired + 1) else c.(localtime := U32(n + 1))
  {
    hide U32;
    Elapsed(n + 1, n - r);
    Advance(n);
  }

  /** After any number of ticks, however often the counter has wrapped, the timer has fired once for
      every whole interval, the last time at the end of the last whole interval. */
  lemma {:induction false} FiresOncePerInterval(interval: nat, n: nat)
    requires 1 <= interval < UINT_RANGE
    ensures var c := TicksFrom(Clock(0, 0, 0), interval, n);
      && c.fired == n / interval && c.localtime == U32(n) && c.arpTimer == U32(n - n % interval)
    decreases n
  {
    hide Tick, U32;
    if n == 0 {
      DivUnique(0, 0, 0, interval);
      assert U32(0) == 0 by { Elapsed(0, 0); }
    } else {
      FiresOncePerInterval(interval, n - 1);
      NextQuotient(n - 1, interval);
      DivMod(n - 1, interval);
      DivAtLeast(n - 1, 0, interval);
      MulMonotone(0, (n - 1) / interval, interval);
      TickAt(TicksFrom(Clock(0, 0, 0), interval, n - 1), interval, n - 1, (n - 1) % interval);
    }
  }

  /** The tick handler over the counters as the programs keep them. */
  class SysTick {
    const interval: nat
    var localtime: nat
    var arpTimer: nat
    ghost var fired: nat

    ghost function View(): Clock
      reads this
    {
      Clock(localtime, arpTimer, fired)
    }

    constructor (interval: nat)
      ensures this.interval == interval && View() == Clock(0, 0, 0)
    {
      this.interval := interval;
      localtime, arpTimer, fired := 0, 0, 0;
    }

    /** `fired` stands for the call of the ARP timer. */
    method LwipPeriodicHandle()
      modifies this`arpTimer, this`fired
      ensures View() == if U32(localtime - old(arpTimer)) >= interval
        then Clock(localtime, localtime, old(fired) + 1) else old(View())
    {
      if U32(localtime - arpTimer) >= interval {
        arpTimer := localtime;
        fired := fired + 1;
      }
    }

    method SysTickHandler()
      modifies this
      ensures View() == Tick(old(View()), interval)
    {
      localtime := U32(localtime + 1);
      LwipPeriodicHandle();
    }
  }
}
