/** The kernel clock of kernel/time/time.c and the choice of its source in
    kernel/time/clocksource.c.  What a source reads is given to each operation. */
module Clock {
  import opened ClockView
  import opened Options
  import opened Words

  /** struct clocksource */
  datatype Source = Source(name: string, rating: nat, frequency: nat)

  /** The frequency is a 32-bit word, and the code divides by it. */
  predicate Usable(cs: Source) {
    0 < cs.frequency < UINT
  }

  class Clock {
    var clock: Option<Source>          // kernel_time.ts.clock
    var frequency: nat
    var last: nat
    var tvSec: nat
    var tvNsec: int
    var sources: seq<Source>           // clocksource_list
    var current: Option<Source>        // current_clocksource

    function View(): Time
      reads this
    {
      Time(frequency, last, tvSec, tvNsec)
    }

    /** The source in use has the highest rating registered. */
    ghost predicate Best()
      reads `sources, `current
    {
      && (current.None? <==> sources == [])
      && (current.Some? ==> current.value in sources && forall s :: s in sources ==> s.rating <= current.value.rating)
      && forall s :: s in sources ==> Usable(s)
    }

    ghost predicate Valid()
      reads this
    {
      && Best() && (clock.Some? ==> Usable(clock.value) && frequency == clock.value.frequency)
      && tvSec < WORD && -0x8000_0000_0000_0000 <= tvNsec < NSEC_PER_SEC
    }

    constructor ()
      ensures Valid() && clock == None && sources == [] && Sum(View()) == 0
    {
      clock, frequency, last, tvSec, tvNsec := None, 0, 0, 0, 0;
      sources, current := [], None;
    }

    /** time_update */
    method Update(now: nat)
      requires Valid()
      modifies `last, `tvSec, `tvNsec
      ensures Valid()
      ensures View() == if clock.None? then old(View()) else Advance(old(View()), now)
      ensures clock.Some? ==> last == now
    {
      if clock.None? {
        return;
      }
      ghost var t := View();
      AdvanceSum(t, now);
      LongSame(tvNsec + Gain(t, now));
      hide ToLong, Offset, CycleToNs, Same, Best;
      var offset := Offset(now, last);
      last := now;
      tvNsec := ToLong(tvNsec + CycleToNs(offset, frequency));
      hide Carried, Sum, Nanos;
      while tvNsec >= NSEC_PER_SEC
        invariant Carried(View()) == Advance(t, now)
        invariant tvSec < WORD && -0x8000_0000_0000_0000 <= tvNsec
      {
        CarryStep(View());
        tvNsec := tvNsec - NSEC_PER_SEC;
        tvSec := (tvSec + 1) % WORD;
      }
      NothingToCarry(View());
    }

    /** ktime_get: the accumulated time in 64 bits, which takes exactly the gain and goes
        back exactly when the whole does not fit. */
    method Get(now: nat) returns (t: nat)
      requires Valid()
      modifies `last, `tvSec, `tvNsec
      ensures Valid() && t == Sum(View()) == (tvSec * 1_000_000_000 + tvNsec) % 0x1_0000_0000_0000_0000
      ensures clock.Some? ==> last == now
      ensures View() == if clock.None? then old(View()) else Advance(old(View()), now)
      ensures var gain := if clock.None? then 0 else old(Gain(View(), now));
              && t == (old(Sum(View())) + gain) % WORD
              && (old(Sum(View())) <= t <==> old(Sum(View())) + gain < WORD)
    {
      if clock.Some? {
        AdvanceSum(View(), now);
        SumStepIff(View(), now);
      }
      Update(now);
      t := (tvSec * NSEC_PER_SEC + tvNsec) % WORD;
    }

    /** time_update_clocksource: the time since the last update is dropped. */
    method UpdateSource(cs: Source, now: nat)
      requires Usable(cs)
      modifies `clock, `frequency, `last
      ensures clock == Some(cs)
      ensures View() == Switch(old(View()), cs.frequency, now) && Sum(View()) == old(Sum(View()))
      ensures frequency == cs.frequency && last == now && tvSec == old(tvSec) && tvNsec == old(tvNsec)
    {
      clock := Some(cs);
      last := now;
      frequency := cs.frequency;
    }

    /** clocksource_register */
    method Register(cs: Source, now: nat)
      requires Valid() && Usable(cs)
      modifies `sources, `current, `clock, `frequency, `last
      ensures Valid() && sources == [cs] + old(sources) && clock == current
      ensures current == if old(current).None? || cs.rating > old(current).value.rating then Some(cs) else old(current)
      ensures Sum(View()) == old(Sum(View())) && last == now
    {
      sources := [cs] + sources;
      assert cs in sources && forall s :: s in sources ==> s == cs || s in old(sources);
      Select(now);
    }

    /** The current source is a listed one that beats the one before. */
    ghost predicate Taken(was: Option<Source>)
      reads `sources, `current
    {
      current.Some? && current.value in sources && (was.Some? ==> current.value.rating > was.value.rating)
    }

    /** clocksource_select: the current source stays unless a listed one has a higher
        rating.  The time is switched to the choice even if it is the same. */
    method Select(now: nat)
      requires forall s :: s in sources ==> Usable(s)
      requires current.Some? ==> Usable(current.value)
      modifies `current, `clock, `frequency, `last
      ensures sources == [] ==> current == old(current) && clock == old(clock) && View() == old(View())
      ensures sources != [] ==> current.Some? && clock == current
                                && View() == Switch(old(View()), current.value.frequency, now)
      ensures forall s :: s in sources ==> s.rating <= current.value.rating
      ensures current == old(current) || Taken(old(current))
    {
      var changed := false;
      var i := 0;
      while i < |sources|
        invariant 0 <= i <= |sources| && changed == (i > 0)
        invariant i > 0 ==> current.Some?
        invariant forall k :: 0 <= k < i ==> sources[k].rating <= current.value.rating
        invariant current == old(current) || Taken(old(current))
        invariant clock == old(clock) && View() == old(View())
      {
        var cs := sources[i];
        if current.Some? {
          if cs.rating > current.value.rating {
            current := Some(cs);
          }
          changed := true;
        } else {
          current := Some(cs);
          changed := true;
        }
        i := i + 1;
      }
      if changed {
        UpdateSource(current.value, now);
      }
    }
  }
}
