/** Keeping time: what an update of kernel/time/time.c does to the accumulated
    time, and what that means over runs of updates and source switches. */
module ClockView {
  import opened Arithmetic
  import opened Words

  const NSEC_PER_SEC: nat := 1_000_000_000

  /** The source's frequency, its last reading, and the accumulated time.  sec is an
      unsigned 64-bit word and nsec a long, which can become negative. */
  datatype Time = Time(frequency: nat, last: nat, sec: nat, nsec: int)

  function Nanos(t: Time): int {
    t.sec * NSEC_PER_SEC + t.nsec
  }

  /** The sum that ktime_get returns, in 64 bits. */
  function Sum(t: Time): (r: nat)
    ensures r < WORD
  {
    Nanos(t) % WORD
  }

  /** now - last, in 64 bits */
  function Offset(now: nat, last: nat): nat {
    (now - last) % WORD
  }

  /** time_cycle_to_ns: the product is cut to 64 bits. */
  function CycleToNs(cycle: nat, frequency: nat): (ns: nat)
    requires frequency > 0
    ensures ns < WORD
  {
    QuotientAtMost(cycle * NSEC_PER_SEC % WORD, frequency);
    Quotient(cycle * NSEC_PER_SEC % WORD, frequency)
  }

  lemma QuotientAtMost(x: nat, d: nat)
    requires d > 0
    ensures Quotient(x, d) <= x
  {
    DivMod(x, d);
    ProductGrows(1, d, Quotient(x, d), Quotient(x, d));
  }

  /** What one reading is worth. */
  function Gain(t: Time, now: nat): (ns: nat)
    requires t.frequency > 0
    ensures ns < WORD
  {
    CycleToNs(Offset(now, t.last), t.frequency)
  }

  ghost predicate Inv(t: Time) {
    0 < t.frequency < UINT && t.sec < WORD && -0x8000_0000_0000_0000 <= t.nsec < NSEC_PER_SEC
  }

  /** tv_nsec is a part of a second. */
  ghost predicate Normal(t: Time) {
    Inv(t) && 0 <= t.nsec
  }

  /** The carry loop. */
  function Carried(t: Time): Time {
    if t.nsec < NSEC_PER_SEC then t
    else t.(sec := (t.sec + t.nsec / NSEC_PER_SEC) % WORD, nsec := t.nsec % NSEC_PER_SEC)
  }

  /** time_update with a reading. */
  function Advance(t: Time, now: nat): Time
    requires t.frequency > 0
  {
    Carried(t.(last := now, nsec := ToLong(t.nsec + Gain(t, now))))
  }

  /** time_update_clocksource */
  function Switch(t: Time, frequency: nat, now: nat): Time {
    t.(frequency := frequency, last := now)
  }

  // ----- one update

  /** Congruence modulo 2^64. */
  predicate Same(x: int, y: int) {
    x % WORD == y % WORD
  }

  lemma SameShift(x: int, y: int, j: int)
    requires x == y + WORD * j
    ensures Same(x, y)
  {}

  lemma NothingToCarry(t: Time)
    requires t.nsec < NSEC_PER_SEC
    ensures Carried(t) == t
  {}

  /** One turn of the carry loop. */
  lemma CarryStep(t: Time)
    requires t.nsec >= NSEC_PER_SEC
    ensures Carried(t.(sec := (t.sec + 1) % WORD, nsec := t.nsec - NSEC_PER_SEC)) == Carried(t)
  {
    var k := t.nsec / NSEC_PER_SEC;
    assert (t.nsec - NSEC_PER_SEC) / NSEC_PER_SEC == k - 1;
    SameAdd((t.sec + 1) % WORD, t.sec + 1, k - 1);
  }

  lemma CarriedSum(t: Time)
    ensures Sum(Carried(t)) == Sum(t)
  {
    if t.nsec >= NSEC_PER_SEC {
      var s := t.sec + t.nsec / NSEC_PER_SEC;
      var j := s / WORD;
      assert s % WORD == s - WORD * j;
      assert Nanos(Carried(t)) == Nanos(t) - WORD * j * NSEC_PER_SEC;
      SameShift(Nanos(t), Nanos(Carried(t)), j * NSEC_PER_SEC);
    }
  }

  lemma LongSame(x: int)
    ensures Same(ToLong(x), x) && -0x8000_0000_0000_0000 <= ToLong(x) < 0x8000_0000_0000_0000
  {
    SameShift(x, ToLong(x), (x - ToLong(x)) / WORD);
  }

  lemma SameAdd(x: int, y: int, z: int)
    requires Same(x, y)
    ensures Same(x + z, y + z)
  {
    SameShift(x + z, y + z, x / WORD - y / WORD);
  }

  lemma CarriedRange(t: Time)
    requires t.sec < WORD
    ensures Carried(t).sec < WORD && Carried(t).nsec < NSEC_PER_SEC
    ensures Carried(t).nsec == t.nsec || 0 <= Carried(t).nsec
  {}

  /** Whatever becomes of tv_nsec, the 64-bit sum takes exactly the gain. */
  lemma AdvanceSum(t: Time, now: nat)
    requires Inv(t)
    ensures Inv(Advance(t, now)) && Sum(Advance(t, now)) == (Sum(t) + Gain(t, now)) % WORD
  {
    hide Gain, ToLong;
    var g := Gain(t, now);
    var u := t.(last := now, nsec := ToLong(t.nsec + g));
    LongSame(t.nsec + g);
    CarriedSum(u);
    CarriedRange(u);
    hide Carried;
    SameAdd(ToLong(t.nsec + g), t.nsec + g, t.sec * NSEC_PER_SEC);
    SameAdd(Nanos(t), Sum(t), g);
  }

  /** What a reading is worth: the cycles since the last one, in 64 bits, times 10^9,
      again in 64 bits, shared out by the frequency. */
  lemma GainIs(t: Time, now: nat)
    requires t.frequency > 0
    ensures var x := (now - t.last) % 0x1_0000_0000_0000_0000 * 1_000_000_000 % 0x1_0000_0000_0000_0000;
            Gain(t, now) * t.frequency <= x < Gain(t, now) * t.frequency + t.frequency
  {
    DivMod(Offset(now, t.last) * NSEC_PER_SEC % WORD, t.frequency);
    hide Quotient, Remainder;
  }

  /** An update remembers the reading and adds the gain to tv_nsec, which keeps a long of
      it.  Whole seconds are carried to tv_sec, in 64 bits, but none out of a negative one. */
  lemma AdvanceOutcome(t: Time, now: nat)
    requires Inv(t)
    ensures var u, y := Advance(t, now), t.nsec + Gain(t, now);
            && u.frequency == t.frequency && u.last == now
            && if y >= 0x8000_0000_0000_0000 then u.sec == t.sec && u.nsec == y - 0x1_0000_0000_0000_0000
               else if y < 1_000_000_000 then u.sec == t.sec && u.nsec == y
               else
                 && u.nsec == y % 1_000_000_000
                 && u.sec == (t.sec + y / 1_000_000_000) % 0x1_0000_0000_0000_0000
  {
    hide Gain, ToLong;
    LongIs(t.nsec + Gain(t, now));
  }

  lemma LongIs(x: int)
    requires -0x8000_0000_0000_0000 <= x < WORD + NSEC_PER_SEC
    ensures ToLong(x) == if x < 0x8000_0000_0000_0000 then x else x - WORD
  {
    LongSame(x);
    var j := x / WORD - ToLong(x) / WORD;
    assert x - ToLong(x) == WORD * j;
  }

  /** The sum counts the gain in full, and does not go back, exactly when it stays
      below 2^64. */
  lemma SumStepIff(t: Time, now: nat)
    requires Inv(t)
    ensures Sum(Advance(t, now)) == Sum(t) + Gain(t, now) <==> Sum(t) + Gain(t, now) < WORD
    ensures Sum(t) <= Sum(Advance(t, now)) <==> Sum(t) + Gain(t, now) < WORD
  {
    hide Gain, Advance, Sum;
    AdvanceSum(t, now);
  }

  /** The sum in tv_nsec before the carry fits in a long. */
  ghost predicate LongFits(t: Time, ns: nat) {
    t.nsec + ns < 0x8000_0000_0000_0000
  }

  /** tv_nsec stays right exactly when the sum before the carry fits in a long. */
  lemma NsecRightIff(t: Time, now: nat)
    requires Normal(t)
    ensures Advance(t, now).nsec == (t.nsec + Gain(t, now)) % NSEC_PER_SEC <==> LongFits(t, Gain(t, now))
    ensures LongFits(t, Gain(t, now)) ==> Normal(Advance(t, now))
  {
    hide Gain, ToLong;
    var x := t.nsec + Gain(t, now);
    LongIs(x);
    if x >= WORD {
      NotThePart(x);
    }
  }

  lemma NotThePart(x: nat)
    requires WORD <= x < WORD + NSEC_PER_SEC
    ensures x - WORD != x % NSEC_PER_SEC
  {
    assert WORD % NSEC_PER_SEC == 709_551_616;
  }

  /** The two words together count the gain in full, and do not go back, exactly when
      in addition tv_sec does not wrap around. */
  lemma NanosStepIff(t: Time, now: nat)
    requires Normal(t)
    ensures var g := Gain(t, now);
            var right := LongFits(t, g) && t.sec + (t.nsec + g) / NSEC_PER_SEC < WORD;
            && (Nanos(Advance(t, now)) == Nanos(t) + g <==> right)
            && (Nanos(t) <= Nanos(Advance(t, now)) <==> right)
            && Nanos(Advance(t, now)) <= Nanos(t) + g
  {
    hide Gain, ToLong;
    LongIs(t.nsec + Gain(t, now));
  }

  /** From 3 Hz on the long is always wide enough. */
  lemma ThreeHertz(t: Time, now: nat)
    requires Normal(t) && t.frequency >= 3
    ensures LongFits(t, Gain(t, now))
  {
    var x := Offset(now, t.last) * NSEC_PER_SEC % WORD;
    DivMod(x, t.frequency);
    ProductGrows(3, t.frequency, Gain(t, now), Gain(t, now));
    hide Quotient, Remainder;
  }

  /** At 1 Hz a reading one cycle back makes tv_nsec minus one second, and at 2 Hz it
      can make it the least long; the sum is right all the same. */
  lemma SlowSources()
    ensures var t := Time(1, 1, 0, 0); Normal(t) && Advance(t, 0).nsec == -1_000_000_000
    ensures var t := Time(2, 1, 0, 500_000_000); Normal(t) && Advance(t, 0).nsec == -0x8000_0000_0000_0000
  {
    hide Gain, Quotient, CycleToNs, ToLong;
    OneCycleBack(Time(1, 1, 0, 0));
    OneCycleBack(Time(2, 1, 0, 500_000_000));
    QuotientOf(WORD - NSEC_PER_SEC, 1, WORD - NSEC_PER_SEC);
    QuotientOf(WORD - NSEC_PER_SEC, 2, (WORD - NSEC_PER_SEC) / 2);
    LongsAtTheEdge();
  }

  lemma LongsAtTheEdge()
    ensures ToLong(WORD - NSEC_PER_SEC) == -1_000_000_000 && ToLong(WORD / 2) == -0x8000_0000_0000_0000
  {}

  lemma OneCycleBack(t: Time)
    requires t.frequency > 0 && t.last == 1
    ensures Gain(t, 0) == Quotient(WORD - NSEC_PER_SEC, t.frequency)
  {
    hide Quotient;
    assert Offset(0, 1) == WORD - 1;
    assert (WORD - 1) * NSEC_PER_SEC % WORD == WORD - NSEC_PER_SEC;
  }

  lemma QuotientOf(x: nat, d: nat, q: nat)
    requires d > 0 && d * q == x
    ensures Quotient(x, d) == q
  {
    EuclidUnique(x, d, q, 0);
  }

  /** A reading is worth its cycles, to the nanosecond below, exactly when the product
      fits in 64 bits. */
  lemma GainFullIff(t: Time, now: nat)
    requires Inv(t) && t.last <= now < WORD
    ensures var x := (now - t.last) * NSEC_PER_SEC;
            && Gain(t, now) <= Quotient(x, t.frequency)
            && (Gain(t, now) == Quotient(x, t.frequency) <==> x < WORD)
  {
    hide Quotient;
    assert Offset(now, t.last) == now - t.last;
    if (now - t.last) * NSEC_PER_SEC >= WORD {
      CutLoses((now - t.last) * NSEC_PER_SEC, t.frequency);
    }
  }

  /** And an update adds just that exactly when moreover the two words can take it. */
  lemma FullCountIff(t: Time, now: nat)
    requires Normal(t) && t.last <= now < WORD
    ensures var q := Quotient((now - t.last) * NSEC_PER_SEC, t.frequency);
            Nanos(Advance(t, now)) - Nanos(t) == q <==>
              && (now - t.last) * NSEC_PER_SEC < WORD
              && LongFits(t, q) && t.sec + (t.nsec + q) / NSEC_PER_SEC < WORD
  {
    hide Advance, Nanos, Quotient, Gain;
    GainFullIff(t, now);
    NanosStepIff(t, now);
  }

  /** A product that is cut to 64 bits is worth less. */
  lemma CutLoses(x: nat, f: nat)
    requires x >= WORD && 0 < f < UINT
    ensures Quotient(x % WORD, f) < Quotient(x, f)
  {
    DivMod(x, f);
    DivMod(x % WORD, f);
    hide Quotient, Remainder;
    var p, q := Quotient(x % WORD, f), Quotient(x, f);
    if q <= p {
      ProductGrows(f, f, q, p);
    }
  }

  /** With one cycle a nanosecond, readings 20 seconds apart count as less than two. */
  lemma WrapLosesTime()
    ensures var t := Time(NSEC_PER_SEC, 0, 0, 0);
            Normal(t) && Nanos(Advance(t, 20 * NSEC_PER_SEC)) < 2 * NSEC_PER_SEC
  {
    var x := 20 * NSEC_PER_SEC;
    assert x * NSEC_PER_SEC == 20_000_000_000_000_000_000;
    assert x * NSEC_PER_SEC % WORD == 1_553_255_926_290_448_384;
    NanosStepIff(Time(NSEC_PER_SEC, 0, 0, 0), x);
  }

  // ----- runs

  datatype Op = Read(now: nat) | Change(frequency: nat, now: nat)

  ghost predicate Legal(op: Op) {
    op.Change? ==> 0 < op.frequency < UINT
  }

  ghost predicate AllLegal(ops: seq<Op>) {
    forall op :: op in ops ==> Legal(op)
  }

  ghost function Step(t: Time, op: Op): (r: Time)
    requires Inv(t) && Legal(op)
    ensures Inv(r)
  {
    match op
    case Read(now) => AdvanceSum(t, now); Advance(t, now)
    case Change(f, now) => Switch(t, f, now)
  }

  ghost function Run(t: Time, ops: seq<Op>): (r: Time)
    requires Inv(t) && AllLegal(ops)
    ensures Inv(r)
    decreases |ops|
  {
    if ops == [] then t else Run(Step(t, ops[0]), ops[1..])
  }

  ghost function StepGain(t: Time, op: Op): (g: nat)
    requires Inv(t)
    ensures g < WORD
  {
    if op.Read? then Gain(t, op.now) else 0
  }

  /** What all the readings of a run are worth together. */
  ghost function Gained(t: Time, ops: seq<Op>): nat
    requires Inv(t) && AllLegal(ops)
    decreases |ops|
  {
    if ops == [] then 0 else StepGain(t, ops[0]) + Gained(Step(t, ops[0]), ops[1..])
  }

  lemma StepSum(t: Time, op: Op)
    requires Inv(t) && Legal(op)
    ensures Sum(Step(t, op)) == (Sum(t) + StepGain(t, op)) % WORD
  {
    if op.Read? {
      AdvanceSum(t, op.now);
    }
  }

  /** Over every run of updates and source switches ktime_get returns the sum of the
      gains in 64 bits. */
  lemma {:induction false} RunSum(t: Time, ops: seq<Op>)
    requires Inv(t) && AllLegal(ops)
    ensures Sum(Run(t, ops)) == (Sum(t) + Gained(t, ops)) % WORD
    decreases |ops|
  {
    hide Step, StepGain, Sum;
    if ops != [] {
      StepSum(t, ops[0]);
      RunSum(Step(t, ops[0]), ops[1..]);
      SameAdd(Sum(Step(t, ops[0])), Sum(t) + StepGain(t, ops[0]), Gained(Step(t, ops[0]), ops[1..]));
    }
  }

  /** No step of the run takes the sum back. */
  ghost predicate Climbs(t: Time, ops: seq<Op>)
    requires Inv(t) && AllLegal(ops)
    decreases |ops|
  {
    ops == [] || (Sum(t) <= Sum(Step(t, ops[0])) && Climbs(Step(t, ops[0]), ops[1..]))
  }

  /** What ktime_get returns never goes back, whatever the sources read and whenever
      they are changed, exactly as long as the whole fits in 64 bits. */
  lemma {:induction false} NeverBackIff(t: Time, ops: seq<Op>)
    requires Inv(t) && AllLegal(ops)
    ensures Climbs(t, ops) <==> Sum(t) + Gained(t, ops) < WORD
    decreases |ops|
  {
    hide Step, StepGain, Sum;
    if ops != [] {
      StepSum(t, ops[0]);
      NeverBackIff(Step(t, ops[0]), ops[1..]);
    }
  }

  /** With sources of 3 Hz or more tv_nsec is a part of a second after every step. */
  lemma {:induction false} RunNormal(t: Time, ops: seq<Op>)
    requires Normal(t) && t.frequency >= 3 && AllLegal(ops)
    requires forall op :: op in ops && op.Change? ==> op.frequency >= 3
    ensures Normal(Run(t, ops))
    decreases |ops|
  {
    if ops != [] {
      if ops[0].Read? {
        ThreeHertz(t, ops[0].now);
        NsecRightIff(t, ops[0].now);
      }
      hide Advance, Gain, LongFits;
      RunNormal(Step(t, ops[0]), ops[1..]);
    }
  }

  /** Readings that do not go down and lie close enough for the product to fit in
      64 bits. */
  ghost predicate Steady(last: nat, readings: seq<nat>)
    decreases |readings|
  {
    readings == [] || (last <= readings[0] < WORD && (readings[0] - last) * NSEC_PER_SEC < WORD
                       && Steady(readings[0], readings[1..]))
  }

  ghost function Reads(readings: seq<nat>): (ops: seq<Op>)
    ensures |ops| == |readings| && AllLegal(ops)
  {
    seq(|readings|, i requires 0 <= i < |readings| => Read(readings[i]))
  }

  /** Between two switches the gains never exceed the time the source has counted, and
      are behind it by less than one nanosecond for each update. */
  lemma {:induction false} Accuracy(t: Time, readings: seq<nat>)
    requires Inv(t) && Steady(t.last, readings)
    ensures var r, gained := Run(t, Reads(readings)), Gained(t, Reads(readings));
            && r.frequency == t.frequency && r.last >= t.last
            && Sum(r) == (Sum(t) + gained) % WORD
            && var counted := (r.last - t.last) * NSEC_PER_SEC;
               && t.frequency * gained <= counted
               && counted <= t.frequency * gained + (t.frequency - 1) * |readings|
    decreases |readings|
  {
    RunSum(t, Reads(readings));
    hide Sum, Advance, Gain;
    if readings != [] {
      var now := readings[0];
      var u := Step(t, Read(now));
      assert Reads(readings)[0] == Read(now) && Reads(readings)[1..] == Reads(readings[1..]);
      OneReading(t, now);
      Accuracy(u, readings[1..]);
      var r := Run(u, Reads(readings[1..]));
      AddGains(t.frequency, Gain(t, now), Gained(u, Reads(readings[1..])), |readings| - 1,
               (now - t.last) * NSEC_PER_SEC, (r.last - now) * NSEC_PER_SEC);
    }
  }

  lemma OneReading(t: Time, now: nat)
    requires Inv(t) && t.last <= now < WORD && (now - t.last) * NSEC_PER_SEC < WORD
    ensures Advance(t, now).frequency == t.frequency && Advance(t, now).last == now
    ensures var x, g := (now - t.last) * NSEC_PER_SEC, Gain(t, now);
            t.frequency * g <= x <= t.frequency * g + (t.frequency - 1)
  {
    hide Quotient, Remainder;
    assert Offset(now, t.last) == now - t.last;
    DivMod((now - t.last) * NSEC_PER_SEC, t.frequency);
  }

  lemma AddGains(f: nat, a: nat, b: nat, n: nat, x: nat, y: nat)
    requires f > 0 && f * a <= x <= f * a + (f - 1) && f * b <= y <= f * b + (f - 1) * n
    ensures f * (a + b) <= x + y <= f * (a + b) + (f - 1) * (n + 1)
  {
    assert f * (a + b) == f * a + f * b;
    assert (f - 1) * (n + 1) == (f - 1) * n + (f - 1);
  }
}
