/** Threads that run time_update and ktime_get of kernel/time/time.c at the same
    time, one memory access at a time.  time_update runs under the lock of
    kernel/lock/spinlock.c; ktime_get loads the two words of the time after it has
    given the lock back, in either order. */
module Spinlock {
  import opened ClockView
  import opened Words

  /** Where a thread is.  The comments name the access it makes next. */
  datatype Pc =
    | Idle                                  // calls time_update or ktime_get
    | Trying                                // compare-and-swap on the lock
    | Checking                              // ts.clock
    | Reading                               // ts.read()
    | Measuring(now: nat)                   // ts.last
    | Storing(now: nat, offset: nat)        // ts.last =
    | Adding(ns: nat)                       // tv_nsec
    | PutSum(nsec: int, ns: nat)            // tv_nsec =
    | Testing                               // tv_nsec
    | Taking                                // tv_nsec
    | PutRest(nsec: int)                    // tv_nsec =
    | Carrying                              // tv_sec
    | PutSec(sec: nat)                      // tv_sec =
    | Leaving                               // the lock = 0
    | LoadSec                               // tv_sec, then tv_nsec
    | LoadNsec                              // tv_nsec, then tv_sec
    | SecLoaded(sec: nat, carries: nat)     // tv_nsec
    | NsecLoaded(nsec: int, counted: int, begun: nat)                 // tv_sec
    | Got(value: nat, counted: int, behind: int, secFirst: bool)      // returns value

  /** Between lock and unlock. */
  predicate Critical(pc: Pc) {
    match pc
    case Idle | Trying | LoadSec | LoadNsec | SecLoaded(_, _) | NsecLoaded(_, _, _) | Got(_, _, _, _) => false
    case _ => true
  }

  /** The shared words and the threads.  counter is the source itself.  The rest is
      history: the clock at the start, the readings stored so far, the thread that
      holds the lock (-1 for none), the nanoseconds that have been stored into
      tv_nsec, and how often a second has been taken from tv_nsec and given to tv_sec. */
  datatype System = System(locked: nat, hasClock: bool, shared: Time, counter: nat, pcs: seq<Pc>,
                           start: Time, log: seq<nat>, owner: int, counted: int, begun: nat, carries: nat)

  /** What a thread does once it has updated the time: return from time_update, or go
      on in ktime_get. */
  datatype Then = Return | SecFirst | NsecFirst

  /** now is what the source reads, if it is read. */
  datatype Move = Move(thread: nat, now: nat, after: Then)

  function WithPc(s: System, i: nat, pc: Pc): System
    requires i < |s.pcs|
  {
    s.(pcs := s.pcs[i := pc])
  }

  /** The sum in ktime_get. */
  function Value(sec: nat, nsec: int): nat {
    (sec * NSEC_PER_SEC + nsec) % WORD
  }

  /** One step of a thread. */
  function Step(s: System, m: Move): System
    requires m.thread < |s.pcs| && s.shared.frequency > 0
  {
    var i := m.thread;
    match s.pcs[i]
    case Idle => WithPc(s, i, Trying)
    case Trying =>
      if s.locked == 0 then WithPc(s, i, Checking).(locked := 1, owner := i) else s
    case Checking => WithPc(s, i, if s.hasClock then Reading else Leaving)
    case Reading => WithPc(s, i, Measuring(m.now)).(counter := m.now)
    case Measuring(r) => WithPc(s, i, Storing(r, Offset(r, s.shared.last)))
    case Storing(r, offset) =>
      WithPc(s, i, Adding(CycleToNs(offset, s.shared.frequency))).(shared := s.shared.(last := r), log := s.log + [r])
    case Adding(ns) => WithPc(s, i, PutSum(ToLong(s.shared.nsec + ns), ns))
    case PutSum(v, ns) => WithPc(s, i, Testing).(shared := s.shared.(nsec := v), counted := s.counted + ns)
    case Testing => WithPc(s, i, if s.shared.nsec >= NSEC_PER_SEC then Taking else Leaving)
    case Taking => WithPc(s, i, PutRest(s.shared.nsec - NSEC_PER_SEC))
    case PutRest(v) => WithPc(s, i, Carrying).(shared := s.shared.(nsec := v), begun := s.begun + 1)
    case Carrying => WithPc(s, i, PutSec((s.shared.sec + 1) % WORD))
    case PutSec(v) => WithPc(s, i, Testing).(shared := s.shared.(sec := v), carries := s.carries + 1)
    case Leaving =>
      WithPc(s, i, if m.after == Return then Idle else if m.after == SecFirst then LoadSec else LoadNsec)
        .(locked := 0, owner := -1)
    case LoadSec => WithPc(s, i, SecLoaded(s.shared.sec, s.carries))
    case LoadNsec => WithPc(s, i, NsecLoaded(s.shared.nsec, s.counted, s.begun))
    case SecLoaded(sec, carries) =>
      WithPc(s, i, Got(Value(sec, s.shared.nsec), s.counted, s.begun - carries, true))
    case NsecLoaded(nsec, counted, begun) =>
      WithPc(s, i, Got(Value(s.shared.sec, nsec), counted, begun - s.carries, false))
    case Got(_, _, _, _) => WithPc(s, i, Idle)
  }

  /** The counter does not go back and fits in 64 bits. */
  predicate Legal(s: System, m: Move) {
    m.thread < |s.pcs| && (s.pcs[m.thread].Reading? ==> s.counter <= m.now < WORD)
  }

  // ----- the account of the owner

  /** The updates of the log, one after the other. */
  function Replay(t: Time, log: seq<nat>): (r: Time)
    requires t.frequency > 0
    ensures r.frequency == t.frequency
    decreases |log|
  {
    if log == [] then t else Advance(Replay(t, log[..|log| - 1]), log[|log| - 1])
  }

  /** What the readings of the log are worth together. */
  function LogGain(t: Time, log: seq<nat>): nat
    requires t.frequency > 0
    decreases |log|
  {
    if log == [] then 0
    else LogGain(t, log[..|log| - 1]) + Gain(Replay(t, log[..|log| - 1]), log[|log| - 1])
  }

  ghost predicate Rising(from: nat, log: seq<nat>, to: nat) {
    (forall k :: 0 <= k < |log| ==> from <= log[k] <= to)
    && (forall j, k :: 0 <= j < k < |log| ==> log[j] <= log[k])
  }

  /** What the owner has done so far, against the updates of the log. */
  ghost predicate Agrees(shared: Time, pc: Pc, counter: nat, r: Time) {
    && shared.frequency == r.frequency && shared.last == r.last
    && match pc
       case Measuring(now) => shared == r && shared.last <= now <= counter
       case Storing(now, offset) => shared == r && shared.last <= now <= counter && offset == Offset(now, shared.last)
       case Adding(ns) => Carried(shared.(nsec := ToLong(shared.nsec + ns))) == r
       case PutSum(v, ns) => v == ToLong(shared.nsec + ns) && Carried(shared.(nsec := v)) == r
       case Testing => Carried(shared) == r
       case Taking => Carried(shared) == r && shared.nsec >= NSEC_PER_SEC
       case PutRest(v) => Carried(shared) == r && 0 <= v == shared.nsec - NSEC_PER_SEC
       case Carrying => Carried(shared.(sec := (shared.sec + 1) % WORD)) == r
       case PutSec(v) => v == (shared.sec + 1) % WORD && Carried(shared.(sec := v)) == r
       case _ => shared == r
  }

  function OwnerPc(s: System): Pc
    requires -1 <= s.owner < |s.pcs|
  {
    if s.owner == -1 then Idle else s.pcs[s.owner]
  }

  ghost predicate Exclusive(s: System) {
    && s.locked == (if s.owner == -1 then 0 else 1) && -1 <= s.owner < |s.pcs|
    && (forall i :: 0 <= i < |s.pcs| ==> (Critical(s.pcs[i]) <==> i == s.owner))
  }

  ghost predicate Accounted(s: System)
    requires s.start.frequency > 0 && -1 <= s.owner < |s.pcs|
  {
    Agrees(s.shared, OwnerPc(s), s.counter, Replay(s.start, s.log))
  }

  ghost predicate Ordered(s: System) {
    s.start.last <= s.shared.last <= s.counter < WORD && Rising(s.start.last, s.log, s.shared.last)
  }

  // ----- the tallies of the two words

  /** A second is out of tv_nsec and not yet in tv_sec. */
  predicate CarryOpen(pc: Pc) {
    pc.Carrying? || pc.PutSec?
  }

  /** The gain of the last reading of the log while it is not yet in tv_nsec. */
  function Pending(pc: Pc): nat {
    if pc.Adding? || pc.PutSum? then pc.ns else 0
  }

  /** What tv_sec holds after some carries. */
  predicate SecAfter(start: Time, sec: nat, carries: nat) {
    sec == (start.sec + carries) % WORD
  }

  /** What tv_nsec holds once so much was stored into it and so often a second taken. */
  predicate NsecAfter(start: Time, nsec: int, counted: int, begun: nat) {
    Same((start.sec + begun) * NSEC_PER_SEC + nsec, counted)
  }

  ghost predicate Tallied(s: System)
    requires s.start.frequency > 0 && -1 <= s.owner < |s.pcs|
  {
    && s.begun == s.carries + (if CarryOpen(OwnerPc(s)) then 1 else 0)
    && s.counted + Pending(OwnerPc(s)) == Nanos(s.start) + LogGain(s.start, s.log)
    && SecAfter(s.start, s.shared.sec, s.carries)
    && NsecAfter(s.start, s.shared.nsec, s.counted, s.begun)
  }

  /** What a reader holds. */
  ghost predicate Reads(s: System, pc: Pc) {
    match pc
    case SecLoaded(sec, carries) => SecAfter(s.start, sec, carries) && carries <= s.carries
    case NsecLoaded(nsec, counted, begun) => NsecAfter(s.start, nsec, counted, begun) && begun <= s.carries + 1
    case Got(value, counted, behind, secFirst) =>
      value == (counted - behind * NSEC_PER_SEC) % WORD && (if secFirst then behind >= 0 else behind <= 1)
    case _ => true
  }

  ghost predicate Inv(s: System) {
    && ClockView.Inv(s.start)
    && Exclusive(s) && Accounted(s) && Ordered(s) && Tallied(s)
    && forall i :: 0 <= i < |s.pcs| ==> Reads(s, s.pcs[i])
  }

  /** Every thread outside, the clock at t. */
  ghost predicate Initial(s: System, t: Time) {
    && ClockView.Inv(t) && s.locked == 0 && s.shared == t && s.start == t && s.log == [] && s.owner == -1
    && s.counted == Nanos(t) && s.begun == 0 && s.carries == 0
    && t.last <= s.counter < WORD && forall i :: 0 <= i < |s.pcs| ==> s.pcs[i] == Idle
  }

  lemma InitialInv(s: System, t: Time)
    requires Initial(s, t)
    ensures Inv(s)
  {}

  lemma ReplayMore(t: Time, log: seq<nat>, now: nat)
    requires t.frequency > 0
    ensures Replay(t, log + [now]) == Advance(Replay(t, log), now)
    ensures LogGain(t, log + [now]) == LogGain(t, log) + Gain(Replay(t, log), now)
  {
    assert (log + [now])[..|log|] == log;
  }

  // ----- every step keeps the invariant

  lemma FrequencyKept(s: System)
    requires Inv(s)
    ensures s.shared.frequency > 0 && (s.owner == -1 ==> s.locked == 0)
  {}

  lemma OwnerAgrees(s: System, m: Move)
    requires Inv(s) && s.owner == m.thread && Legal(s, m)
    ensures var t := Step(s, m);
            t.start == s.start && (t.owner == -1 || t.owner == s.owner) && Accounted(t)
  {
    hide Replay, Carried, ToLong, LogGain, Rising, Reads, NsecAfter, SecAfter, CycleToNs, Offset;
    var pc := s.pcs[s.owner];
    if pc.Storing? {
      ReplayMore(s.start, s.log, pc.now);
      AdvanceParts(s.shared, pc.now, pc.offset);
    } else if pc.PutRest? {
      CarryStep(s.shared);
    } else if pc.Testing? && s.shared.nsec < NSEC_PER_SEC {
      NothingToCarry(s.shared);
    }
  }

  lemma AdvanceParts(t: Time, now: nat, offset: nat)
    requires t.frequency > 0 && offset == Offset(now, t.last)
    ensures Gain(t, now) == CycleToNs(offset, t.frequency)
    ensures Advance(t, now) == Carried(t.(last := now, nsec := ToLong(t.nsec + CycleToNs(offset, t.frequency))))
    ensures Advance(t, now).last == now && Advance(t, now).frequency == t.frequency
  {}

  lemma OtherAgrees(s: System, m: Move)
    requires Inv(s) && Legal(s, m) && m.thread != s.owner && Exclusive(Step(s, m))
    ensures Accounted(Step(s, m))
  {
    hide Replay, Carried, ToLong, LogGain, Rising, Reads, NsecAfter, SecAfter, CycleToNs, Offset;
  }

  lemma ExclusiveStep(s: System, m: Move)
    requires Inv(s) && Legal(s, m)
    ensures var t := Step(s, m);
            && Exclusive(t) && t.start == s.start && |t.pcs| == |s.pcs|
            && (m.thread == s.owner ==> t.owner == -1 || t.owner == m.thread)
  {
    hide Replay, Carried, ToLong, LogGain, Rising, Reads, NsecAfter, SecAfter, CycleToNs, Offset, Agrees, Tallied;
  }

  lemma OrderedStep(s: System, m: Move)
    requires Inv(s) && Legal(s, m)
    ensures Ordered(Step(s, m)) && Step(s, m).start == s.start
  {
    hide Replay, Carried, ToLong, LogGain, Reads, NsecAfter, SecAfter, CycleToNs, Offset, Tallied;
  }

  lemma OwnerTallied(s: System, m: Move)
    requires Inv(s) && s.owner == m.thread && Legal(s, m) && Exclusive(Step(s, m)) && Step(s, m).start == s.start
    ensures Tallied(Step(s, m))
  {
    hide Replay, Carried, LogGain, Rising, Reads, CycleToNs, Offset, ToLong, Nanos, NsecAfter, SecAfter;
    var pc := s.pcs[s.owner];
    if pc.Storing? {
      ReplayMore(s.start, s.log, pc.now);
      AdvanceParts(s.shared, pc.now, pc.offset);
    } else if pc.PutSum? {
      AddTally(s.start, s.shared.nsec, s.counted, s.begun, pc.ns);
    } else if pc.PutRest? {
      TakeTally(s.start, s.shared.nsec, s.counted, s.begun);
    } else if pc.PutSec? {
      CarryTally(s.start, s.shared.sec, s.carries);
    }
  }

  lemma AddTally(start: Time, nsec: int, counted: int, begun: nat, ns: nat)
    requires NsecAfter(start, nsec, counted, begun)
    ensures NsecAfter(start, ToLong(nsec + ns), counted + ns, begun)
  {
    hide ToLong;
    LongSame(nsec + ns);
    SameAdd(ToLong(nsec + ns), nsec + ns, (start.sec + begun) * NSEC_PER_SEC);
    SameAdd((start.sec + begun) * NSEC_PER_SEC + nsec, counted, ns);
  }

  lemma TakeTally(start: Time, nsec: int, counted: int, begun: nat)
    requires NsecAfter(start, nsec, counted, begun)
    ensures NsecAfter(start, nsec - NSEC_PER_SEC, counted, begun + 1)
  {}

  lemma CarryTally(start: Time, sec: nat, carries: nat)
    requires SecAfter(start, sec, carries)
    ensures SecAfter(start, (sec + 1) % WORD, carries + 1)
  {
    SameAdd(sec, start.sec + carries, 1);
  }

  lemma OtherTallied(s: System, m: Move)
    requires Inv(s) && Legal(s, m) && m.thread != s.owner && Exclusive(Step(s, m)) && Step(s, m).start == s.start
    ensures Tallied(Step(s, m))
  {
    hide Replay, Carried, LogGain, Rising, Reads, CycleToNs, Offset, ToLong, Nanos, NsecAfter, SecAfter, Agrees;
  }

  /** What the two loads add up to. */
  lemma ValueOfLoads(start: Time, sec: nat, carries: nat, nsec: int, counted: int, begun: nat)
    requires SecAfter(start, sec, carries) && NsecAfter(start, nsec, counted, begun)
    ensures Value(sec, nsec) == (counted - (begun - carries) * NSEC_PER_SEC) % WORD
  {
    var behind := begun - carries;
    var x := (start.sec + begun) * NSEC_PER_SEC + nsec;
    SameAdd(x, counted, -(behind * NSEC_PER_SEC));
    SameShift((start.sec + carries) * NSEC_PER_SEC + nsec, sec * NSEC_PER_SEC + nsec,
              (start.sec + carries) / WORD * NSEC_PER_SEC);
  }

  lemma ReadsStep(s: System, m: Move)
    requires Inv(s) && Legal(s, m)
    ensures var t := Step(s, m);
            t.start == s.start && t.carries >= s.carries && |t.pcs| == |s.pcs| && Reads(t, t.pcs[m.thread])
  {
    hide Replay, Carried, LogGain, Rising, CycleToNs, Offset, ToLong, Nanos, NsecAfter, SecAfter, Agrees, Value;
    var pc := s.pcs[m.thread];
    if pc.SecLoaded? {
      ValueOfLoads(s.start, pc.sec, pc.carries, s.shared.nsec, s.counted, s.begun);
    } else if pc.NsecLoaded? {
      ValueOfLoads(s.start, s.shared.sec, s.carries, pc.nsec, pc.counted, pc.begun);
    }
  }

  lemma OthersRead(s: System, m: Move, j: nat)
    requires Inv(s) && Legal(s, m) && j < |s.pcs| && j != m.thread
    requires Step(s, m).start == s.start && Step(s, m).carries >= s.carries
    ensures var t := Step(s, m); j < |t.pcs| && Reads(t, t.pcs[j])
  {
    FrequencyKept(s);
    StepElsewhere(s, m, j);
    hide Step, Replay, LogGain, Rising, NsecAfter, SecAfter, Agrees, Tallied, Legal;
  }

  lemma StepElsewhere(s: System, m: Move, j: nat)
    requires Legal(s, m) && s.shared.frequency > 0 && j < |s.pcs| && j != m.thread
    ensures |Step(s, m).pcs| == |s.pcs| && Step(s, m).pcs[j] == s.pcs[j]
  {
    hide CycleToNs, Offset, ToLong, Value;
  }

  /** Every step of every thread keeps the invariant. */
  lemma StepInv(s: System, m: Move)
    requires Inv(s) && Legal(s, m)
    ensures Inv(Step(s, m)) && Step(s, m).start == s.start && |Step(s, m).pcs| == |s.pcs|
  {
    OrderedStep(s, m);
    ExclusiveStep(s, m);
    if m.thread == s.owner {
      OwnerAgrees(s, m);
      OwnerTallied(s, m);
    } else {
      OtherAgrees(s, m);
      OtherTallied(s, m);
    }
    ReadsStep(s, m);
    forall j: nat | j < |s.pcs| && j != m.thread
      ensures Reads(Step(s, m), Step(s, m).pcs[j])
    {
      OthersRead(s, m, j);
    }
    hide Replay, Agrees, Step, Rising, Reads, Tallied, LogGain;
  }

  // ----- runs

  ghost predicate LegalRun(s: System, moves: seq<Move>)
    requires Inv(s)
    decreases |moves|
  {
    moves == [] || (Legal(s, moves[0]) && LegalRun(After(s, moves[0]), moves[1..]))
  }

  ghost function After(s: System, m: Move): (t: System)
    requires Inv(s) && Legal(s, m)
    ensures Inv(t)
  {
    StepInv(s, m);
    Step(s, m)
  }

  ghost function Run(s: System, moves: seq<Move>): (t: System)
    requires Inv(s) && LegalRun(s, moves)
    ensures Inv(t)
    decreases |moves|
  {
    if moves == [] then s else Run(After(s, moves[0]), moves[1..])
  }

  lemma {:induction false} RunStart(s: System, moves: seq<Move>)
    requires Inv(s) && LegalRun(s, moves)
    ensures Run(s, moves).start == s.start && |Run(s, moves).pcs| == |s.pcs|
    decreases |moves|
  {
    hide Inv, Step, Legal;
    if moves != [] {
      StepInv(s, moves[0]);
      RunStart(After(s, moves[0]), moves[1..]);
    }
  }

  ghost function Offsets(last: nat, log: seq<nat>): nat
    decreases |log|
  {
    if log == [] then 0 else Offset(log[0], last) + Offsets(log[0], log[1..])
  }

  lemma {:induction false} OffsetsTelescope(last: nat, log: seq<nat>, to: nat)
    requires Rising(last, log, to) && to < WORD
    ensures Offsets(last, log) == (if log == [] then 0 else log[|log| - 1] - last)
    decreases |log|
  {
    if log != [] {
      assert Rising(log[0], log[1..], to);
      OffsetsTelescope(log[0], log[1..], to);
    }
  }

  lemma ReplayLast(t: Time, log: seq<nat>)
    requires t.frequency > 0
    ensures Replay(t, log).last == if log == [] then t.last else log[|log| - 1]
  {
    if log != [] {
      AdvanceParts(Replay(t, log[..|log| - 1]), log[|log| - 1],
                   Offset(log[|log| - 1], Replay(t, log[..|log| - 1]).last));
    }
  }

  /** Whatever the interleaving: at most one thread is between lock and unlock; when
      none is, the lock is free, the clock is what the same updates, one after the
      other, would have made it, and all their gains are accounted; the offsets add up
      to the last reading less the first. */
  lemma Serialised(s: System, t: Time, moves: seq<Move>)
    requires Initial(s, t) && Inv(s) && LegalRun(s, moves)
    ensures var r := Run(s, moves);
            && (forall i, j :: 0 <= i < |r.pcs| && 0 <= j < |r.pcs| && Critical(r.pcs[i]) && Critical(r.pcs[j]) ==> i == j)
            && (r.locked == 0 <==> forall i :: 0 <= i < |r.pcs| ==> !Critical(r.pcs[i]))
            && (r.locked == 0 ==> r.shared == Replay(t, r.log) && r.counted == Nanos(t) + LogGain(t, r.log))
            && Offsets(t.last, r.log) == r.shared.last - t.last
  {
    var r := Run(s, moves);
    RunStart(s, moves);
    OffsetsTelescope(t.last, r.log, r.shared.last);
    ReplayLast(t, r.log);
    hide Replay, LogGain, Carried, Run, LegalRun, Offsets, Rising, Reads;
  }

  // ----- what ktime_get returns

  /** What the two words hold together at one moment is the accounted time in 64 bits,
      except that it is a second short exactly while a carry is between its stores. */
  lemma VisibleIff(s: System)
    requires Inv(s)
    ensures Value(s.shared.sec, s.shared.nsec) ==
            (s.counted - if CarryOpen(OwnerPc(s)) then NSEC_PER_SEC else 0) % WORD
  {
    ValueOfLoads(s.start, s.shared.sec, s.carries, s.shared.nsec, s.counted, s.begun);
  }

  /** ktime_get loads the words at two moments.  Whatever the interleaving, the value is
      the time accounted when tv_nsec was loaded, less one second for each second taken
      from tv_nsec by then and not given to tv_sec when that was loaded, plus one for
      each given and not taken.  It is exact if and only if the two tallies are equal,
      up to a difference of 2^64 nanoseconds.  With tv_sec first it is never ahead, with
      tv_nsec first never more than a second behind. */
  lemma ReadIff(s: System, t: Time, moves: seq<Move>, i: nat)
    requires Initial(s, t) && Inv(s) && LegalRun(s, moves)
    requires i < |Run(s, moves).pcs| && Run(s, moves).pcs[i].Got?
    ensures var g := Run(s, moves).pcs[i];
            && g.value == (g.counted - g.behind * NSEC_PER_SEC) % WORD
            && (-0x1_0000_0000_0000_0000 < g.behind * NSEC_PER_SEC < WORD ==> (g.value == g.counted % WORD <==> g.behind == 0))
            && (if g.secFirst then g.behind >= 0 else g.behind <= 1)
  {
    hide Agrees, Tallied, Ordered, Exclusive, LegalRun, Replay, LogGain;
    var r := Run(s, moves);
    var g := r.pcs[i];
    assert Reads(r, g);
    if -0x1_0000_0000_0000_0000 < g.behind * NSEC_PER_SEC < WORD {
      SecondsApart(g.counted, g.behind);
    }
  }

  lemma SecondsApart(x: int, k: int)
    requires -0x1_0000_0000_0000_0000 < k * NSEC_PER_SEC < WORD
    ensures Same(x - k * NSEC_PER_SEC, x) <==> k == 0
  {}

  // ----- a run in which the clock goes back

  function Moves(m: Move, n: nat): seq<Move> {
    if n == 0 then [] else [m] + Moves(m, n - 1)
  }

  lemma {:induction false} RunConcat(s: System, a: seq<Move>, b: seq<Move>)
    requires Inv(s) && LegalRun(s, a) && LegalRun(Run(s, a), b)
    ensures LegalRun(s, a + b) && Run(s, a + b) == Run(Run(s, a), b)
    decreases |a|
  {
    hide Inv, Step, Legal;
    if a == [] {
      assert a + b == b;
    } else {
      assert (a + b)[0] == a[0] && (a + b)[1..] == a[1..] + b;
      RunConcat(After(s, a[0]), a[1..], b);
    }
  }

  /** n steps with the same input. */
  ghost predicate Leads(s: System, m: Move, n: nat, t: System) {
    Inv(s) && LegalRun(s, Moves(m, n)) && Run(s, Moves(m, n)) == t
  }

  lemma LeadsNone(s: System, m: Move)
    requires Inv(s)
    ensures Leads(s, m, 0, s)
  {}

  lemma {:induction false} MovesConcat(m: Move, a: nat, b: nat)
    ensures Moves(m, a) + Moves(m, b) == Moves(m, a + b)
  {
    if a > 0 {
      MovesConcat(m, a - 1, b);
      assert Moves(m, a) + Moves(m, b) == [m] + (Moves(m, a - 1) + Moves(m, b));
    }
  }

  lemma LeadsConcat(s: System, m: Move, a: nat, u: System, b: nat, t: System)
    requires Leads(s, m, a, u) && Leads(u, m, b, t)
    ensures Leads(s, m, a + b, t)
  {
    hide Inv, Step, Legal;
    RunConcat(s, Moves(m, a), Moves(m, b));
    MovesConcat(m, a, b);
  }

  lemma OneMove(s: System, m: Move)
    requires Inv(s) && Legal(s, m) && s.shared.frequency > 0
    ensures LegalRun(s, [m]) && Run(s, [m]) == Step(s, m)
  {
    hide Inv, Step, Legal;
    assert [m][1..] == [];
  }

  /** One more step. */
  lemma LeadsOn(s: System, m: Move, n: nat, u: System, t: System)
    requires Leads(s, m, n, u) && Legal(u, m) && u.shared.frequency > 0 && Step(u, m) == t
    ensures Leads(s, m, n + 1, t) && Inv(t)
  {
    hide Inv, Step, Legal;
    StepInv(u, m);
    assert Moves(m, 1) == [m];
    OneMove(u, m);
    LeadsConcat(s, m, n, u, 1, t);
  }

  /** A thread that runs alone from the call to the first look at tv_nsec. */
  function Entered(s: System, m: Move): System
    requires m.thread < |s.pcs| && s.shared.frequency > 0
  {
    var ns := Gain(s.shared, m.now);
    WithPc(s, m.thread, Testing).(
      locked := 1, owner := m.thread, counter := m.now, log := s.log + [m.now], counted := s.counted + ns,
      shared := s.shared.(last := m.now, nsec := ToLong(s.shared.nsec + ns)))
  }

  /** The first half of that: up to ts.last. */
  function Entering(s: System, m: Move): System
    requires m.thread < |s.pcs|
  {
    WithPc(s, m.thread, Measuring(m.now)).(locked := 1, owner := m.thread, counter := m.now)
  }

  lemma Enter(s: System, m: Move)
    requires Inv(s) && s.owner == -1 && s.hasClock && m.thread < |s.pcs| && s.pcs[m.thread] == Idle
    requires s.counter <= m.now < WORD && s.shared.frequency > 0
    ensures Leads(s, m, 8, Entered(s, m))
  {
    hide Inv, Gain, ToLong, Offset, CycleToNs, LegalRun, Run, Moves, Leads;
    FrequencyKept(s);
    var i := m.thread;
    var s1 := WithPc(s, i, Trying);
    var s2 := WithPc(s, i, Checking).(locked := 1, owner := i);
    var s3 := WithPc(s2, i, Reading);
    LeadsNone(s, m);
    LeadsOn(s, m, 0, s, s1);
    LeadsOn(s, m, 1, s1, s2);
    LeadsOn(s, m, 2, s2, s3);
    LeadsOn(s, m, 3, s3, Entering(s, m));
    EnterStore(s, m);
    LeadsConcat(s, m, 4, Entering(s, m), 4, Entered(s, m));
  }

  lemma EnterStore(s: System, m: Move)
    requires m.thread < |s.pcs| && s.shared.frequency > 0 && Inv(Entering(s, m))
    ensures Leads(Entering(s, m), m, 4, Entered(s, m))
  {
    hide Inv, Gain, ToLong, Offset, CycleToNs, LegalRun, Run, Moves, Leads;
    var i, ns, offset := m.thread, Gain(s.shared, m.now), Offset(m.now, s.shared.last);
    AdvanceParts(s.shared, m.now, offset);
    var s4 := Entering(s, m);
    var s5 := WithPc(s4, i, Storing(m.now, offset));
    var s6 := WithPc(s4, i, Adding(ns)).(shared := s.shared.(last := m.now), log := s.log + [m.now]);
    var s7 := WithPc(s6, i, PutSum(ToLong(s.shared.nsec + ns), ns));
    LeadsNone(s4, m);
    LeadsOn(s4, m, 0, s4, s5);
    LeadsOn(s4, m, 1, s5, s6);
    LeadsOn(s4, m, 2, s6, s7);
    LeadsOn(s4, m, 3, s7, Entered(s, m));
  }

  /** A call of ktime_get that runs alone, without a carry, up to its second load. */
  function Halfway(s: System, m: Move): System
    requires m.thread < |s.pcs| && s.shared.frequency > 0
  {
    WithPc(Entered(s, m), m.thread, SecLoaded(s.shared.sec, s.carries)).(locked := 0, owner := -1)
  }

  lemma HalfCall(s: System, m: Move)
    requires Inv(s) && s.owner == -1 && s.hasClock && m.thread < |s.pcs| && s.pcs[m.thread] == Idle
    requires s.counter <= m.now < WORD && s.shared.frequency > 0 && m.after == SecFirst
    requires Entered(s, m).shared.nsec < NSEC_PER_SEC
    ensures Leads(s, m, 11, Halfway(s, m)) && Inv(Halfway(s, m))
  {
    hide Inv, Gain, ToLong, Offset, CycleToNs, LegalRun, Run, Moves, Leads;
    var i, e := m.thread, Entered(s, m);
    var e1 := WithPc(e, i, Leaving);
    var e2 := WithPc(e, i, LoadSec).(locked := 0, owner := -1);
    Enter(s, m);
    LeadsOn(s, m, 8, e, e1);
    LeadsOn(s, m, 9, e1, e2);
    LeadsOn(s, m, 10, e2, Halfway(s, m));
  }

  /** An update that runs alone with one carry. */
  function Updated(s: System, m: Move): System
    requires m.thread < |s.pcs| && s.shared.frequency > 0
  {
    var e := Entered(s, m);
    WithPc(e, m.thread, Idle).(
      locked := 0, owner := -1, begun := s.begun + 1, carries := s.carries + 1,
      shared := e.shared.(sec := (s.shared.sec + 1) % WORD, nsec := e.shared.nsec - NSEC_PER_SEC))
  }

  lemma UpdateWithCarry(s: System, m: Move)
    requires Inv(s) && s.owner == -1 && s.hasClock && m.thread < |s.pcs| && s.pcs[m.thread] == Idle
    requires s.counter <= m.now < WORD && s.shared.frequency > 0 && m.after == Return
    requires NSEC_PER_SEC <= Entered(s, m).shared.nsec < 2 * NSEC_PER_SEC
    ensures Leads(s, m, 15, Updated(s, m)) && Inv(Updated(s, m))
  {
    hide Inv, Gain, ToLong, Offset, CycleToNs, LegalRun, Run, Moves, Leads;
    var i, e, u := m.thread, Entered(s, m), Updated(s, m);
    var rest := e.shared.nsec - NSEC_PER_SEC;
    var e1 := WithPc(e, i, Taking);
    var e2 := WithPc(e, i, PutRest(rest));
    var e3 := WithPc(e, i, Carrying).(shared := e.shared.(nsec := rest), begun := s.begun + 1);
    var e4 := WithPc(e3, i, PutSec((s.shared.sec + 1) % WORD));
    var e5 := WithPc(u, i, Testing).(locked := 1, owner := i);
    var e6 := WithPc(e5, i, Leaving);
    Enter(s, m);
    LeadsOn(s, m, 8, e, e1);
    LeadsOn(s, m, 9, e1, e2);
    LeadsOn(s, m, 10, e2, e3);
    LeadsOn(s, m, 11, e3, e4);
    LeadsOn(s, m, 12, e4, e5);
    LeadsOn(s, m, 13, e5, e6);
    LeadsOn(s, m, 14, e6, u);
  }

  /** At 1 GHz, one nanosecond before a full second, two threads outside. */
  function Eve(): System {
    var t := Time(NSEC_PER_SEC, 0, 0, 999_999_999);
    System(0, true, t, 0, [Idle, Idle], t, [], -1, 999_999_999, 0, 0)
  }

  const READER: Move := Move(0, 0, SecFirst)
  const UPDATER: Move := Move(1, 1, Return)

  /** The reader has called once, and returned. */
  function Once(): System {
    var t := Time(NSEC_PER_SEC, 0, 0, 999_999_999);
    System(0, true, t, 0, [Got(999_999_999, 999_999_999, 0, true), Idle], t, [0], -1, 999_999_999, 0, 0)
  }

  /** It has called again and loaded tv_sec. */
  function Again(): System {
    var t := Time(NSEC_PER_SEC, 0, 0, 999_999_999);
    System(0, true, t, 0, [SecLoaded(0, 0), Idle], t, [0, 0], -1, 999_999_999, 0, 0)
  }

  /** The other thread has updated the time in between, and is outside. */
  function Between(): System {
    Again().(counter := 1, shared := Time(NSEC_PER_SEC, 1, 1, 0), log := [0, 0, 1], counted := NSEC_PER_SEC,
             begun := 1, carries := 1)
  }

  function Twice(): System {
    WithPc(Between(), 0, Got(0, NSEC_PER_SEC, 1, true))
  }

  /** At 1 GHz a cycle is a nanosecond. */
  lemma NanosecondGains(t: Time, now: nat)
    requires t.frequency == NSEC_PER_SEC && t.last <= now <= t.last + 1
    ensures Gain(t, now) == now - t.last
  {
    assert Offset(now, t.last) == now - t.last;
  }

  lemma SmallLong(x: nat)
    requires x <= NSEC_PER_SEC
    ensures ToLong(x) == x
  {}

  lemma FirstCall()
    ensures Initial(Eve(), Eve().start) && Leads(Eve(), READER, 12, Once()) && Inv(Once())
  {
    hide Gain, ToLong, Offset, CycleToNs, LegalRun, Run, Moves, Leads;
    InitialInv(Eve(), Eve().start);
    hide Inv;
    NanosecondGains(Eve().shared, 0);
    SmallLong(999_999_999);
    HalfCall(Eve(), READER);
    LeadsOn(Eve(), READER, 11, Halfway(Eve(), READER), Once());
  }

  lemma SecondCall()
    requires Inv(Once())
    ensures Leads(Once(), READER, 12, Again()) && Inv(Again())
  {
    hide Inv, Gain, ToLong, Offset, CycleToNs, LegalRun, Run, Moves, Leads;
    var back := WithPc(Once(), 0, Idle);
    NanosecondGains(back.shared, 0);
    SmallLong(999_999_999);
    LeadsNone(Once(), READER);
    LeadsOn(Once(), READER, 0, Once(), back);
    HalfCall(back, READER);
    assert Halfway(back, READER) == Again();
    LeadsConcat(Once(), READER, 1, back, 11, Again());
  }

  lemma UpdateBetween()
    requires Inv(Again())
    ensures Leads(Again(), UPDATER, 15, Between()) && Inv(Between())
  {
    hide Inv, Gain, ToLong, Offset, CycleToNs, LegalRun, Run, Moves, Leads;
    NanosecondGains(Again().shared, 1);
    SmallLong(NSEC_PER_SEC);
    UpdateWithCarry(Again(), UPDATER);
    assert Updated(Again(), UPDATER) == Between();
  }

  /** From the start the first call returns 999999999, and the second, which begins
      after that, 0. */
  lemma GoesBack()
    ensures Initial(Eve(), Eve().start) && Leads(Eve(), READER, 12, Once())
    ensures Leads(Once(), READER, 12, Again()) && Leads(Again(), UPDATER, 15, Between())
    ensures Leads(Between(), READER, 1, Twice())
    ensures Twice().locked == 0 && Twice().pcs[0].value < Once().pcs[0].value
  {
    hide Inv, Initial, LegalRun, Run, Moves, Leads;
    FirstCall();
    SecondCall();
    UpdateBetween();
    LeadsNone(Between(), READER);
    LeadsOn(Between(), READER, 0, Between(), Twice());
  }
}
