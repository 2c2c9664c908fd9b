/** The round-robin queue of tm/sched.c as a function of its state: the threads on
    the ring in order, and the cursor. */
module Ring {
  import opened Sequences

  /** rq->current: nothing yet, a thread of the ring, or the idle thread, which is
      on no ring. */
  datatype Cursor<T> = Nobody | On(t: T) | Idle

  datatype Queue<T> = Queue(ring: seq<T>, current: Cursor<T>)

  function Pos<T(==)>(s: seq<T>, t: T): (i: nat)
    requires t in s
    ensures i < |s| && s[i] == t
  {
    if s[0] == t then 0 else 1 + Pos(s[1..], t)
  }

  lemma PosIs<T>(s: seq<T>, i: nat)
    requires Distinct(s) && i < |s|
    ensures Pos(s, s[i]) == i
  {}

  ghost predicate Inv<T>(q: Queue<T>) {
    Distinct(q.ring) && (q.current.On? ==> q.current.t in q.ring)
  }

  /** A tick with the cursor on the idle thread and threads on the ring would follow
      the idle thread's own link. */
  predicate Safe<T>(q: Queue<T>) {
    q.current.Idle? ==> q.ring == []
  }

  /** runqueue_next */
  function Next<T(==)>(q: Queue<T>): Queue<T>
    requires Safe(q) && (q.current.On? ==> q.current.t in q.ring)
  {
    if q.ring == [] then q.(current := Idle)
    else if q.current.Nobody? then q.(current := On(q.ring[0]))
    else
      var i := Pos(q.ring, q.current.t) + 1;
      q.(current := On(q.ring[if i < |q.ring| then i else 0]))
  }

  /** runqueue_insert */
  function Insert<T>(q: Queue<T>, t: T): Queue<T> {
    q.(ring := [t] + q.ring)
  }

  function Without<T(==)>(s: seq<T>, t: T): seq<T>
    requires t in s
  {
    s[..Pos(s, t)] + s[Pos(s, t) + 1..]
  }

  /** runqueue_remove */
  function Remove<T(==)>(q: Queue<T>, t: T): Queue<T>
    requires t in q.ring
  {
    Queue(Without(q.ring, t), if q.current == On(t) then Nobody else q.current)
  }

  lemma PosesDiffer<T>(s: seq<T>, x: T, t: T)
    requires x in s && t in s && x != t
    ensures Pos(s, x) != Pos(s, t) && Pos(s, x) < |s| && Pos(s, t) < |s|
  {}

  lemma InsertPos<T>(s: seq<T>, x: T, t: T)
    requires Distinct(s) && x !in s
    ensures Distinct([x] + s) && Pos([x] + s, x) == 0
    ensures t in s ==> Pos([x] + s, t) == Pos(s, t) + 1
  {
    assert ([x] + s)[1..] == s;
  }

  lemma WithoutPos<T>(s: seq<T>, x: T, t: T)
    requires Distinct(s) && x in s
    ensures Distinct(Without(s, x)) && x !in Without(s, x) && |Without(s, x)| == |s| - 1
    ensures t in Without(s, x) <==> t in s && t != x
    ensures t in s && t != x ==> Pos(Without(s, x), t) == Pos(s, t) - if Pos(s, t) > Pos(s, x) then 1 else 0
  {
    var r, k := Without(s, x), Pos(s, x);
    assert forall i :: 0 <= i < |r| ==> r[i] == s[if i < k then i else i + 1];
    if t in s && t != x {
      var i := Pos(s, t);
      var j := if i > k then i - 1 else i;
      assert r[j] == t;
      PosIs(r, j);
    }
  }

  lemma NextInv<T>(q: Queue<T>)
    requires Inv(q) && Safe(q)
    ensures Inv(Next(q)) && Next(q).ring == q.ring
  {}

  lemma InsertInv<T>(q: Queue<T>, x: T)
    requires Inv(q) && x !in q.ring
    ensures Inv(Insert(q, x))
  {
    InsertPos(q.ring, x, x);
  }

  lemma RemoveInv<T>(q: Queue<T>, x: T)
    requires Inv(q) && x in q.ring
    ensures Inv(Remove(q, x))
  {
    WithoutPos(q.ring, x, x);
    if q.current.On? {
      WithoutPos(q.ring, x, q.current.t);
    }
  }

  // ----- how long a thread waits

  function Cur<T(==)>(q: Queue<T>): int
    requires q.current.On? ==> q.current.t in q.ring
  {
    if q.current.On? then Pos(q.ring, q.current.t) else -1
  }

  /** The number of ticks until t runs. */
  function Wait<T(==)>(q: Queue<T>, t: T): (w: nat)
    requires (q.current.On? ==> q.current.t in q.ring) && t in q.ring
    ensures 1 <= w <= |q.ring|
  {
    var i, c := Pos(q.ring, t), Cur(q);
    if i > c then i - c else i - c + |q.ring|
  }

  lemma TickWait<T>(q: Queue<T>, t: T)
    requires Inv(q) && Safe(q) && t in q.ring
    ensures Next(q).current == On(t) <==> Wait(q, t) == 1
    ensures Wait(q, t) > 1 ==> Wait(Next(q), t) == Wait(q, t) - 1
    ensures Wait(q, t) == 1 ==> Wait(Next(q), t) == |q.ring|
  {
    var c := Cur(q);
    PosIs(q.ring, if c + 1 < |q.ring| then c + 1 else 0);
    PosIs(q.ring, Pos(q.ring, t));
  }

  /** A newcomer delays a thread by at most one tick: exactly those still to come
      after the cursor has passed the head. */
  lemma InsertWait<T>(q: Queue<T>, x: T, t: T)
    requires Inv(q) && x !in q.ring && t in q.ring
    ensures Wait(Insert(q, x), t) == Wait(q, t) + if q.current.On? && Pos(q.ring, t) > Cur(q) then 0 else 1
  {
    InsertPos(q.ring, x, t);
    if q.current.On? {
      InsertPos(q.ring, x, q.current.t);
    }
  }

  /** Taking another thread off the ring never delays a thread, as long as the one
      taken off is not the current one. */
  lemma RemoveWait<T>(q: Queue<T>, x: T, t: T)
    requires Inv(q) && x in q.ring && t in q.ring && t != x && q.current != On(x)
    ensures t in Remove(q, x).ring && Inv(Remove(q, x))
    ensures Wait(Remove(q, x), t) == Wait(q, t) - if Wait(q, x) < Wait(q, t) then 1 else 0
  {
    hide Without, Distinct, Pos;
    RemoveInv(q, x);
    WithoutPos(q.ring, x, t);
    PosesDiffer(q.ring, x, t);
    if q.current.On? {
      WithoutPos(q.ring, x, q.current.t);
      PosesDiffer(q.ring, x, q.current.t);
    }
  }

  /** Taking the current thread off sends the cursor back to the head of the ring:
      exactly the threads behind it are delayed, by its distance from the head. */
  lemma RemoveCurrentWait<T>(q: Queue<T>, x: T, t: T)
    requires Inv(q) && q.current == On(x) && t in q.ring && t != x
    ensures t in Remove(q, x).ring && Inv(Remove(q, x))
    ensures Wait(Remove(q, x), t) > Wait(q, t) <==> 0 < Pos(q.ring, x) < Pos(q.ring, t)
  {
    RemoveInv(q, x);
    WithoutPos(q.ring, x, t);
  }

  // ----- runs

  datatype Op<T> = Add(t: T) | Drop(t: T) | Tick

  ghost predicate Legal<T>(q: Queue<T>, op: Op<T>) {
    match op
    case Add(t) => t !in q.ring
    case Drop(t) => t in q.ring
    case Tick => Safe(q)
  }

  ghost function Step<T>(q: Queue<T>, op: Op<T>): (r: Queue<T>)
    requires Inv(q) && Legal(q, op)
    ensures Inv(r)
  {
    match op
    case Add(t) => InsertInv(q, t); Insert(q, t)
    case Drop(t) => RemoveInv(q, t); Remove(q, t)
    case Tick => NextInv(q); Next(q)
  }

  ghost predicate LegalRun<T>(q: Queue<T>, ops: seq<Op<T>>)
    requires Inv(q)
    decreases |ops|
  {
    ops == [] || (Legal(q, ops[0]) && LegalRun(Step(q, ops[0]), ops[1..]))
  }

  ghost function Run<T>(q: Queue<T>, ops: seq<Op<T>>): (r: Queue<T>)
    requires Inv(q) && LegalRun(q, ops)
    ensures Inv(r)
    decreases |ops|
  {
    if ops == [] then q else Run(Step(q, ops[0]), ops[1..])
  }

  /** What runqueue_next returned, tick by tick. */
  ghost function Scheduled<T>(q: Queue<T>, ops: seq<Op<T>>): seq<Cursor<T>>
    requires Inv(q) && LegalRun(q, ops)
    decreases |ops|
  {
    if ops == [] then []
    else (if ops[0].Tick? then [Next(q).current] else []) + Scheduled(Step(q, ops[0]), ops[1..])
  }

  lemma FirstOp<T>(q: Queue<T>, op: Op<T>, rest: seq<Op<T>>)
    requires Inv(q) && Legal(q, op)
    ensures LegalRun(q, [op] + rest) <==> LegalRun(Step(q, op), rest)
    ensures LegalRun(q, [op] + rest) ==>
              && Run(q, [op] + rest) == Run(Step(q, op), rest)
              && Scheduled(q, [op] + rest) == (if op.Tick? then [Next(q).current] else []) + Scheduled(Step(q, op), rest)
  {
    assert ([op] + rest)[1..] == rest;
  }

  function Count<T>(ops: seq<Op<T>>, ticks: bool): nat
    decreases |ops|
  {
    if ops == [] then 0
    else (if (if ticks then ops[0].Tick? else ops[0].Add?) then 1 else 0) + Count(ops[1..], ticks)
  }

  /** The thread to go is the current one, not the first on the ring, and before t. */
  predicate Delays<T(==)>(q: Queue<T>, x: T, t: T) {
    q.current == On(x) && x in q.ring && t in q.ring && 0 < Pos(q.ring, x) < Pos(q.ring, t)
  }

  /** No step takes t off the ring, nor a current thread whose going would delay t. */
  ghost predicate Undisturbed<T>(q: Queue<T>, ops: seq<Op<T>>, t: T)
    requires Inv(q) && LegalRun(q, ops)
    decreases |ops|
  {
    ops == [] || ((ops[0].Drop? ==> ops[0].t != t && !Delays(q, ops[0].t, t))
                  && Undisturbed(Step(q, ops[0]), ops[1..], t))
  }

  /** Fairness: a thread has run by the time the ticks outnumber its wait and the
      newcomers. */
  lemma {:induction false} Fair<T>(q: Queue<T>, ops: seq<Op<T>>, t: T)
    requires Inv(q) && t in q.ring && LegalRun(q, ops) && Undisturbed(q, ops, t)
    requires Count(ops, true) >= Wait(q, t) + Count(ops, false)
    ensures On(t) in Scheduled(q, ops)
    decreases |ops|
  {
    match ops[0]
    case Add(x) =>
      InsertWait(q, x, t);
      Fair(Step(q, ops[0]), ops[1..], t);
    case Drop(x) =>
      if q.current == On(x) {
        RemoveCurrentWait(q, x, t);
      } else {
        RemoveWait(q, x, t);
      }
      Fair(Step(q, ops[0]), ops[1..], t);
    case Tick =>
      TickWait(q, t);
      if Wait(q, t) > 1 {
        Fair(Step(q, ops[0]), ops[1..], t);
      }
  }

  function Ticks<T>(n: nat): seq<Op<T>> {
    seq(n, _ => Tick)
  }

  /** The ring in order from the thread after the cursor. */
  ghost function Turn<T>(q: Queue<T>): (r: seq<T>)
    requires Inv(q)
    ensures |r| == |q.ring|
  {
    q.ring[Cur(q) + 1..] + q.ring[..Cur(q) + 1]
  }

  lemma TurnNext<T>(q: Queue<T>)
    requires Inv(q) && Safe(q) && q.ring != []
    ensures Next(q).current == On(Turn(q)[0])
    ensures Inv(Next(q)) && Turn(Next(q)) == Turn(q)[1..] + Turn(q)[..1]
  {
    var c := if Cur(q) + 1 < |q.ring| then Cur(q) + 1 else 0;
    PosIs(q.ring, c);
    hide Distinct, Pos;
  }

  /** With no thread added or dropped, the ticks run the threads one after another in
      ring order, so that n ticks on a ring of n threads run each of them once and
      bring the cursor back. */
  lemma {:induction false} FullTurn<T>(q: Queue<T>, n: nat)
    requires Inv(q) && Safe(q) && n <= |q.ring|
    ensures LegalRun(q, Ticks(n)) && |Scheduled(q, Ticks(n))| == n
    ensures forall k :: 0 <= k < n ==> Scheduled(q, Ticks(n))[k] == On(Turn(q)[k])
    ensures Run(q, Ticks(n)) == if n == 0 then q else Queue(q.ring, On(Turn(q)[n - 1]))
    decreases n
  {
    hide Turn, Cur, Pos, Distinct, Ticks, Next;
    if n == 0 {
      NoTicks<T>();
    } else {
      FirstTick<T>(n);
      TurnNext(q);
      NextInv(q);
      FirstOp(q, Tick, Ticks(n - 1));
      NextSafe(q);
      hide LegalRun, Scheduled, Run, Safe;
      FullTurn(Next(q), n - 1);
    }
  }

  lemma NextSafe<T>(q: Queue<T>)
    requires Inv(q) && Safe(q)
    ensures Safe(Next(q))
  {}

  lemma NoTicks<T>()
    ensures Ticks<T>(0) == []
  {}

  lemma FirstTick<T>(n: nat)
    requires n > 0
    ensures Ticks<T>(n) == [Tick] + Ticks(n - 1)
  {}

  lemma BackToStart<T>(q: Queue<T>)
    requires Inv(q) && q.current.On?
    ensures LegalRun(q, Ticks(|q.ring|)) && Run(q, Ticks(|q.ring|)) == q
    ensures Distinct(Turn(q)) && (forall t :: t in q.ring ==> t in Turn(q))
  {
    FullTurn(q, |q.ring|);
    RotationDistinct(q.ring, Cur(q) + 1);
  }

  lemma RotationDistinct<T>(r: seq<T>, c: nat)
    requires Distinct(r) && c <= |r|
    ensures Distinct(r[c..] + r[..c]) && (forall t :: t in r ==> t in r[c..] + r[..c])
  {
    assert r == r[..c] + r[c..];
  }

  /** The state after a thread was dropped, added again and chosen by the tick. */
  ghost function Yielded<T>(q: Queue<T>, x: T): (r: Queue<T>)
    requires Inv(q) && x in q.ring
    ensures Inv(r) && r.current == On(x)
    ensures forall t :: t in q.ring ==> t in r.ring
  {
    assert forall t :: t in q.ring && t != x ==> t in Without(q.ring, x) by {
      WithoutKeeps(q.ring, x);
    }
    WithoutPos(q.ring, x, x);
    InsertPos(Without(q.ring, x), x, x);
    Queue([x] + Without(q.ring, x), On(x))
  }

  lemma WithoutKeeps<T>(s: seq<T>, x: T)
    requires Distinct(s) && x in s
    ensures forall t :: t in s && t != x ==> t in Without(s, x)
  {
    forall t | t in s && t != x
      ensures t in Without(s, x)
    {
      WithoutPos(s, x, t);
    }
  }

  lemma OneYield<T>(q: Queue<T>, x: T, rest: seq<Op<T>>)
    requires Inv(q) && q.current == On(x) && LegalRun(Yielded(q, x), rest)
    ensures var ops := [Drop(x), Add(x), Tick] + rest;
            && LegalRun(q, ops) && Run(q, ops) == Run(Yielded(q, x), rest)
            && Scheduled(q, ops) == [On(x)] + Scheduled(Yielded(q, x), rest)
  {
    WithoutPos(q.ring, x, x);
    var dropped := Step(q, Drop(x));
    var added := Step(dropped, Add(x));
    assert Step(added, Tick) == Yielded(q, x);
    hide Without, Distinct, Scheduled, Run, LegalRun, Yielded, Inv;
    FirstOp(added, Tick, rest);
    FirstOp(dropped, Add(x), [Tick] + rest);
    FirstOp(q, Drop(x), [Add(x)] + ([Tick] + rest));
    assert [Drop(x), Add(x), Tick] + rest == [Drop(x)] + ([Add(x)] + ([Tick] + rest));
  }

  /** A thread that is dropped and added again while it runs is chosen again at every
      tick: no other thread runs. */
  lemma {:induction false} Starves<T>(q: Queue<T>, x: T, n: nat)
    requires Inv(q) && q.current == On(x)
    ensures LegalRun(q, Yields(x, n)) && Run(q, Yields(x, n)).current == On(x)
    ensures forall c :: c in Scheduled(q, Yields(x, n)) ==> c == On(x)
    ensures forall t :: t in q.ring ==> t in Run(q, Yields(x, n)).ring
    decreases n
  {
    if n > 0 {
      hide Without, Distinct, Next;
      Starves(Yielded(q, x), x, n - 1);
      OneYield(q, x, Yields(x, n - 1));
      hide Scheduled, Run, LegalRun, Yielded;
    }
  }

  function Yields<T>(x: T, n: nat): seq<Op<T>> {
    if n == 0 then [] else [Drop(x), Add(x), Tick] + Yields(x, n - 1)
  }

  /** Once a tick has found the ring empty the cursor never leaves the idle thread. */
  lemma {:induction false} IdleForever<T>(q: Queue<T>, ops: seq<Op<T>>)
    requires Inv(q) && q.current.Idle? && LegalRun(q, ops)
    ensures Run(q, ops).current.Idle? && (Legal(Run(q, ops), Tick) <==> Run(q, ops).ring == [])
    decreases |ops|
  {
    if ops != [] {
      IdleForever(Step(q, ops[0]), ops[1..]);
    }
  }

  // ----- examples

  /** Dropping the current thread, which is not first, puts off the thread behind it. */
  lemma DropDelays()
    ensures var q := Queue([0, 1, 2], On(1));
            Inv(q) && Wait(q, 2) == 1 && Wait(Remove(q, 1), 2) == 2
  {
    var q := Queue([0, 1, 2], On(1));
    PosIs(q.ring, 1);
    PosIs(q.ring, 2);
    assert Without(q.ring, 1) == [0, 2];
    PosIs([0, 2], 1);
  }

  /** A tick on an empty ring, then a newcomer: the next tick is not safe. */
  lemma TickThenAdd()
    ensures var q, ops := Queue([], Nobody), [Tick, Add(0)];
            Inv(q) && LegalRun(q, ops) && !Legal(Run(q, ops), Tick)
  {
    var q := Queue([], Nobody);
    FirstOp(q, Tick, [Add(0)]);
    FirstOp(Next(q), Add(0), []);
    assert [Tick, Add(0)] == [Tick] + [Add(0)] && [Add(0)] == [Add(0)] + [];
  }
}
