/** The run queue of tm/sched.c.  A thread is named by its runqueue_list element:
    containerof leads from the one to the other and back. */
module RunQueue {
  import Ring
  import opened Lists
  import opened Sequences

  /** struct runqueue */
  class RunQueue {
    const runnable: Element
    const idle: Element
    var current: Element?
    var numThreads: nat
    ghost var ring: seq<Element>

    ghost predicate Valid()
      reads this, runnable, ring
    {
      && Circle([runnable] + ring) && numThreads == |ring|
      && idle != runnable && idle !in ring
      && (current != null && current != idle ==> current in ring)
    }

    ghost function View(): Ring.Queue<Element>
      reads this
    {
      Ring.Queue(ring,
                 if current == null then Ring.Nobody
                 else if current == idle then Ring.Idle
                 else var t: Element := current; Ring.On(t))
    }

    lemma ValidInv()
      requires Valid()
      ensures Ring.Inv(View())
    {
      var nodes := [runnable] + ring;
      assert forall i :: 0 <= i < |ring| ==> ring[i] == nodes[i + 1];
    }

    /** sched_init, with the idle thread given. */
    constructor (idle: Element)
      ensures Valid() && fresh(runnable) && this.idle == idle
      ensures View() == Ring.Queue([], Ring.Nobody)
    {
      this.idle := idle;
      runnable := new Element();
      current := null;
      numThreads := 0;
      ring := [];
      new;
      Lists.Init(runnable);
      assert [runnable] + ring == [runnable];
    }

    /** runqueue_insert */
    method Insert(thread: Element)
      requires Valid() && thread !in ring && thread != runnable && thread != idle
      modifies this, runnable, runnable.next, thread
      ensures Valid() && numThreads == old(numThreads) + 1
      ensures View() == Ring.Insert(old(View()), thread)
      ensures ring == [thread] + old(ring) && current == old(current)
    {
      ghost var nodes := [runnable] + ring;
      Lists.Add(runnable, thread, nodes);
      ring := [thread] + ring;
      assert [runnable] + ring == [runnable, thread] + nodes[1..];
      numThreads := numThreads + 1;
    }

    /** runqueue_remove */
    method Remove(thread: Element)
      requires Valid() && thread in ring
      modifies this, thread, thread.next, thread.prev
      ensures Valid() && numThreads == old(numThreads) - 1
      ensures View() == Ring.Remove(old(View()), thread)
      ensures thread.next == null && thread.prev == null
    {
      hide Circle, Ring.Without, Distinct;
      ValidInv();
      WithoutHead(thread);
      WithoutRest(thread);
      ghost var k := Ring.Pos(ring, thread);
      if thread == current {
        current := null;
      }
      Lists.Delete(thread, [runnable] + ring, k + 1);
      ring := Ring.Without(ring, thread);
      numThreads := numThreads - 1;
    }

    lemma WithoutHead(thread: Element)
      requires Ring.Inv(View()) && thread in ring
      ensures var nodes, k := [runnable] + ring, Ring.Pos(ring, thread);
              && nodes[k + 1] == thread
              && [runnable] + Ring.Without(ring, thread) == nodes[..k + 1] + nodes[k + 2..]
    {
      hide Distinct, Ring.Pos;
    }

    lemma WithoutRest(thread: Element)
      requires Ring.Inv(View()) && thread in ring
      ensures |Ring.Without(ring, thread)| == |ring| - 1
      ensures idle !in ring ==> idle !in Ring.Without(ring, thread)
      ensures current in ring && current != thread ==> current in Ring.Without(ring, thread)
    {
      hide Ring.Without, Distinct;
      Ring.WithoutPos(ring, thread, idle);
      if current in ring {
        var c: Element := current;
        Ring.WithoutPos(ring, thread, c);
      }
    }

    /** runqueue_next */
    method Next() returns (thread: Element?)
      requires Valid() && Ring.Safe(View())
      modifies `current
      ensures Valid() && View() == Ring.Next(old(View())) && thread == current
    {
      ValidInv();
      ghost var nodes := [runnable] + ring;
      EmptyIff(runnable, nodes);
      Neighbours(nodes, 0);
      if Lists.Empty(runnable) {
        current := idle;
      } else {
        if current != null {
          ghost var k := Ring.Pos(ring, current);
          Neighbours(nodes, k + 1);
          current := current.next;
          if current == runnable {
            current := current.next;
          }
        } else {
          current := runnable.next;
        }
      }
      thread := current;
    }
  }
}
