/** The intrusive circular lists of include/lib/list.h. */
module Lists {
  import opened Sequences

  /** struct list_element */
  class Element {
    var next: Element?
    var prev: Element?

    constructor ()
      ensures next == null && prev == null
    {
      next, prev := null, null;
    }
  }

  ghost predicate Joined(a: Element, b: Element)
    reads a, b
  {
    a.next == b && b.prev == a
  }

  /** nodes is the circle that starts at the list head. */
  ghost predicate Circle(nodes: seq<Element>)
    reads nodes
  {
    && nodes != [] && Distinct(nodes) && Joined(nodes[|nodes| - 1], nodes[0])
    && forall i, j :: 0 <= i && j == i + 1 && j < |nodes| ==> Joined(nodes[i], nodes[j])
  }

  function After(k: nat, n: nat): nat {
    if k + 1 < n then k + 1 else 0
  }

  function Before(k: nat, n: nat): int {
    if k > 0 then k - 1 else n - 1
  }

  lemma Neighbours(nodes: seq<Element>, k: nat)
    requires Circle(nodes) && k < |nodes|
    ensures nodes[k].next == nodes[After(k, |nodes|)] && nodes[k].prev == nodes[Before(k, |nodes|)]
  {
    assert Joined(nodes[k], nodes[After(k, |nodes|)]);
    assert Joined(nodes[Before(k, |nodes|)], nodes[k]);
  }

  /** list_runtime_init */
  method Init(list: Element)
    modifies list
    ensures Circle([list])
  {
    list.next := list;
    list.prev := list;
  }

  /** list_add: the element becomes the first one. */
  method Add(list: Element, element: Element, ghost nodes: seq<Element>)
    requires Circle(nodes) && nodes[0] == list && element !in nodes
    modifies list, list.next, element
    ensures Circle([list, element] + nodes[1..])
  {
    ghost var nodes', n := [list, element] + nodes[1..], |nodes|;
    Neighbours(nodes, 0);
    Neighbours(nodes, n - 1);
    forall i, j | 0 <= i && j == i + 1 && j < n
      ensures nodes[i].next == nodes[j] && nodes[j].prev == nodes[i]
    {
      assert Joined(nodes[i], nodes[j]);
    }
    element.next := list.next;
    element.prev := list;
    list.next.prev := element;
    list.next := element;
  }

  /** list_add_tail: the element becomes the last one. */
  method AddTail(list: Element, element: Element, ghost nodes: seq<Element>)
    requires Circle(nodes) && nodes[0] == list && element !in nodes
    modifies list, list.prev, element
    ensures Circle(nodes + [element])
  {
    ghost var n := |nodes|;
    Neighbours(nodes, 0);
    Neighbours(nodes, n - 1);
    forall i, j | 0 <= i && j == i + 1 && j < n
      ensures nodes[i].next == nodes[j] && nodes[j].prev == nodes[i]
    {
      assert Joined(nodes[i], nodes[j]);
    }
    element.next := list;
    element.prev := list.prev;
    list.prev.next := element;
    list.prev := element;
  }

  lemma DistinctWithout(nodes: seq<Element>, k: nat)
    requires Distinct(nodes) && k < |nodes|
    ensures Distinct(nodes[..k] + nodes[k + 1..]) && nodes[k] !in nodes[..k] + nodes[k + 1..]
  {}

  /** list_delete */
  method Delete(element: Element, ghost nodes: seq<Element>, ghost k: nat)
    requires Circle(nodes) && 0 < k < |nodes| && nodes[k] == element
    modifies element, element.next, element.prev
    ensures Circle(nodes[..k] + nodes[k + 1..])
    ensures element.next == null && element.prev == null
  {
    ghost var n, nodes' := |nodes|, nodes[..k] + nodes[k + 1..];
    DistinctWithout(nodes, k);
    Neighbours(nodes, k);
    Neighbours(nodes, Before(k, n));
    Neighbours(nodes, After(k, n));
    Neighbours(nodes, 0);
    forall i, j | 0 <= i && j == i + 1 && j < n
      ensures nodes[i].next == nodes[j] && nodes[j].prev == nodes[i]
    {
      assert Joined(nodes[i], nodes[j]);
    }
    element.next.prev := element.prev;
    element.prev.next := element.next;
    element.next := null;
    element.prev := null;
  }

  /** list_empty */
  predicate Empty(list: Element)
    reads list
  {
    list.next == list
  }

  lemma EmptyIff(list: Element, nodes: seq<Element>)
    requires Circle(nodes) && nodes[0] == list
    ensures Empty(list) <==> |nodes| == 1
  {
    if |nodes| > 1 {
      assert Joined(nodes[0], nodes[1]);
    }
  }
}
