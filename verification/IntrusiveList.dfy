/**
 * The list macros of `list.h`: a doubly linked list without a separate head element, in which the first element's
 * `prev` points to the last one and the last element's `next` is null.
 */
module IntrusiveList {

  class Node<T> {
    const data: T
    var next: Node?<T>
    var prev: Node?<T>

    constructor (data: T)
      ensures this.data == data
    {
      this.data := data;
      next, prev := null, null;
    }
  }

  /** The values of the elements, in list order. */
  function Values<T>(nodes: seq<Node<T>>): (r: seq<T>)
    ensures |r| == |nodes| && forall i | 0 <= i < |r| :: r[i] == nodes[i].data
  {
    seq(|nodes|, i requires 0 <= i < |nodes| => nodes[i].data)
  }

  /** The element behind position `i`, null behind the last. */
  function After<T>(nodes: seq<Node<T>>, i: nat): Node?<T>
    requires i < |nodes|
  {
    if i + 1 < |nodes| then nodes[i + 1] else null
  }

  /** The element before position `i`, cyclically. */
  function Before<T>(nodes: seq<Node<T>>, i: nat): Node<T>
    requires i < |nodes|
  {
    if i > 0 then nodes[i - 1] else nodes[|nodes| - 1]
  }

  /** The elements a loop keeps that unlinks those whose value satisfies `drop`. */
  ghost function Kept<T>(nodes: seq<Node<T>>, drop: T -> bool): (r: seq<Node<T>>)
    ensures |r| <= |nodes| && forall n <- r :: n in nodes
  {
    if nodes == [] then []
    else
      var last := nodes[|nodes| - 1];
      Kept(nodes[..|nodes| - 1], drop) + if drop(last.data) then [] else [last]
  }

  lemma KeptNone<T>(nodes: seq<Node<T>>, drop: T -> bool)
    ensures Kept(nodes[..0], drop) == [] && nodes[0..] == nodes
  {
  }

  lemma KeptStep<T>(nodes: seq<Node<T>>, i: nat, drop: T -> bool)
    requires i < |nodes|
    ensures Kept(nodes[..i + 1], drop) == Kept(nodes[..i], drop) + if drop(nodes[i].data) then [] else [nodes[i]]
  {
    assert nodes[..i + 1][..i] == nodes[..i];
  }

  ghost predicate Distinct<T>(nodes: seq<Node<T>>) {
    forall i, j | 0 <= i < j < |nodes| :: nodes[i] != nodes[j]
  }

  ghost predicate Forward<T>(nodes: seq<Node<T>>)
    reads nodes
  {
    forall i | 0 <= i < |nodes| :: nodes[i].next == After(nodes, i)
  }

  ghost predicate Backward<T>(nodes: seq<Node<T>>)
    reads nodes
  {
    forall i | 0 <= i < |nodes| :: nodes[i].prev == Before(nodes, i)
  }

  /** The forward links of the list without element `k`, whose predecessor points past it. */
  lemma ForwardWithout<T>(was: seq<Node<T>>, k: nat)
    requires k < |was|
    requires forall j | 0 <= j < |was| && j != k - 1 :: was[j].next == After(was, j)
    requires k > 0 ==> was[k - 1].next == After(was, k)
    ensures Forward(was[..k] + was[k + 1..])
  {
    var now := was[..k] + was[k + 1..];
    forall i | 0 <= i < |now|
      ensures now[i].next == After(now, i)
    {
      assert now[i] == was[if i < k then i else i + 1];
    }
  }

  /** The backward links, once the element behind `k`, or else the first one, points before it. */
  lemma BackwardWithout<T>(was: seq<Node<T>>, k: nat, moved: nat)
    requires k < |was| && moved == if k < |was| - 1 then k + 1 else 0
    requires forall j | 0 <= j < |was| && j != moved :: was[j].prev == Before(was, j)
    requires was[moved].prev == Before(was, k)
    ensures Backward(was[..k] + was[k + 1..])
  {
    var now := was[..k] + was[k + 1..];
    forall i | 0 <= i < |now|
      ensures now[i].prev == Before(now, i)
    {
      var j := if i < k then i else i + 1;
      assert now[i] == was[j];
      assert was[j].prev == if j == moved then Before(was, k) else Before(was, j);
    }
  }

  lemma DistinctWithout<T>(was: seq<Node<T>>, k: nat)
    requires k < |was| && Distinct(was)
    ensures Distinct(was[..k] + was[k + 1..])
  {
  }

  lemma DistinctAt<T>(nodes: seq<Node<T>>, i: nat, j: nat)
    requires Distinct(nodes) && i < |nodes| && j < |nodes|
    ensures nodes[i] == nodes[j] <==> i == j
  {
  }

  /** Only the element before position `k` is that element. */
  lemma PreviousOnly<T>(nodes: seq<Node<T>>, k: nat)
    requires Distinct(nodes) && k < |nodes|
    ensures k > 0 ==> forall j | 0 <= j < |nodes| && j != k - 1 :: nodes[j] != nodes[k - 1]
  {
  }

  lemma BeforeIs<T>(nodes: seq<Node<T>>, k: nat)
    requires k < |nodes|
    ensures Before(nodes, k) == if k > 0 then nodes[k - 1] else nodes[|nodes| - 1]
  {
  }

  /** The first element of the list without element `k`. */
  lemma FirstWithout<T>(was: seq<Node<T>>, k: nat)
    requires k < |was| && Distinct(was)
    ensures var now := was[..k] + was[k + 1..];
            (if now == [] then null else now[0]) == if was[k] == was[0] then After(was, k) else was[0]
  {
    DistinctAt(was, k, 0);
  }

  lemma LinksAt<T>(nodes: seq<Node<T>>, k: nat)
    requires k < |nodes| && Forward(nodes) && Backward(nodes)
    ensures nodes[k].next == After(nodes, k) == if k + 1 < |nodes| then nodes[k + 1] else null
    ensures nodes[k].prev == Before(nodes, k) == if k > 0 then nodes[k - 1] else nodes[|nodes| - 1]
  {
  }

  class List<T> {
    var head: Node?<T>
    /** The elements, in list order. */
    ghost var nodes: seq<Node<T>>

    ghost predicate Valid()
      reads this, nodes
    {
      head == (if nodes == [] then null else nodes[0]) &&
      Distinct(nodes) && Forward(nodes) && Backward(nodes)
    }

    constructor ()
      ensures Valid() && nodes == []
    {
      head, nodes := null, [];
    }

    /** `list_add_head` */
    method AddHead(el: Node<T>)
      requires Valid() && el !in nodes
      modifies this, nodes, el
      ensures Valid() && nodes == [el] + old(nodes)
    {
      if head != null {
        assert nodes[0].prev == Before(nodes, 0);
      }
      el.next := head;
      el.prev := if head == null then el else head.prev;
      if head != null {
        head.prev := el;
      }
      head := el;
      ghost var was := nodes;
      nodes := [el] + nodes;
      forall i | 0 <= i < |nodes|
        ensures nodes[i].next == After(nodes, i) && nodes[i].prev == Before(nodes, i)
      {
        assert i > 0 ==> nodes[i] == was[i - 1] && (i + 1 < |nodes| ==> After(was, i - 1) == nodes[i + 1]);
      }
    }

    /** `list_add_tail` */
    method AddTail(el: Node<T>)
      requires Valid() && el !in nodes
      modifies this, nodes, el
      ensures Valid() && nodes == old(nodes) + [el]
    {
      if head != null {
        assert nodes[0].prev == Before(nodes, 0);
      }
      el.next := null;
      if head == null {
        head := el;
        el.prev := el;
      } else {
        el.prev := head.prev;
        head.prev.next := el;
        head.prev := el;
      }
      ghost var was := nodes;
      nodes := nodes + [el];
      forall i | 0 <= i < |nodes|
        ensures nodes[i].next == After(nodes, i) && nodes[i].prev == Before(nodes, i)
      {
        assert i < |was| ==> nodes[i] == was[i];
        assert i + 1 < |was| ==> nodes[i + 1] == was[i + 1];
      }
    }

    /** `list_rm` of the element at position `k`. The removed element keeps its own `next`. */
    method Remove(entry: Node<T>, ghost k: nat)
      requires Valid() && k < |nodes| && nodes[k] == entry
      modifies this, nodes
      ensures Valid() && nodes == old(nodes)[..k] + old(nodes)[k + 1..]
      ensures entry.next == old(entry.next)
    {
      hide *;
      ghost var was, moved := nodes, if k < |nodes| - 1 then k + 1 else 0;
      Parts();
      LinksAt(was, k);
      DistinctWithout(was, k);
      FirstWithout(was, k);
      UnlinkForward(entry, k);
      UnlinkBackward(entry, k, moved);
      head := if entry == head then entry.next else head;
      nodes := was[..k] + was[k + 1..];
      ForwardWithout(was, k);
      BackwardWithout(was, k, moved);
      Assembled();
    }

    lemma Parts()
      requires Valid() && nodes != []
      ensures head == nodes[0] && Distinct(nodes) && Forward(nodes) && Backward(nodes)
    {
    }

    lemma Assembled()
      requires head == (if nodes == [] then null else nodes[0]) && Distinct(nodes) && Forward(nodes) && Backward(nodes)
      ensures Valid()
    {
    }

    method UnlinkForward(entry: Node<T>, ghost k: nat)
      requires Valid() && k < |nodes| && nodes[k] == entry
      modifies nodes
      ensures forall j | 0 <= j < |nodes| && j != k - 1 :: nodes[j].next == old(nodes[j].next)
      ensures k > 0 ==> nodes[k - 1].next == After(nodes, k)
      ensures forall j | 0 <= j < |nodes| :: nodes[j].prev == old(nodes[j].prev)
    {
      hide *;
      Parts();
      LinksAt(nodes, k);
      DistinctAt(nodes, k, 0);
      PreviousOnly(nodes, k);
      if entry != head {
        entry.prev.next := entry.next;
      }
    }

    method UnlinkBackward(entry: Node<T>, ghost k: nat, ghost moved: nat)
      requires k < |nodes| && nodes[k] == entry && head == nodes[0] && Distinct(nodes)
      requires moved == if k < |nodes| - 1 then k + 1 else 0
      requires entry.next == (if k < |nodes| - 1 then nodes[k + 1] else null) && entry.prev == Before(nodes, k)
      modifies nodes
      ensures forall j | 0 <= j < |nodes| && j != moved :: nodes[j].prev == old(nodes[j].prev)
      ensures nodes[moved].prev == Before(nodes, k)
      ensures forall j | 0 <= j < |nodes| :: nodes[j].next == old(nodes[j].next)
    {
      hide *;
      BeforeIs(nodes, k);
      forall j | 0 <= j < |nodes| && j != moved
        ensures nodes[j] != nodes[moved]
      {
        DistinctAt(nodes, j, moved);
      }
      if entry.next != null {
        entry.next.prev := entry.prev;
      } else {
        head.prev := entry.prev;
      }
    }

    /**
     * `list_for_each` over a body that unlinks the current element when `drop` says so. The loop holds the element
     * after the current one, so it visits every element of the original list once and in order all the same.
     */
    method RemoveWhere(drop: T -> bool) returns (visited: seq<T>)
      requires Valid()
      modifies this, nodes
      ensures Valid() && nodes == Kept(old(nodes), drop)
      ensures visited == Values(old(nodes))
    {
      hide *;
      ghost var was, i := nodes, 0;
      Started(drop);
      FirstTwo();
      visited := [];
      var entry := head;
      var next := if head == null then null else head.next;
      while entry != null
        invariant Valid() && i <= |was| && Halfway(was, i, drop, visited)
        invariant entry == (if i < |was| then was[i] else null)
        invariant next == (if i + 1 < |was| then was[i + 1] else null)
        decreases |was| - i
      {
        StillInside(was, i, drop, visited);
        visited := Visit(entry, drop, was, i, visited);
        i := i + 1;
        entry := next;
        next := if next == null then null else next.next;
      }
      Finished(was, i, drop, visited);
    }

    /** The first `i` elements have been visited, and unlinked or not; the others are still in the list. */
    ghost predicate Halfway(was: seq<Node<T>>, i: nat, drop: T -> bool, visited: seq<T>)
      reads `nodes
    {
      i <= |was| && nodes == Kept(was[..i], drop) + was[i..] && visited == Values(was[..i])
    }

    lemma Started(drop: T -> bool)
      ensures Halfway(nodes, 0, drop, [])
    {
      KeptNone(nodes, drop);
    }

    lemma Finished(was: seq<Node<T>>, i: nat, drop: T -> bool, visited: seq<T>)
      requires Halfway(was, i, drop, visited) && i == |was|
      ensures nodes == Kept(was, drop) && visited == Values(was)
    {
      hide Kept, Values;
      assert was[..i] == was;
    }

    lemma StillInside(was: seq<Node<T>>, i: nat, drop: T -> bool, visited: seq<T>)
      requires Halfway(was, i, drop, visited)
      ensures forall j | 0 <= j < |nodes| :: nodes[j] in was
    {
      hide Kept, Values;
      var kept := Kept(was[..i], drop);
      forall j | 0 <= j < |nodes|
        ensures nodes[j] in was
      {
        if j < |kept| {
          assert nodes[j] == kept[j] && kept[j] in kept;
          assert kept[j] in was[..i];
        } else {
          assert nodes[j] == was[i + j - |kept|];
        }
      }
    }

    /** The loop body: unlink the element or leave it. */
    method Visit(entry: Node<T>, drop: T -> bool, ghost was: seq<Node<T>>, ghost i: nat, visited: seq<T>) returns (now: seq<T>)
      requires Valid() && i < |was| && entry == was[i] && Halfway(was, i, drop, visited)
      modifies this, nodes
      ensures Valid() && Halfway(was, i + 1, drop, now)
      ensures i + 1 < |was| ==> was[i + 1].next == if i + 2 < |was| then was[i + 2] else null
    {
      hide *;
      ghost var kept := Kept(was[..i], drop);
      Current(was, i, drop, visited);
      if drop(entry.data) {
        Remove(entry, |kept|);
        assert nodes == kept + was[i + 1..];
      }
      now := visited + [entry.data];
      Visited(was, i, drop, visited);
      if i + 1 < |was| {
        Current(was, i + 1, drop, now);
        NextOf(|Kept(was[..i + 1], drop)|);
      }
    }

    /** Where the current element and the one behind it are in the list. */
    lemma Current(was: seq<Node<T>>, i: nat, drop: T -> bool, visited: seq<T>)
      requires Halfway(was, i, drop, visited) && i < |was|
      ensures var kept := Kept(was[..i], drop);
              && nodes == kept + [was[i]] + was[i + 1..] && visited == Values(was[..i])
              && |kept| < |nodes| && nodes[|kept|] == was[i]
              && nodes[..|kept|] + nodes[|kept| + 1..] == kept + was[i + 1..]
              && (if |kept| + 1 < |nodes| then nodes[|kept| + 1] else null) == (if i + 1 < |was| then was[i + 1] else null)
    {
      hide Kept, Values;
      assert was[i..] == [was[i]] + was[i + 1..];
    }

    lemma Visited(was: seq<Node<T>>, i: nat, drop: T -> bool, visited: seq<T>)
      requires i < |was| && visited == Values(was[..i])
      requires nodes == Kept(was[..i], drop) + (if drop(was[i].data) then [] else [was[i]]) + was[i + 1..]
      ensures Halfway(was, i + 1, drop, visited + [was[i].data])
    {
      hide Kept;
      KeptStep(was, i, drop);
    }

    lemma FirstTwo()
      requires Valid()
      ensures head == if nodes == [] then null else nodes[0]
      ensures head != null ==> head.next == if 1 < |nodes| then nodes[1] else null
    {
    }

    lemma NextOf(k: nat)
      requires Valid() && k < |nodes|
      ensures nodes[k].next == if k + 1 < |nodes| then nodes[k + 1] else null
    {
      LinksAt(nodes, k);
    }
  }
}
