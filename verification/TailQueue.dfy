// The intrusive tail queue of private.h. The back link of a node is not the previous
// node: it is the address of the field that points at this node, either the head's first
// field or the next field of another node.
module TailQueue {

  // The address of a field that holds a node pointer.
  datatype Place<!T> = Nowhere | First(queue: Queue<T>) | Next(node: Node<T>)

  class Node<!T> {
    const elem: T
    var next: Node?<T>
    var prev: Place<T>

    constructor (elem: T)
      ensures this.elem == elem
    {
      this.elem := elem;
      next := null;
      prev := Nowhere;
    }
  }

  // The object that a place lies in.
  function Owner<T>(p: Place<T>): set<object> {
    match p
    case Nowhere => {}
    case First(q) => {q}
    case Next(n) => {n}
  }

  // *p
  function Load<T>(p: Place<T>): Node?<T>
    reads Owner(p)
  {
    match p
    case Nowhere => null
    case First(q) => q.first
    case Next(n) => n.next
  }

  // The back link stored right behind the field at p. The head and the node have the same
  // layout, which is what TAILQ_LAST and TAILQ_PREV rely on when they cast one to the other.
  function Behind<T>(p: Place<T>): Place<T>
    reads Owner(p)
  {
    match p
    case Nowhere => Nowhere
    case First(q) => q.last
    case Next(n) => n.prev
  }

  // *p = n
  method Store<T>(p: Place<T>, n: Node?<T>)
    requires !p.Nowhere?
    modifies Owner(p)
    ensures Load(p) == n && Behind(p) == old(Behind(p))
    ensures p.First? ==> p.queue.nodes == old(p.queue.nodes)
  {
    match p
    case First(q) => q.first := n;
    case Next(m) => m.next := n;
  }

  ghost predicate Distinct<T>(s: seq<T>) {
    forall i, j :: 0 <= i < j < |s| ==> s[i] != s[j]
  }

  lemma OthersDiffer<T>(s: seq<T>, k: nat)
    requires Distinct(s) && k < |s|
    ensures forall i :: 0 <= i < |s| && i != k ==> s[i] != s[k]
  {
  }

  lemma DistinctInsert<T>(s: seq<T>, k: nat, x: T)
    requires Distinct(s) && k <= |s| && x !in s
    ensures Distinct(s[..k] + [x] + s[k..])
  {
    var r := s[..k] + [x] + s[k..];
    forall i, j | 0 <= i < j < |r|
      ensures r[i] != r[j]
    {
      var i0, j0 := if i < k then i else i - 1, if j < k then j else j - 1;
      assert i != k ==> r[i] == s[i0];
      assert j != k ==> r[j] == s[j0];
    }
  }

  lemma DistinctRemove<T>(s: seq<T>, k: nat)
    requires Distinct(s) && k < |s|
    ensures Distinct(s[..k] + s[k + 1..]) && s[k] !in s[..k] + s[k + 1..]
  {
  }

  lemma DistinctConcat<T>(s: seq<T>, t: seq<T>)
    requires Distinct(s) && Distinct(t) && forall x :: x in s ==> x !in t
    ensures Distinct(s + t)
  {
    forall i, j | 0 <= i < j < |s + t|
      ensures (s + t)[i] != (s + t)[j]
    {
      if i < |s| <= j {
        assert s[i] in s && t[j - |s|] in t;
      }
    }
  }

  lemma DistinctNothing<T>()
    ensures Distinct<T>([])
  {
  }

  class Queue<!T> {
    var first: Node?<T>
    var last: Place<T>
    ghost var nodes: seq<Node<T>>

    // The place that points at the i-th node; the one for i == |nodes| holds null.
    ghost function PlaceOf(i: nat): Place<T>
      requires i <= |nodes|
      reads this
    {
      if i == 0 then First(this) else Next(nodes[i - 1])
    }

    ghost function NodeAt(i: nat): Node?<T>
      reads this
    {
      if i < |nodes| then nodes[i] else null
    }

    ghost predicate LinkedAt(i: nat)
      requires i < |nodes|
      reads this, nodes
    {
      nodes[i].next == NodeAt(i + 1) && nodes[i].prev == PlaceOf(i)
    }

    ghost predicate Valid()
      reads this, nodes
    {
      && Distinct(nodes)
      && first == NodeAt(0) && last == PlaceOf(|nodes|)
      && forall i: nat :: i < |nodes| ==> LinkedAt(i)
    }

    // TAILQ_INIT
    constructor ()
      ensures Valid() && nodes == []
    {
      first, last := null, First(this);
      nodes := [];
    }

    // TAILQ_INSERT_HEAD
    method InsertHead(elm: Node<T>)
      requires Valid() && elm !in nodes
      modifies this, nodes, elm
      ensures Valid() && nodes == [elm] + old(nodes)
    {
      hide Distinct;
      ghost var was := nodes;
      elm.next := first;
      if elm.next != null {
        OthersDiffer(was, 0);
        first.prev := Next(elm);
      } else {
        last := Next(elm);
      }
      first := elm;
      elm.prev := First(this);
      nodes := [elm] + nodes;
      assert nodes == was[..0] + [elm] + was[0..];
      DistinctInsert(was, 0, elm);
      forall i: nat | i < |nodes|
        ensures LinkedAt(i)
      {
        if i > 0 {
          assert old(LinkedAt(i - 1));
          assert nodes[i] == was[i - 1];
        }
      }
    }

    // TAILQ_INSERT_TAIL
    method InsertTail(elm: Node<T>)
      requires Valid() && elm !in nodes
      modifies this, nodes, elm
      ensures Valid() && nodes == old(nodes) + [elm]
    {
      hide Distinct;
      ghost var was := nodes;
      if was != [] {
        OthersDiffer(was, |was| - 1);
      }
      elm.next := null;
      elm.prev := last;
      Store(last, elm);
      last := Next(elm);
      nodes := nodes + [elm];
      assert nodes == was[..|was|] + [elm] + was[|was|..];
      DistinctInsert(was, |was|, elm);
      forall i: nat | i < |nodes|
        ensures LinkedAt(i)
      {
        if i < |was| {
          assert old(LinkedAt(i));
          assert nodes[i] == was[i];
        }
      }
    }

    // TAILQ_INSERT_AFTER
    method InsertAfter(listelm: Node<T>, elm: Node<T>, ghost k: nat)
      requires Valid() && elm !in nodes && k < |nodes| && nodes[k] == listelm
      modifies this, nodes, elm
      ensures Valid() && nodes == old(nodes[..k + 1] + [elm] + nodes[k + 1..])
    {
      hide Distinct;
      ghost var was := nodes;
      assert LinkedAt(k);
      OthersDiffer(was, k);
      elm.next := listelm.next;
      if elm.next != null {
        OthersDiffer(was, k + 1);
        elm.next.prev := Next(elm);
      } else {
        last := Next(elm);
      }
      listelm.next := elm;
      elm.prev := Next(listelm);
      nodes := nodes[..k + 1] + [elm] + nodes[k + 1..];
      DistinctInsert(was, k + 1, elm);
      forall i: nat | i < |nodes|
        ensures LinkedAt(i)
      {
        if i != k + 1 {
          assert old(LinkedAt(if i <= k then i else i - 1));
        }
      }
    }

    // TAILQ_INSERT_BEFORE never looks at the head: the back link of listelm is enough,
    // even when listelm is the first node.
    method InsertBefore(listelm: Node<T>, elm: Node<T>, ghost k: nat)
      requires Valid() && elm !in nodes && k < |nodes| && nodes[k] == listelm
      modifies this, nodes, elm
      ensures Valid() && nodes == old(nodes[..k] + [elm] + nodes[k..])
    {
      hide Distinct;
      ghost var was := nodes;
      assert LinkedAt(k);
      OthersDiffer(was, k);
      if k > 0 {
        OthersDiffer(was, k - 1);
      }
      elm.prev := listelm.prev;
      elm.next := listelm;
      Store(listelm.prev, elm);
      listelm.prev := Next(elm);
      nodes := nodes[..k] + [elm] + nodes[k..];
      DistinctInsert(was, k, elm);
      forall i: nat | i < |nodes|
        ensures LinkedAt(i)
      {
        if i != k {
          assert old(LinkedAt(if i < k then i else i - 1));
        }
      }
    }

    // TAILQ_REMOVE. The links of the removed node itself are left as they were.
    method Remove(elm: Node<T>, ghost k: nat)
      requires Valid() && k < |nodes| && nodes[k] == elm
      modifies this, nodes
      ensures Valid() && nodes == old(nodes[..k] + nodes[k + 1..]) && elm !in nodes
      ensures elm.next == old(elm.next) && elm.prev == old(elm.prev)
    {
      hide Distinct;
      ghost var was := nodes;
      assert LinkedAt(k);
      OthersDiffer(was, k);
      if k > 0 {
        OthersDiffer(was, k - 1);
      }
      if elm.next != null {
        OthersDiffer(was, k + 1);
        elm.next.prev := elm.prev;
      } else {
        last := elm.prev;
      }
      Store(elm.prev, elm.next);
      nodes := nodes[..k] + nodes[k + 1..];
      DistinctRemove(was, k);
      forall i: nat | i < |nodes|
        ensures LinkedAt(i)
      {
        assert old(LinkedAt(if i < k then i else i + 1));
      }
    }

    // TAILQ_CONCAT
    method Concat(other: Queue<T>)
      requires this != other && Valid() && other.Valid()
      requires forall n :: n in nodes ==> n !in other.nodes
      modifies this, nodes, other, other.nodes
      ensures Valid() && nodes == old(nodes) + old(other.nodes)
      ensures other.Valid() && other.nodes == []
    {
      hide Distinct;
      ghost var mine, theirs := nodes, other.nodes;
      DistinctConcat(mine, theirs);
      if other.first != null {
        OthersDiffer(theirs, 0);
        if mine != [] {
          OthersDiffer(mine, |mine| - 1);
        }
        Store(last, other.first);
        other.first.prev := last;
        last := other.last;
        other.first := null;
        other.last := First(other);
        nodes, other.nodes := nodes + other.nodes, [];
        forall i: nat | i < |nodes|
          ensures LinkedAt(i)
        {
          if i < |mine| {
            assert old(LinkedAt(i)) && nodes[i] == mine[i] && mine[i] in mine;
          } else {
            ghost var j: nat := i - |mine|;
            assert old(other.LinkedAt(j)) && nodes[i] == theirs[j];
            assert j > 0 ==> nodes[i - 1] == theirs[j - 1];
            assert theirs[j] in theirs;
          }
        }
        DistinctNothing<Node<T>>();
      } else {
        assert mine + theirs == mine;
      }
    }

    // TAILQ_LAST
    function Last(): (r: Node?<T>)
      requires Valid()
      reads this, nodes
      ensures r == if nodes == [] then null else nodes[|nodes| - 1]
    {
      assert nodes != [] ==> LinkedAt(|nodes| - 1);
      assert |nodes| > 1 ==> LinkedAt(|nodes| - 2);
      Load(Behind(last))
    }

    // TAILQ_PREV
    function Prev(elm: Node<T>, ghost k: nat): (r: Node?<T>)
      requires Valid() && k < |nodes| && nodes[k] == elm
      reads this, nodes
      ensures r == if k == 0 then null else nodes[k - 1]
    {
      assert LinkedAt(k) && LinkedAt(|nodes| - 1);
      assert k > 0 ==> LinkedAt(k - 1);
      assert k > 1 ==> LinkedAt(k - 2);
      Load(Behind(elm.prev))
    }

    // TAILQ_FOREACH visits the nodes in order.
    method Forwards() returns (visited: seq<Node<T>>)
      requires Valid()
      ensures visited == nodes
    {
      visited := [];
      var v := first;
      while v != null
        invariant |visited| <= |nodes| && visited == nodes[..|visited|]
        invariant v == NodeAt(|visited|)
        decreases |nodes| - |visited|
      {
        assert LinkedAt(|visited|);
        visited := visited + [v];
        v := v.next;
      }
    }

    // TAILQ_FOREACH_REVERSE visits them backwards, by back links alone.
    method Backwards() returns (visited: seq<Node<T>>)
      requires Valid()
      ensures |visited| == |nodes|
      ensures forall i :: 0 <= i < |nodes| ==> visited[i] == nodes[|nodes| - 1 - i]
    {
      visited := [];
      var v := Last();
      while v != null
        invariant |visited| <= |nodes|
        invariant forall i :: 0 <= i < |visited| ==> visited[i] == nodes[|nodes| - 1 - i]
        invariant v == if |visited| < |nodes| then nodes[|nodes| - 1 - |visited|] else null
        decreases |nodes| - |visited|
      {
        visited := visited + [v];
        v := Prev(v, |nodes| - |visited|);
      }
    }
  }
}
