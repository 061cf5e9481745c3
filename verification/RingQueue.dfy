/** Intrusive ring lists: pointer surgery, stated on the sequence of nodes around the ring. */
module RingQueue {

  class Node {
    var next: Node?
    var prev: Node?

    constructor ()
      ensures fresh(this)
    {
    }
  }

  /** The nodes around the ring, its head first: all different, and linked both ways. */
  ghost predicate Ring(r: seq<Node>)
    reads r
  {
    |r| > 0 &&
    (forall i, j :: 0 <= i < j < |r| ==> r[i] != r[j]) &&
    (forall i :: 0 <= i < |r| - 1 ==> r[i].next == r[i + 1]) &&
    (forall i :: 0 < i < |r| ==> r[i].prev == r[i - 1]) &&
    r[|r| - 1].next == r[0] && r[0].prev == r[|r| - 1]
  }

  /** Both neighbours of a node, and the node's place as seen from them. */
  lemma Around(r: seq<Node>, i: nat)
    requires Ring(r) && i < |r|
    ensures var a, b := if i == 0 then |r| - 1 else i - 1, if i + 1 == |r| then 0 else i + 1;
            r[i].prev == r[a] && r[a].next == r[i] && r[i].next == r[b] && r[b].prev == r[i]
  {
  }

  lemma Different(r: seq<Node>)
    requires Ring(r)
    ensures forall i, j :: 0 <= i < j < |r| ==> r[i] != r[j]
  {
  }

  ghost predicate Apart(r: seq<Node>, q: seq<Node>) {
    forall i, j :: 0 <= i < |r| && 0 <= j < |q| ==> r[i] != q[j]
  }

  method Init(q: Node)
    modifies q
    ensures Ring([q])
  {
    q.next := q;
    q.prev := q;
  }

  method Empty(h: Node, ghost r: seq<Node>) returns (e: bool)
    requires Ring(r) && h == r[0]
    ensures e <==> r == [h]
  {
    Around(r, 0);
    e := h == h.next;
  }

  /** The members of the second ring follow those of the first. Its head belongs to no ring any more, also when
      it was alone: its links are not put right. */
  method Add(h: Node, n: Node, ghost r: seq<Node>, ghost q: seq<Node>)
    requires Ring(r) && Ring(q) && Apart(r, q) && h == r[0] && n == q[0]
    modifies r, q
    ensures Ring(r + q[1..])
  {
    Around(r, 0);
    Around(q, 0);
    h.prev.next := n.next;
    n.next.prev := h.prev;
    h.prev := n.prev;
    h.prev.next := h;
  }

  /** The ring is cut before the member `q`; the rest goes behind the new head. */
  method Split(h: Node, q: Node, n: Node, ghost r: seq<Node>, ghost k: nat)
    requires Ring(r) && h == r[0] && 0 < k < |r| && q == r[k] && n !in r
    modifies r, n
    ensures Ring(r[..k]) && Ring([n] + r[k..])
  {
    Around(r, 0);
    Around(r, k);
    n.prev := h.prev;
    n.prev.next := n;
    n.next := q;
    h.prev := q.prev;
    h.prev.next := h;
    q.prev := n;
    assert Ring(r[..k]);
    ghost var t := [n] + r[k..];
    assert t[0] == n && forall i :: 0 < i < |t| ==> t[i] == r[k + i - 1];
  }

  /** All members go to the new head. */
  method Move(h: Node, n: Node, ghost r: seq<Node>)
    requires Ring(r) && h == r[0] && n !in r
    modifies r, n
    ensures Ring([h]) && Ring([n] + r[1..])
  {
    Around(r, 0);
    if h == h.next {
      Init(n);
      assert r == [h] && [n] + r[1..] == [n];
    } else {
      var q := h.next;
      Split(h, q, n, r, 1);
      assert r[..1] == [h];
    }
  }

  method InsertHead(h: Node, q: Node, ghost r: seq<Node>)
    requires Ring(r) && h == r[0] && q !in r
    modifies r, q
    ensures Ring([h, q] + r[1..])
  {
    Around(r, 0);
    q.next := h.next;
    q.prev := h;
    q.next.prev := q;
    h.next := q;
  }

  method InsertTail(h: Node, q: Node, ghost r: seq<Node>)
    requires Ring(r) && h == r[0] && q !in r
    modifies r, q
    ensures Ring(r + [q])
  {
    q.next := h;
    q.prev := h.prev;
    q.prev.next := q;
    h.prev := q;
  }

  /** The node drops out; the others stay a ring in their order, if there are others. */
  method Remove(q: Node, ghost r: seq<Node>, ghost k: nat)
    requires Ring(r) && k < |r| && q == r[k]
    modifies r
    ensures |r| > 1 ==> Ring(r[..k] + r[k + 1..])
    ensures |r| == 1 ==> Ring(r)
    ensures q.next == old(q.next) && q.prev == old(q.prev)
  {
    Around(r, k);
    q.prev.next := q.next;
    q.next.prev := q.prev;
  }

  /** Visits every member once, in order. */
  method Foreach(h: Node, ghost r: seq<Node>) returns (visited: seq<Node>)
    requires Ring(r) && h == r[0]
    ensures visited == r[1..]
  {
    visited := [];
    var q := h.next;
    while q != h
      invariant |visited| < |r| && visited == r[1..|visited| + 1]
      invariant q == if |visited| + 1 == |r| then h else r[|visited| + 1]
      decreases |r| - |visited|
    {
      visited := visited + [q];
      q := q.next;
    }
  }

  lemma PartsApart(r: seq<Node>, n: Node, k: nat)
    requires n !in r && k < |r| && forall i, j :: 0 <= i < j < |r| ==> r[i] != r[j]
    ensures Apart(r[..k], [n] + r[k..]) && r[..k] + ([n] + r[k..])[1..] == r
  {
    var a, b := r[..k], [n] + r[k..];
    forall i, j | 0 <= i < |a| && 0 <= j < |b| ensures a[i] != b[j] {
      assert a[i] == r[i];
      if j > 0 { assert b[j] == r[k..][j - 1] == r[k + (j - 1)]; }
    }
    assert b[1..] == r[k..];
  }

  /** Adding what was split off restores the ring. */
  method SplitThenAdd(h: Node, q: Node, n: Node, ghost r: seq<Node>, ghost k: nat)
    requires Ring(r) && h == r[0] && 0 < k < |r| && q == r[k] && n !in r
    modifies r, n
    ensures Ring(r)
  {
    hide Ring, Apart;
    Different(r);
    PartsApart(r, n, k);
    Split(h, q, n, r, k);
    Add(h, n, r[..k], [n] + r[k..]);
  }
}
