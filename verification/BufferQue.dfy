/** The free list of buffers on the ring: first in, first out. */
module BufferQue {
  import opened RingQueue

  class Mem {
    const node: Node
    var nSize: nat

    constructor ()
      ensures fresh(this) && fresh(node) && nSize == 0
    {
      node := new Node();
      nSize := 0;
    }
  }

  class BufferQue {
    const head: Node
    /** The buffer that a node is embedded in. */
    var container: map<Node, Mem>
    ghost var bufs: seq<Mem>

    ghost function Nodes(ms: seq<Mem>): (r: seq<Node>)
      ensures |r| == |ms| && forall i :: 0 <= i < |r| ==> r[i] == ms[i].node
    {
      seq(|ms|, i requires 0 <= i < |ms| => ms[i].node)
    }

    ghost function Repr(): seq<Node>
      reads this
    {
      [head] + Nodes(bufs)
    }

    ghost predicate Valid()
      reads this, Repr()
    {
      Ring(Repr()) && forall i :: 0 <= i < |bufs| ==> bufs[i].node in container && container[bufs[i].node] == bufs[i]
    }

    constructor ()
      ensures Valid() && bufs == [] && fresh(head)
    {
      var h := new Node();
      head, container, bufs := h, map[], [];
      new;
      Init(h);
      assert Repr() == [h];
    }

    /** The oldest free buffer, emptied, or a new one. */
    method GetBuffer() returns (ret: Mem)
      requires Valid()
      modifies this, Repr(), set m | m in bufs
      ensures Valid() && ret.nSize == 0
      ensures old(bufs) == [] ==> fresh(ret) && fresh(ret.node) && bufs == []
      ensures old(bufs) != [] ==> ret == old(bufs)[0] && bufs == old(bufs)[1..]
    {
      hide Ring;
      ghost var r := Repr();
      Around(r, 0);
      Different(r);
      var p := head.next;
      if p != head {
        assert r[1] == bufs[0].node;
        Remove(p, r, 1);
        ret := container[p];
        ret.nSize := 0;
        bufs := bufs[1..];
        assert r[..1] + r[2..] == Repr();
      } else {
        ret := new Mem();
        assert bufs == [];
      }
    }

    method PutBuffer(buf: Mem?) returns (ok: bool)
      requires Valid() && (buf != null ==> buf.node !in Repr())
      modifies this, Repr(), if buf != null then {buf.node} else {}
      ensures Valid() && (ok <==> buf != null)
      ensures bufs == if buf != null then old(bufs) + [buf] else old(bufs)
    {
      hide Ring;
      if buf == null { return false; }
      ghost var r := Repr();
      InsertTail(head, buf.node, r);
      container := container[buf.node := buf];
      assert forall i :: 0 <= i < |bufs| ==> bufs[i].node == r[i + 1];
      bufs := bufs + [buf];
      assert Repr() == r + [buf.node];
      return true;
    }
  }
}
