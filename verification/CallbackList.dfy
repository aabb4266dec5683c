/** The linked list of callbacks: a head, a tail, and nodes in the order they were pushed. */
module CallbackList {
  import opened Bytes

  /** A function (zero for none) and its private data. */
  datatype Callback = Callback(fn: nat, privdata: nat)

  class CallbackNode {
    const cb: Callback
    ghost const owner: CallbackList
    var next: CallbackNode?

    constructor (cb: Callback, ghost owner: CallbackList)
      ensures this.cb == cb && this.owner == owner && next == null
    {
      this.cb, this.owner, next := cb, owner, null;
    }
  }

  function Values(nodes: seq<CallbackNode>): (cbs: seq<Callback>)
    ensures |cbs| == |nodes| && forall i :: 0 <= i < |nodes| ==> cbs[i] == nodes[i].cb
  {
    seq(|nodes|, i requires 0 <= i < |nodes| => nodes[i].cb)
  }

  class CallbackList {
    var head: CallbackNode?
    var tail: CallbackNode?
    ghost var nodes: seq<CallbackNode>

    ghost predicate Valid()
      reads this, nodes
    {
      && (forall i :: 0 <= i < |nodes| ==> nodes[i].owner == this)
      && (nodes == [] ==> head == null && tail == null)
      && (nodes != [] ==> head == nodes[0] && tail == nodes[|nodes| - 1])
      && forall i {:trigger nodes[i].next} :: 0 <= i < |nodes| ==>
           nodes[i].next == if i + 1 < |nodes| then nodes[i + 1] else null
    }

    ghost function Contents(): seq<Callback>
      reads `nodes
    {
      Values(nodes)
    }

    /** The nodes of a list are its own. */
    lemma Owned()
      requires Valid()
      ensures forall i :: 0 <= i < |nodes| ==> nodes[i].owner == this
    {
    }

    constructor ()
      ensures Valid() && Contents() == []
    {
      head, tail, nodes := null, null, [];
    }

    /** Appends a copy of `source`. */
    method Push(source: Callback)
      requires Valid()
      modifies this, nodes
      ensures Valid() && (forall n :: n in nodes ==> n in old(nodes) || fresh(n))
      ensures Contents() == old(Contents()) + [source]
    {
      var cb := new CallbackNode(source, this);
      ghost var was := nodes;
      if head == null {
        head := cb;
      }
      if tail != null {
        tail.next := cb;
      }
      tail := cb;
      nodes := nodes + [cb];
      forall i | 0 <= i < |was| ensures was[i].next == nodes[i + 1] {
        assert i + 1 < |was| ==> old(was[i].next) != null;
      }
    }

    method IsEmpty() returns (empty: bool)
      requires Valid()
      ensures empty == (Contents() == [])
    {
      empty := head == null;
    }

    /** Takes the first callback off. */
    method Shift() returns (target: Option<Callback>)
      requires Valid()
      modifies this
      ensures Valid() && forall n :: n in nodes ==> n in old(nodes)
      ensures target == if old(Contents()) == [] then None else Some(old(Contents())[0])
      ensures Contents() == if old(Contents()) == [] then [] else old(Contents())[1..]
    {
      var cb := head;
      if cb == null {
        return None;
      }
      head := cb.next;
      if cb == tail {
        tail := null;
      }
      nodes := nodes[1..];
      target := Some(cb.cb);
    }
  }
}
