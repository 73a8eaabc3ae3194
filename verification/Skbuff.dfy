/** Socket buffers and their queues (core/skbuff.c). */
module Skbuff {
  import opened Words
  import opened Wrappers
  import opened Ethernet

  const NET_RX_SUCCESS: int := 0
  const NET_RX_DROP: int := 1

  /** `struct sk_buff`. Pointers into the data are offsets from `head`; `end` is the length of the data. */
  class SkBuff {
    var next: SkBuff?
    var prev: SkBuff?

    const buf: array<byte>
    var data: int
    var tail: int
    var len: int

    /** link, network and transport header */
    var mac: int
    var nh: int
    var h: int

    var protocol: uint16
    var pktType: PktType

    /** head <= data <= tail <= end and len == tail - data */
    ghost predicate Geometry()
      reads this
    {
      0 <= data <= tail <= buf.Length && len == tail - data
    }

    /** The bytes the buffer holds. */
    ghost function View(): Bytes
      requires Geometry()
      reads this, buf
    {
      buf[..][data..tail]
    }

    /** `alloc_skb` */
    constructor (size: nat)
      ensures fresh(buf) && buf.Length == size && next == null && prev == null
      ensures Geometry() && data == 0 && len == 0 && pktType == PacketHost
    {
      next, prev := null, null;
      buf := new byte[size](_ => 0);
      data, tail, len := 0, 0, 0;
      mac, nh, h := 0, 0, 0;
      protocol, pktType := 0, PacketHost;
    }

    /** `skb_reserve` checks `data` where it moves `tail` as well: the geometry survives exactly when the
        tail has room too, as it has in an empty buffer. */
    method Reserve(n: int)
      requires Geometry()
      modifies this`data, this`tail
      ensures var moved := old(data) + n <= buf.Length;
              && data == old(data) + (if moved then n else 0) && tail == old(tail) + (if moved then n else 0)
              && (Geometry() <==> moved ==> 0 <= old(data) + n && old(tail) + n <= buf.Length)
      ensures old(len) == 0 && 0 <= n ==> Geometry()
    {
      if data + n > buf.Length {
        return;
      }
      data := data + n;
      tail := tail + n;
    }

    /** `skb_push`: room is taken from before the data; the result is its new start. */
    method Push(n: nat) returns (start: Option<int>)
      requires Geometry()
      modifies this`data, this`len
      ensures Geometry()
      ensures start.Some? <==> n <= old(data)
      ensures start.Some? ==> start.value == data && data == old(data) - n
      ensures start.None? ==> data == old(data)
    {
      if data - n < 0 {
        return None;
      }
      data := data - n;
      len := len + n;
      return Some(data);
    }

    /** `skb_pull` */
    method Pull(n: nat) returns (start: Option<int>)
      requires Geometry()
      modifies this`data, this`len
      ensures Geometry()
      ensures start.Some? <==> n <= old(len)
      ensures start.Some? ==> start.value == data && data == old(data) + n
      ensures start.None? ==> data == old(data)
    {
      if n > len {
        return None;
      }
      len := len - n;
      data := data + n;
      return Some(data);
    }

    /** `skb_put`: room is taken from after the data; the result is where it begins. */
    method Put(n: nat) returns (start: Option<int>)
      requires Geometry()
      modifies this`tail, this`len
      ensures Geometry()
      ensures start.Some? <==> n <= buf.Length - old(tail)
      ensures start.Some? ==> start.value == old(tail) && tail == old(tail) + n
      ensures start.None? ==> tail == old(tail)
    {
      if tail + n > buf.Length {
        return None;
      }
      start := Some(tail);
      tail := tail + n;
      len := len + n;
    }
  }

  /** What has become of the received buffers. The C code keeps no such record. */
  class Ledger {
    /** allocated for a received frame, with what was read of it */
    ghost var origin: map<SkBuff, Bytes>
    /** given to `kfree_skb` */
    ghost var freed: seq<SkBuff>
    /** handed to no transport */
    ghost var unclaimed: seq<SkBuff>
    /** taken off a receive queue by a caller */
    ghost var received: seq<SkBuff>

    constructor ()
      ensures origin == map[] && freed == [] && unclaimed == [] && received == []
    {
      origin, freed, unclaimed, received := map[], [], [], [];
    }

    /** `kfree_skb` */
    method KfreeSkb(skb: SkBuff)
      modifies this`freed
      ensures freed == old(freed) + [skb]
    {
      freed := freed + [skb];
    }
  }

  /** `struct sk_buff_head`: a circular doubly linked list through the buffers themselves. The head is linked
      in by a cast, so it is a node like the others. `qlen` is never updated and is not modelled. */
  class SkBuffHead {
    const list: SkBuff
    /** the buffers on the queue, first to last */
    ghost var contents: seq<SkBuff>

    /** The node `i` steps from the head; after the last buffer comes the head again. */
    ghost function At(i: nat): SkBuff
      reads this
    {
      if i == 0 || i > |contents| then list else contents[i - 1]
    }

    /** `next` and `prev` lead back and forth between node `i` and the one after it. */
    ghost predicate Joined(i: nat)
      reads this, list, contents
    {
      At(i).next == At(i + 1) && At(i + 1).prev == At(i)
    }

    /** Following `next` from the head visits the contents in order and returns to it; `prev` is the
        inverse; no buffer is linked twice. */
    ghost predicate Valid()
      reads this, list, contents
    {
      && list !in contents
      && (forall i, j :: 0 <= i < j < |contents| ==> contents[i] != contents[j])
      && (forall i :: 0 <= i <= |contents| ==> Joined(i))
    }

    ghost function First(): SkBuff
      reads this
    {
      if contents == [] then list else contents[0]
    }

    ghost function Last(): SkBuff
      reads this
    {
      if contents == [] then list else contents[|contents| - 1]
    }

    /** `skb_queue_head_init` */
    constructor ()
      ensures Valid() && fresh(list) && contents == []
    {
      list := new SkBuff(0);
      contents := [];
      new;
      list.prev := list;
      list.next := list;
    }

    /** `skb_queue_head` */
    method QueueHead(newsk: SkBuff)
      requires Valid() && newsk != list && newsk !in contents
      modifies this, list`next, First()`prev, newsk`next, newsk`prev
      ensures Valid() && contents == [newsk] + old(contents)
    {
      assert Joined(0);
      var next := list.next;
      next.prev := newsk;
      list.next := newsk;
      newsk.prev := list;
      newsk.next := next;
      contents := [newsk] + contents;
      forall i | 0 <= i <= |contents| ensures Joined(i) {
        assert i >= 2 ==> old(Joined(i - 1));
      }
    }

    /** `skb_queue_tail` */
    method QueueTail(newsk: SkBuff)
      requires Valid() && newsk != list && newsk !in contents
      modifies this, list`prev, Last()`next, newsk`next, newsk`prev
      ensures Valid() && contents == old(contents) + [newsk]
    {
      assert Joined(|contents|);
      var prev := list.prev;
      prev.next := newsk;
      list.prev := newsk;
      newsk.prev := prev;
      newsk.next := list;
      contents := contents + [newsk];
      forall i | 0 <= i <= |contents| ensures Joined(i) {
        assert i + 1 < |contents| ==> old(Joined(i));
      }
    }

    /** `skb_peek`: the head itself, not null, when the queue is empty. */
    method Peek() returns (skb: SkBuff)
      requires Valid()
      ensures skb == First()
    {
      assert Joined(0);
      skb := list.next;
    }

    /** `skb_dequeue`: removes the first buffer and unlinks it; null when the queue is empty. */
    method Dequeue() returns (result: SkBuff?)
      requires Valid()
      modifies this, list`next, list`prev, contents`next, contents`prev
      ensures Valid()
      ensures old(contents) == [] ==> result == null && contents == []
      ensures old(contents) != [] ==>
                && result == old(contents)[0] && contents == old(contents)[1..]
                && result.next == null && result.prev == null
    {
      assert Joined(0);
      var prev := list;
      var next := prev.next;
      result := null;
      if next != prev {
        assert Joined(1);
        result := next;
        next := next.next;
        next.prev := prev;
        prev.next := next;
        result.next, result.prev := null, null;
        contents := contents[1..];
        forall i | 0 <= i <= |contents| ensures Joined(i) {
          assert old(Joined(i + 1));
        }
      }
    }
  }
}
