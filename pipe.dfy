/**
 * The point-to-point IPC channel: a bounded FIFO ring buffer shared by a
 * sender and a receiver, and a closed flag for each side. Where the source
 * waits on a condition variable for the other side, the model stops and
 * reports `Blocked` with nothing changed (or, for a slice, with the part
 * already pushed kept); the caller's retry after the wait is a new call.
 * The ghost `sent` and `received` logs record everything that went in and
 * came out, so that FIFO order and no loss are an invariant.
 */
module Pipe {
  import opened Common

  /** `Pipe::new_pipe`: the capacity of a byte pipe. */
  const PIPE_CAPACITY: nat := 0x1000

  /** The result of one attempt: done with a value, the other side closed, or waiting. */
  datatype Outcome<R> = Done(value: R) | Closed | Blocked

  /** `Channel`. */
  class Channel<T> {
    var buffer: seq<T>
    const capacity: nat
    var sendClosed: bool
    var recvClosed: bool
    ghost var sent: seq<T>
    ghost var received: seq<T>

    /** The buffer holds at most `capacity` items, and it is exactly what was sent and not yet received. */
    ghost predicate Valid()
      reads this
    {
      |buffer| <= capacity && sent == received + buffer
    }

    /** `Channel::new`: empty, both sides open. */
    constructor(capacity: nat)
      ensures Valid() && this.capacity == capacity
      ensures buffer == [] && sent == [] && received == [] && !sendClosed && !recvClosed
    {
      this.capacity := capacity;
      buffer, sendClosed, recvClosed := [], false, false;
      sent, received := [], [];
    }

    /**
     * `send`: fails once the receiver is closed; into a full buffer it
     * waits, keeping the item; otherwise the item joins the back.
     */
    method Send(item: T) returns (r: Outcome<()>)
      requires Valid()
      modifies this
      ensures Valid() && sendClosed == old(sendClosed) && recvClosed == old(recvClosed)
      ensures old(recvClosed) ==> r == Closed && buffer == old(buffer) && sent == old(sent)
      ensures !old(recvClosed) && |old(buffer)| < capacity ==>
                r == Done(()) && buffer == old(buffer) + [item] && sent == old(sent) + [item]
      ensures !old(recvClosed) && |old(buffer)| >= capacity ==>
                r == Blocked && buffer == old(buffer) && sent == old(sent)
      ensures received == old(received)
    {
      if recvClosed {
        return Closed;
      }
      if |buffer| < capacity {
        buffer := buffer + [item];
        sent := sent + [item];
        return Done(());
      }
      return Blocked;
    }

    /**
     * `recv`: takes the front item while any is buffered; an empty buffer
     * gives Closed once the sender is closed, and waits otherwise.
     */
    method Recv() returns (r: Outcome<T>)
      requires Valid()
      modifies this
      ensures Valid() && sendClosed == old(sendClosed) && recvClosed == old(recvClosed)
      ensures |old(buffer)| > 0 ==> r == Done(old(buffer)[0]) && buffer == old(buffer)[1..]
                                    && received == old(received) + [old(buffer)[0]]
      ensures |old(buffer)| == 0 ==> r == (if sendClosed then Closed else Blocked)
                                     && buffer == old(buffer) && received == old(received)
      ensures sent == old(sent)
    {
      if |buffer| > 0 {
        var item := buffer[0];
        buffer := buffer[1..];
        received := received + [item];
        return Done(item);
      }
      if sendClosed {
        return Closed;
      }
      return Blocked;
    }

    /**
     * `send_slice`: empty data succeeds at once; a closed receiver fails;
     * otherwise as much as fits is pushed, and what is left (`rest`) waits
     * for room, to be sent by the next attempt.
     */
    method SendSlice(data: seq<T>) returns (r: Outcome<()>, rest: seq<T>)
      requires Valid()
      modifies this
      ensures Valid() && sendClosed == old(sendClosed) && recvClosed == old(recvClosed)
      ensures received == old(received)
      ensures |data| == 0 ==> r == Done(()) && rest == [] && buffer == old(buffer) && sent == old(sent)
      ensures |data| > 0 && old(recvClosed) ==> r == Closed && rest == data && buffer == old(buffer) && sent == old(sent)
      ensures |data| > 0 && !old(recvClosed) ==>
                var n := Min(capacity - |old(buffer)|, |data|);
                buffer == old(buffer) + data[..n] && sent == old(sent) + data[..n] && rest == data[n..]
                && r == (if n == |data| then Done(()) else Blocked)
    {
      if |data| == 0 {
        return Done(()), [];
      }
      if recvClosed {
        return Closed, data;
      }
      var n := Min(capacity - |buffer|, |data|);
      buffer := buffer + data[..n];
      sent := sent + data[..n];
      rest := data[n..];
      if |rest| == 0 {
        return Done(()), rest;
      }
      return Blocked, rest;
    }

    /**
     * `recv_slice` into a buffer of `len` items: an empty buffer gives 0 at
     * once; otherwise up to `len` front items come out; with none buffered
     * it gives Closed once the sender is closed, and waits otherwise.
     */
    method RecvSlice(len: nat) returns (r: Outcome<seq<T>>)
      requires Valid()
      modifies this
      ensures Valid() && sendClosed == old(sendClosed) && recvClosed == old(recvClosed)
      ensures sent == old(sent)
      ensures len == 0 ==> r == Done([]) && buffer == old(buffer) && received == old(received)
      ensures len > 0 && |old(buffer)| > 0 ==>
                var n := Min(len, |old(buffer)|);
                r == Done(old(buffer)[..n]) && buffer == old(buffer)[n..] && received == old(received) + old(buffer)[..n]
      ensures len > 0 && |old(buffer)| == 0 ==>
                r == (if sendClosed then Closed else Blocked) && buffer == old(buffer) && received == old(received)
      ensures r.Done? ==> |r.value| <= len && (len > 0 && |old(buffer)| > 0 ==> |r.value| > 0)
    {
      if len == 0 {
        return Done([]);
      }
      var n := Min(len, |buffer|);
      if n != 0 {
        var items := buffer[..n];
        assert buffer == items + buffer[n..];
        buffer := buffer[n..];
        received := received + items;
        return Done(items);
      }
      if sendClosed {
        return Closed;
      }
      return Blocked;
    }

    /** `close_send` (also what dropping a `Sender` does). */
    method CloseSend()
      modifies this
      ensures sendClosed && recvClosed == old(recvClosed)
      ensures buffer == old(buffer) && sent == old(sent) && received == old(received)
    {
      sendClosed := true;
    }

    /** `close_recv` (also what dropping a `Receiver` does). */
    method CloseRecv()
      modifies this
      ensures recvClosed && sendClosed == old(sendClosed)
      ensures buffer == old(buffer) && sent == old(sent) && received == old(received)
    {
      recvClosed := true;
    }

    /** `send_closed` (`Receiver::wait_closed`): returns once the sender is closed, waits before. */
    function WaitSendClosed(): (r: Outcome<()>)
      reads this
      ensures r.Done? <==> sendClosed
      ensures !r.Closed?
    {
      if sendClosed then Done(()) else Blocked
    }

    /** `recv_closed` (`Sender::wait_closed`): returns once the receiver is closed, waits before. */
    function WaitRecvClosed(): (r: Outcome<()>)
      reads this
      ensures r.Done? <==> recvClosed
      ensures !r.Closed?
    {
      if recvClosed then Done(()) else Blocked
    }
  }

  /** What came out is always the front of what went in, in order. */
  lemma ReceivedIsPrefix<T>(sent: seq<T>, received: seq<T>, buffer: seq<T>)
    requires sent == received + buffer
    ensures |received| <= |sent| && received == sent[..|received|]
  {
    assert (received + buffer)[..|received|] == received;
  }

  /**
   * Bytes pushed by `send_slice` come back unchanged from `recv_slice`,
   * and once the sender is closed and the buffer drained, the receiver
   * sees Closed.
   */
  method SliceRoundTrip()
  {
    var ch := new Channel<u8>(PIPE_CAPACITY);
    var data: seq<u8> := [1, 2, 3];
    var s, rest := ch.SendSlice(data);
    assert data[..3] == data;
    assert s == Done(()) && rest == [] && ch.buffer == data;
    ch.CloseSend();
    var r := ch.RecvSlice(8);
    assert data[..3] == data;
    assert r == Done(data);
    var end := ch.RecvSlice(8);
    assert end == Closed;
  }

  /** A full buffer keeps a blocked send's item out until the receiver makes room. */
  method FullThenRoom()
  {
    var ch := new Channel<u8>(1);
    var a := ch.Send(7);
    var b := ch.Send(8);
    assert a == Done(()) && b == Blocked && ch.buffer == [7];
    var x := ch.Recv();
    assert x == Done(7);
    var c := ch.Send(8);
    assert c == Done(()) && ch.buffer == [8];
    ch.CloseRecv();
    var d := ch.Send(9);
    assert d == Closed;
  }
}
