/**
 The pipe ring of kernel/task.c: a fixed buffer that behaves as a queue of bytes.
 */
module Pipe {
  import opened Bytes

  const PIPE_SIZE: nat := 4096

  class Ring {
    const data: array<Byte>
    var head: nat
    var count: nat

    ghost predicate Valid()
      reads this
    {
      data.Length == PIPE_SIZE && head < PIPE_SIZE && count <= PIPE_SIZE
    }

    /** The bytes in the pipe, oldest first. */
    ghost function Queue(): (q: seq<Byte>)
      requires Valid()
      reads this, data
      ensures |q| == count
    {
      seq(count, i requires 0 <= i < count reads this, data requires Valid() => data[Wrap(head + i)])
    }

    constructor ()
      ensures Valid() && Queue() == [] && fresh(data)
    {
      data := new Byte[PIPE_SIZE];
      head, count := 0, 0;
    }

    /** Takes the oldest bytes, as many as are asked for and there. */
    method Read(len: nat) returns (buf: seq<Byte>)
      requires Valid()
      modifies this
      ensures Valid()
      ensures |buf| == if len < old(count) then len else old(count)
      ensures old(Queue()) == buf + Queue()
    {
      hide Wrap;
      var done := if len < count then len else count;
      buf := [];
      var i := 0;
      ghost var start := head;
      while i < done
        invariant 0 <= i <= done && count == old(count) && head == Wrap(start + i)
        invariant buf == old(Queue())[..i]
      {
        buf := buf + [data[head]];
        head := Wrap(head + 1);
        i := i + 1;
      }
      count := count - done;
      forall k | 0 <= k < count ensures Queue()[k] == old(Queue())[done + k] {
        assert Wrap(head + k) == Wrap(start + (done + k));
      }
      assert old(Queue()) == buf + Queue();
    }

    /** Adds a prefix of `buf` behind the queue, as much as fits. */
    method Write(buf: seq<Byte>) returns (done: nat)
      requires Valid()
      modifies this, data
      ensures Valid()
      ensures done == if |buf| < PIPE_SIZE - old(count) then |buf| else PIPE_SIZE - old(count)
      ensures Queue() == old(Queue()) + buf[..done]
    {
      hide Wrap;
      done := if |buf| < PIPE_SIZE - count then |buf| else PIPE_SIZE - count;
      var i := 0;
      while i < done
        invariant 0 <= i <= done && head == old(head) && count == old(count)
        invariant forall k :: 0 <= k < count ==> data[Wrap(head + k)] == old(Queue())[k]
        invariant forall k :: 0 <= k < i ==> data[Wrap(head + count + k)] == buf[k]
      {
        data[Wrap(head + count + i)] := buf[i];
        i := i + 1;
      }
      count := count + done;
      forall k | 0 <= k < count ensures Queue()[k] == (old(Queue()) + buf[..done])[k] {
        assert k >= old(count) ==> Queue()[k] == data[Wrap(head + old(count) + (k - old(count)))];
      }
    }
  }

  function Wrap(n: nat): (r: nat)
    ensures r < 4096
    ensures n < 8192 ==> r == if n < 4096 then n else n - 4096
  {
    n % 4096
  }
}
