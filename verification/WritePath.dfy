/** The stream write path of event/nio.c: hio_write4, nio_write and the writable branch of hio_handle_events. */
module WritePath {

  import opened Basics
  import opened Queue

  /** offset_buf_t of a stream: the bytes from offset on are still to be written. */
  datatype OffsetBuf = OffsetBuf(base: Bytes, offset: nat)

  /** What write or send returns, at most the bytes offered; Again stands for EAGAIN and EINTR. */
  datatype Kernel = Again | Wrote(n: nat) | Error

  predicate WellFormed(b: OffsetBuf) { b.offset <= |b.base| }

  ghost predicate Formed(q: seq<OffsetBuf>) { forall i :: 0 <= i < |q| ==> WellFormed(q[i]) }

  function Unwritten(b: OffsetBuf): Bytes
    requires WellFormed(b)
  {
    b.base[b.offset..]
  }

  /** The bytes waiting in the queue, in order. */
  ghost function Pending(q: seq<OffsetBuf>): Bytes
    requires Formed(q)
  {
    if q == [] then [] else Unwritten(q[0]) + Pending(q[1..])
  }

  /** Every buffer of the queue still has bytes to write, and only the first may be written in part. */
  ghost predicate Lined(q: seq<OffsetBuf>) {
    (forall i :: 0 <= i < |q| ==> q[i].offset < |q[i].base|) && (forall i :: 1 <= i < |q| ==> q[i].offset == 0)
  }

  lemma ConcatNone(writes: seq<Bytes>, w: Bytes)
    ensures writes[..0] == [] && w + Concat(writes[..0]) == w && w <= w + Concat(writes)
    ensures writes == [] ==> w + Concat(writes) == w
  {
    assert Concat([]) == [];
  }

  lemma ConcatOne(writes: seq<Bytes>, i: nat, w: Bytes)
    requires i < |writes|
    ensures w + Concat(writes[..i + 1]) == w + Concat(writes[..i]) + writes[i]
  {
    assert writes[..i + 1][..i] == writes[..i];
    ConcatLast(writes[..i + 1]);
    hide Concat;
    assert w + (Concat(writes[..i]) + writes[i]) == w + Concat(writes[..i]) + writes[i];
  }

  class WriteIo {
    const queue: Queue<OffsetBuf>
    const max: nat // max_write_bufsize
    var bufsize: nat // write_bufsize
    var armed: bool // HV_WRITE in io->events
    var failed: bool // a write failed: the connection is closed
    var accepted: Bytes // what the kernel has taken
    ghost var written: Bytes // the arguments of all successful writes, in order

    /** No byte is lost or out of order, and a queue that is not empty is armed. */
    ghost predicate Balanced()
      reads this, queue, queue.ptr
    {
      && queue.Valid() && Formed(queue.Contents())
      && !failed
      && accepted + Pending(queue.Contents()) == written
      && bufsize == |Pending(queue.Contents())| && bufsize <= max
      && (queue.Contents() != [] ==> armed)
    }

    ghost predicate Valid()
      reads this, queue, queue.ptr
    {
      Balanced() && Lined(queue.Contents())
    }

    constructor (max: nat)
      ensures Valid() && fresh(queue) && fresh(queue.ptr) && written == [] && this.max == max
    {
      this.max := max;
      queue := new Queue<OffsetBuf>(0);
      bufsize, armed, failed, accepted, written := 0, false, false, [], [];
    }

    /** Appends what the kernel did not take to the queue. */
    method Enqueue(rest: Bytes)
      requires queue.Valid() && Formed(queue.Contents())
      modifies queue, queue.ptr, this`bufsize
      ensures queue.Valid() && (queue.ptr == old(queue.ptr) || fresh(queue.ptr))
      ensures queue.Contents() == old(queue.Contents()) + [OffsetBuf(rest, 0)]
      ensures queue.Contents() != [] && Formed(queue.Contents())
      ensures Pending(queue.Contents()) == old(Pending(queue.Contents())) + rest
      ensures bufsize == old(bufsize) + |rest|
    {
      PendingAppend(queue.Contents(), rest);
      queue.PushBack(OffsetBuf(rest, 0));
      bufsize := bufsize + |rest|;
    }

    /** The write that hio_write4 tries when the queue is empty; nwrite is -1 when it fails. */
    method Direct(buf: Bytes, kernel: Kernel) returns (nwrite: int)
      requires !failed
      modifies `accepted, `armed, `failed
      ensures failed <==> kernel.Error? || (kernel.Wrote? && kernel.n == 0 && buf != [])
      ensures nwrite == if failed then -1 else Taken(kernel, buf)
      ensures !failed ==> accepted == old(accepted) + buf[..nwrite]
      ensures !failed ==> armed == (old(armed) || kernel.Again? || nwrite < |buf|)
    {
      nwrite := 0;
      assert accepted + buf[..0] == accepted;
      match kernel {
        case Error =>
          failed := true;
          return -1;
        case Again =>
          armed := true;
        case Wrote(n) =>
          nwrite := Taken(kernel, buf);
          if nwrite == |buf| {
            accepted := accepted + buf[..nwrite];
            return;
          }
          if nwrite == 0 {
            failed := true;
            return -1;
          }
          accepted := accepted + buf[..nwrite];
          armed := true;
      }
    }

    /** The end of hio_write4: what is left of buf after nwrite bytes goes to the queue, if it has room. */
    method KeepRest(buf: Bytes, nwrite: nat, ghost start: Bytes)
      requires queue.Valid() && Formed(queue.Contents()) && !failed
      requires nwrite <= |buf| && (nwrite == 0 || queue.Contents() == [])
      requires accepted == start + buf[..nwrite] && start + Pending(queue.Contents()) == written
      requires bufsize == |Pending(queue.Contents())| && bufsize <= max
      requires queue.Contents() != [] || nwrite < |buf| ==> armed
      modifies queue, queue.ptr, `bufsize, `failed, `written
      ensures queue.ptr == old(queue.ptr) || fresh(queue.ptr)
      ensures failed <==> nwrite < |buf| && old(bufsize) + (|buf| - nwrite) > max
      ensures failed ==> written == old(written)
      ensures !failed ==> Balanced() && written == old(written) + buf
      ensures !failed ==> queue.Contents() == old(queue.Contents()) + Left(buf, nwrite)
    {
      hide Pending;
      NonePending();
      assert queue.Contents() + [] == queue.Contents();
      Balance(start, Pending(queue.Contents()), written, buf, nwrite);
      if nwrite < |buf| {
        if bufsize + (|buf| - nwrite) > max {
          failed := true;
          return;
        }
        Enqueue(buf[nwrite..]);
      }
      written := written + buf;
    }

    /** hio_write4 on an open stream; kernel is the result of the one write it may try. */
    method Write(buf: Bytes, kernel: Kernel) returns (nwrite: int)
      requires Balanced()
      modifies this, queue, queue.ptr
      ensures queue.ptr == old(queue.ptr) || fresh(queue.ptr)
      ensures written == if failed then old(written) else old(written) + buf
      ensures !failed ==> Balanced() && 0 <= nwrite <= |buf|
      ensures !failed ==> queue.Contents() == old(queue.Contents()) + Left(buf, nwrite)
      ensures failed <==> nwrite == -1
      ensures old(queue.Contents()) != [] && !failed ==> accepted == old(accepted) && nwrite == 0
      ensures old(queue.Contents()) == [] && !failed && kernel.Wrote? && kernel.n <= |buf| ==>
        nwrite == kernel.n && accepted == old(accepted) + buf[..kernel.n]
      ensures old(queue.Contents()) == [] && !failed && kernel.Again? ==> nwrite == 0 && accepted == old(accepted) && armed
      ensures failed <==>
        if old(queue.Contents()) == [] then
          kernel.Error? || (kernel.Wrote? && kernel.n == 0 && buf != []) || (|buf| - Taken(kernel, buf) > max && Taken(kernel, buf) < |buf|)
        else buf != [] && old(bufsize) + |buf| > max
    {
      hide Pending;
      NonePending();
      ghost var start := accepted;
      nwrite := 0;
      assert accepted + buf[..0] == accepted;
      var empty := queue.Empty();
      if empty {
        nwrite := Direct(buf, kernel);
        if nwrite < 0 { return; }
      }
      KeepRest(buf, nwrite, start);
      if failed { nwrite := -1; }
    }

    /** A write_cb that writes to the stream, while the queue is not empty. */
    method WriteCallback(writes: seq<Bytes>)
      requires Balanced() && queue.Contents() != []
      modifies this, queue, queue.ptr
      ensures queue.ptr == old(queue.ptr) || fresh(queue.ptr)
      ensures !failed ==> Balanced() && Extends(old(queue.Contents()), queue.Contents()) && accepted == old(accepted)
      ensures !failed ==> written == old(written) + Concat(writes)
      ensures writes == [] ==> !failed && queue.Contents() == old(queue.Contents()) && bufsize == old(bufsize)
    {
      hide Pending, Lined, Formed, Extends, Concat;
      ConcatNone(writes, written);
      ExtendsSelf(queue.Contents());
      for i := 0 to |writes|
        invariant queue.ptr == old(queue.ptr) || fresh(queue.ptr)
        invariant !failed && Balanced() && Extends(old(queue.Contents()), queue.Contents()) && accepted == old(accepted)
        invariant written == old(written) + Concat(writes[..i])
        invariant queue.Contents() != []
        invariant i == 0 ==> queue.Contents() == old(queue.Contents()) && bufsize == old(bufsize)
      {
        ghost var before := queue.Contents();
        var nwrite := Write(writes[i], Again);
        if failed { return; }
        ExtendsMore(old(queue.Contents()), before, writes[i], nwrite);
        ConcatOne(writes, i, old(written));
      }
      assert writes[..|writes|] == writes;
    }

    lemma Facts()
      requires Valid()
      ensures queue.Valid() && !failed && Formed(queue.Contents()) && Lined(queue.Contents())
      ensures |Pending(queue.Contents())| == bufsize && (queue.Contents() == [] ==> accepted == written)
    {
      AllAccepted(accepted, written);
    }

    /** The kernel has taken nwrite bytes of the front of the queue. */
    method Advance(pbuf: OffsetBuf, nwrite: nat)
      requires Balanced() && queue.Contents() != [] && pbuf == queue.Contents()[0]
      requires WellFormed(pbuf) && 1 <= nwrite <= |Unwritten(pbuf)|
      modifies `bufsize, `accepted, queue.ptr
      ensures Balanced() && bufsize <= old(bufsize) && accepted == old(accepted) + Unwritten(pbuf)[..nwrite]
      ensures queue.Contents() == [pbuf.(offset := pbuf.offset + nwrite)] + old(queue.Contents())[1..]
    {
      hide Pending, Formed;
      FrontWritten(queue.Contents(), nwrite);
      queue.SetFront(pbuf.(offset := pbuf.offset + nwrite));
      bufsize := bufsize - nwrite;
      ghost var taken := Unwritten(pbuf)[..nwrite];
      Associative(accepted, taken, Pending(queue.Contents()));
      accepted := accepted + Unwritten(pbuf)[..nwrite];
    }

    /** One turn of the loop of nio_write on a queue that is not empty; more tells whether it goes on. */
    method WriteFront(kernel: Kernel, writes: seq<Bytes>) returns (more: bool)
      requires Valid() && queue.Contents() != []
      modifies this, queue, queue.ptr
      ensures queue.ptr == old(queue.ptr) || fresh(queue.ptr)
      ensures !failed ==> Valid() && (kernel.Again? || written == old(written) + Concat(writes))
      ensures !failed && kernel.Again? ==> written == old(written)
      ensures var buf := Unwritten(old(queue.Contents())[0]);
        && (!failed ==> accepted == old(accepted) + buf[..Taken(kernel, buf)])
        && (!failed && kernel.Wrote? && kernel.n <= |buf| ==> accepted == old(accepted) + buf[..kernel.n])
        && (more <==> !failed && Taken(kernel, buf) == |buf|)
        && (!failed && !more && kernel.Wrote? ==> queue.Contents() != [] && queue.Contents()[0].offset > 0)
        && (kernel.Error? ==> failed) && (failed && writes == [] ==> kernel.Error? || kernel == Wrote(0))
        && (more && writes == [] ==> queue.Contents() == old(queue.Contents())[1..] && bufsize <= old(bufsize))
    {
      hide Pending, Lined, Formed, Extends;
      LinedFront(queue.Contents());
      var pbuf := queue.Front();
      var buf := Unwritten(pbuf);
      match kernel {
        case Again => return false;
        case Error =>
          failed := true;
          return false;
        case Wrote(_) =>
      }
      var nwrite := Taken(kernel, buf);
      if nwrite == 0 {
        failed := true;
        return false;
      }
      Advance(pbuf, nwrite);
      ghost var during := queue.Contents();
      WriteCallback(writes);
      if failed { return false; }
      LinedExtended(old(queue.Contents()), nwrite, during, queue.Contents());
      if nwrite == |buf| {
        FrontDone(queue.Contents());
        queue.PopFront();
        return true;
      }
      return false;
    }

    /**
      nio_write: the kernel's answers, and what the callback of each write writes. The loop stops at
      an empty queue, at the end of the answers, at EAGAIN or after a write in part; turns counts the
      answers it has used.
      */
    method NioWrite(kernel: seq<Kernel>, writes: nat -> seq<Bytes>) returns (turns: nat)
      requires Valid()
      modifies this, queue, queue.ptr
      ensures queue.ptr == old(queue.ptr) || fresh(queue.ptr)
      ensures !failed ==> Valid() && old(accepted) <= accepted && old(written) <= written
      ensures !failed && (forall i: nat :: writes(i) == []) ==> written == old(written)
      ensures old(queue.Contents()) == [] ==> armed == old(armed) && accepted == old(accepted) && !failed
      ensures turns <= |kernel|
      ensures !failed ==> Stops(queue.Contents(), kernel, turns)
      ensures Willing(kernel, old(bufsize), |old(queue.Contents())|) && (forall i: nat :: writes(i) == []) ==>
        !failed && queue.Contents() == [] && accepted == written == old(written)
    {
      hide Pending, Lined, Stops, Willing, Formed, Concat, Drains, Unwritten, Taken, queue.Contents, Valid, Balanced;
      Facts();
      ghost var q := queue.Contents();
      ghost var silent := forall i: nat :: writes(i) == [];
      ghost var willing := silent && Willing(kernel, bufsize, |q|);
      turns := 0;
      var more := true;
      DrainStart(kernel, bufsize, q);
      while more
        invariant queue.ptr == old(queue.ptr) || fresh(queue.ptr)
        invariant turns <= |kernel| && !failed && queue.Valid() && Valid() && old(accepted) <= accepted && old(written) <= written
        invariant silent ==> written == old(written)
        invariant old(queue.Contents()) == [] ==> armed == old(armed) && accepted == old(accepted) && queue.Contents() == []
        invariant !more ==> Stops(queue.Contents(), kernel, turns)
        invariant willing ==> more && Drains(kernel, old(bufsize), q, turns, queue.Contents()) && bufsize <= old(bufsize)
        decreases |kernel| - turns, more
      {
        Facts();
        var empty := queue.Empty();
        if empty {
          StopsAt(queue.Contents(), kernel, turns);
          return;
        }
        if willing { DrainTurn(kernel, old(bufsize), q, turns, queue.Contents()); }
        if turns == |kernel| { StopsAt(queue.Contents(), kernel, turns); return; }
        ghost var w := written;
        more := WriteFront(kernel[turns], writes(turns));
        if failed { return; }
        Facts();
        ConcatNone(writes(turns), w);
        turns := turns + 1;
        StopsAt(queue.Contents(), kernel, turns);
      }
    }

    /** hio_handle_events on a writable stream. */
    method OnWritable(kernel: seq<Kernel>, writes: nat -> seq<Bytes>) returns (turns: nat)
      requires Valid()
      modifies this, queue, queue.ptr
      ensures queue.ptr == old(queue.ptr) || fresh(queue.ptr)
      ensures !failed ==> Valid() && old(accepted) <= accepted && old(written) <= written
      ensures !failed && (forall i: nat :: writes(i) == []) ==> written == old(written)
      ensures old(armed) && old(queue.Contents()) == [] && !failed ==> !armed
      ensures turns <= |kernel|
      ensures !failed ==> Stops(queue.Contents(), kernel, turns)
      ensures Willing(kernel, old(bufsize), |old(queue.Contents())|) && (forall i: nat :: writes(i) == []) ==>
        !failed && queue.Contents() == [] && accepted == written == old(written)
    {
      hide Pending, Lined, Stops, Willing, Formed;
      turns := 0;
      if armed {
        var empty := queue.Empty();
        if empty { armed := false; }
        turns := NioWrite(kernel, writes);
      } else {
        StopsAt(queue.Contents(), kernel, turns);
        AllAccepted(accepted, written);
      }
    }
  }

  /** What hio_write4 puts into the queue after a write of n bytes. */
  function Left(buf: Bytes, n: nat): seq<OffsetBuf>
    requires n <= |buf|
  {
    if n < |buf| then [OffsetBuf(buf[n..], 0)] else []
  }

  /** q with more buffers of which nothing has been written. */
  ghost predicate Extends(q: seq<OffsetBuf>, q': seq<OffsetBuf>) {
    q <= q' && forall i :: |q| <= i < |q'| ==> q'[i].offset == 0 < |q'[i].base|
  }

  lemma ExtendsSelf(q: seq<OffsetBuf>)
    ensures Extends(q, q)
  {
  }

  lemma ExtendsMore(q: seq<OffsetBuf>, q': seq<OffsetBuf>, buf: Bytes, n: nat)
    requires Extends(q, q') && n <= |buf|
    ensures Extends(q, q' + Left(buf, n))
  {
  }

  /** Why the drain loop has stopped after that many answers. */
  ghost predicate Stops(q: seq<OffsetBuf>, kernel: seq<Kernel>, turns: nat) {
    q == [] || turns == |kernel| ||
    (0 < turns <= |kernel| && (kernel[turns - 1].Again? || (kernel[turns - 1].Wrote? && q[0].offset > 0)))
  }

  lemma StopsAt(q: seq<OffsetBuf>, kernel: seq<Kernel>, turns: nat)
    requires turns <= |kernel|
    ensures q == [] || turns == |kernel| ==> Stops(q, kernel, turns)
    ensures turns > 0 && kernel[turns - 1].Again? ==> Stops(q, kernel, turns)
    ensures turns > 0 && kernel[turns - 1].Wrote? && q != [] && q[0].offset > 0 ==> Stops(q, kernel, turns)
  {
  }

  /** A kernel that takes whatever it is offered, for n buffers. */
  ghost predicate Willing(kernel: seq<Kernel>, size: nat, n: nat) {
    |kernel| >= n && forall i :: 0 <= i < |kernel| ==> kernel[i].Wrote? && kernel[i].n >= size
  }

  /** After turns answers, the rest of q0 is left. */
  ghost predicate Drains(kernel: seq<Kernel>, size: nat, q0: seq<OffsetBuf>, turns: nat, q: seq<OffsetBuf>) {
    Willing(kernel, size, |q0|) && turns <= |q0| && q == q0[turns..]
  }

  lemma DrainStart(kernel: seq<Kernel>, size: nat, q: seq<OffsetBuf>)
    ensures Willing(kernel, size, |q|) ==> Drains(kernel, size, q, 0, q)
  {
    assert q[0..] == q;
  }

  /** A willing kernel takes the whole front of what is left of q0. */
  lemma DrainTurn(kernel: seq<Kernel>, size: nat, q0: seq<OffsetBuf>, turns: nat, q: seq<OffsetBuf>)
    requires Drains(kernel, size, q0, turns, q) && q != []
    requires Formed(q) && Lined(q) && |Pending(q)| <= size
    ensures turns < |kernel| && kernel[turns].Wrote? && kernel[turns].n > 0
    ensures Taken(kernel[turns], Unwritten(q[0])) == |Unwritten(q[0])|
    ensures Drains(kernel, size, q0, turns + 1, q[1..])
  {
    FrontSize(q);
    LinedFront(q);
  }

  lemma AllAccepted(accepted: Bytes, written: Bytes)
    ensures Formed([]) && (accepted + Pending([]) == written ==> accepted == written)
  {
    assert accepted + [] == accepted;
  }

  lemma LinedFront(q: seq<OffsetBuf>)
    requires q != [] && Lined(q)
    ensures WellFormed(q[0]) && |Unwritten(q[0])| >= 1
  {
  }

  /** The queue after a write of n bytes of its front, and after the callback has put more behind it. */
  lemma LinedExtended(q: seq<OffsetBuf>, n: nat, during: seq<OffsetBuf>, after: seq<OffsetBuf>)
    requires q != [] && Lined(q) && 1 <= n <= |q[0].base| - q[0].offset
    requires during == [q[0].(offset := q[0].offset + n)] + q[1..] && Extends(during, after)
    ensures after != [] && after[0] == during[0] && after[0].offset > 0
    ensures q[0].offset + n == |q[0].base| ==> Lined(after[1..]) && (after == during ==> after[1..] == q[1..])
    ensures q[0].offset + n < |q[0].base| ==> Lined(after)
  {
    assert after[0] == during[0];
    forall i | 1 <= i < |after| ensures after[i].offset == 0 < |after[i].base| {
      if i < |during| { assert after[i] == during[i] == q[i]; }
    }
  }

  lemma FrontSize(q: seq<OffsetBuf>)
    requires q != [] && Formed(q)
    ensures |Unwritten(q[0])| <= |Pending(q)|
  {
  }

  /** The bytes a successful write takes of buf. */
  function Taken(kernel: Kernel, buf: Bytes): nat {
    if kernel.Wrote? then (if kernel.n <= |buf| then kernel.n else |buf|) else 0
  }

  lemma NonePending()
    ensures Pending([]) == []
  {
  }

  /** The bytes go on in order: the first n of buf to the kernel, which is possible only past an empty queue. */
  lemma Balance(accepted: Bytes, pending: Bytes, written: Bytes, buf: Bytes, n: nat)
    requires accepted + pending == written && n <= |buf| && (n == 0 || pending == [])
    ensures (accepted + buf[..n]) + (pending + buf[n..]) == written + buf
    ensures n == |buf| ==> pending + buf[n..] == pending
    ensures n == 0 ==> accepted + buf[..n] == accepted
  {
    assert buf == buf[..n] + buf[n..];
  }

  lemma {:induction false} PendingAppend(q: seq<OffsetBuf>, rest: Bytes)
    requires Formed(q)
    ensures Formed(q + [OffsetBuf(rest, 0)])
    ensures Pending(q + [OffsetBuf(rest, 0)]) == Pending(q) + rest
  {
    var q' := q + [OffsetBuf(rest, 0)];
    if q == [] {
      assert q'[1..] == [];
    } else {
      PendingAppend(q[1..], rest);
      assert q'[1..] == q[1..] + [OffsetBuf(rest, 0)];
    }
  }

  lemma FrontWritten(q: seq<OffsetBuf>, n: nat)
    requires q != [] && Formed(q) && n <= |Unwritten(q[0])|
    ensures var q' := [q[0].(offset := q[0].offset + n)] + q[1..];
      && Formed(q')
      && Unwritten(q[0])[..n] + Pending(q') == Pending(q)
      && (n == |Unwritten(q[0])| ==> Unwritten(q'[0]) == [])
  {
    var q' := [q[0].(offset := q[0].offset + n)] + q[1..];
    var u := Unwritten(q[0]);
    assert q'[1..] == q[1..];
    assert forall b :: b in q[1..] ==> b in q;
    assert Unwritten(q'[0]) == u[n..];
    Cut(u, n, Pending(q[1..]));
  }

  lemma Cut(u: Bytes, n: nat, rest: Bytes)
    requires n <= |u|
    ensures u[..n] + (u[n..] + rest) == u + rest
  {
  }

  lemma FrontDone(q: seq<OffsetBuf>)
    requires q != [] && Formed(q) && Unwritten(q[0]) == []
    ensures Formed(q[1..]) && Pending(q[1..]) == Pending(q)
  {
    assert forall b :: b in q[1..] ==> b in q;
  }
}
