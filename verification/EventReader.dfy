/**
 The intercepted read(): whole fixed-size events out of a byte stream whose recv() may be
 short, interrupted, non-blocking, at end of file or failing, while other threads open, close
 and read their own handles.

 The kernel and the other threads are a finite script. Each recv() consumes one entry: the
 table operations other threads performed meanwhile, then the reply. A read() that runs off the
 end of the script is still blocked, so quantifying over scripts covers every instant of every run.
 */
module EventReader {
  import opened Wrappers
  import opened HandleTable

  datatype Errno = EAGAIN | EINTR | EINVAL | Hard(code: int)

  /** Data([]) is end of file; a longer reply is cut to what recv() asked for. */
  datatype Reply = Data(bytes: seq<Byte>) | Fail(errno: Errno)

  /** `elapsedMs` and `pollRc` are what the drain loop sees after an EAGAIN reply. */
  datatype Tick = Tick(others: seq<TableOp>, reply: Reply, elapsedMs: int, pollRc: int)

  datatype Outcome = Got(bytes: seq<Byte>) | Failed(errno: Errno) | Blocked
  datatype Progress = Complete | Short | Stuck

  /** Bytes(0) is end of file; Unfinished is a call that has not returned yet. */
  datatype ReadResult = Bytes(n: nat) | Error(errno: Errno) | Unfinished

  /** One read() call: buffer size, O_NONBLOCK as fcntl reports it, other threads' work before it. */
  datatype Call = Call(count: nat, sockNonblocking: Option<bool>, before: seq<TableOp>)

  const DRAIN_BUDGET_MS := 10
  const O_NONBLOCK := 0x800

  ghost predicate Foreign(ops: seq<TableOp>, fd: int) {
    forall k :: 0 <= k < |ops| ==> ops[k].fd != fd
  }

  ghost predicate ScriptForeign(script: seq<Tick>, fd: int) {
    forall k :: 0 <= k < |script| ==> Foreign(script[k].others, fd)
  }

  // ----- What a call answers, from the replies alone

  /** A blocking handle waits for the rest of the event; only a signal on empty hands gets through. */
  function WaitFor(size: nat, script: seq<Tick>, held: nat): ReadResult
    requires held <= size
    decreases |script|
  {
    if held == size then Bytes(size)
    else if script == [] then Unfinished
    else match script[0].reply
      case Data(bytes) =>
        if bytes == [] then Bytes(0) else WaitFor(size, script[1..], held + Min(size - held, |bytes|))
      case Fail(e) =>
        if e == EINTR && held > 0 then WaitFor(size, script[1..], held) else Error(e)
  }

  /** A non-blocking handle that holds part of an event waits for the rest within its budget. */
  function DrainWithin(size: nat, script: seq<Tick>, held: nat): ReadResult
    requires held <= size
    decreases |script|
  {
    if held == size then Bytes(size)
    else if script == [] then Unfinished
    else match script[0].reply
      case Data(bytes) =>
        if bytes == [] then Error(EAGAIN) else DrainWithin(size, script[1..], held + Min(size - held, |bytes|))
      case Fail(e) =>
        if e == EAGAIN && script[0].elapsedMs < DRAIN_BUDGET_MS && script[0].pollRc > 0
        then DrainWithin(size, script[1..], held) else Error(EAGAIN)
  }

  /** A whole event is to be had. */
  predicate ShowsWhole(size: nat, script: seq<Tick>) {
    script != [] && script[0].reply.Data? && |script[0].reply.bytes| >= size
  }

  /** A non-blocking handle that holds nothing looks first. */
  function LookFirst(size: nat, script: seq<Tick>): ReadResult
    requires size > 0
  {
    if script == [] then Unfinished
    else if script[0].reply.Fail? then Error(script[0].reply.errno)
    else if script[0].reply.bytes == [] then Bytes(0)
    else if !ShowsWhole(size, script) then Error(EAGAIN)
    else if |script| == 1 then Unfinished
    else match script[1].reply
      case Fail(e) => Error(e)
      case Data(bytes) => if bytes == [] then Bytes(0) else DrainWithin(size, script[2..], Min(size, |bytes|))
  }

  /** What read() returns, for a handle of this event size and mode that holds `held` stashed bytes. */
  function AnswerTo(size: nat, count: nat, blocking: bool, held: nat, script: seq<Tick>): ReadResult
    requires held < size
  {
    if count == 0 then Bytes(0)
    else if count < size then Error(EINVAL)
    else if blocking then WaitFor(size, script, held)
    else if held > 0 then DrainWithin(size, script, held)
    else LookFirst(size, script)
  }

  /** The mode is the socket's own where fcntl tells it, else that of the flags the handle was opened with. */
  predicate Blocking(call: Call, flags: int) {
    match call.sockNonblocking
    case Some(nonblocking) => !nonblocking
    case None => flags / O_NONBLOCK % 2 == 0
  }

  /** Bytes a series of replies holds. */
  function Total(script: seq<Tick>): nat {
    if script == [] then 0
    else (if script[0].reply.Data? then |script[0].reply.bytes| else 0) + Total(script[1..])
  }

  /** Finishing an event of which `held` bytes are there. */
  function Finish(blocking: bool, size: nat, script: seq<Tick>, held: nat): ReadResult
    requires held <= size
  {
    if blocking then WaitFor(size, script, held) else DrainWithin(size, script, held)
  }

  /**
   Reply j does not end the call short: it brings bytes; or, blocking, it is a signal with something of
   the event held; or, non-blocking, there is nothing yet but time is left and poll() sees some coming.
   */
  predicate BringsOn(blocking: bool, script: seq<Tick>, held: nat, j: nat)
    requires j < |script|
  {
    if script[j].reply.Data? then script[j].reply.bytes != []
    else if blocking then script[j].reply.errno == EINTR && held + Total(script[..j]) > 0
    else script[j].reply.errno == EAGAIN && script[j].elapsedMs < DRAIN_BUDGET_MS && script[j].pollRc > 0
  }

  ghost predicate Undisturbed(blocking: bool, script: seq<Tick>, held: nat, k: nat)
    requires k <= |script|
  {
    forall j: nat | j < k :: BringsOn(blocking, script, held, j)
  }

  function Got(script: seq<Tick>): nat
    requires script != []
  {
    if script[0].reply.Data? then |script[0].reply.bytes| else 0
  }

  lemma BringsOnTail(blocking: bool, script: seq<Tick>, held: nat, j: nat)
    requires 0 < j < |script|
    ensures BringsOn(blocking, script, held, j) == BringsOn(blocking, script[1..], held + Got(script), j - 1)
  {
    assert script[..j][0] == script[0] && script[..j][1..] == script[1..][..j - 1];
  }

  lemma FinishStep(blocking: bool, size: nat, script: seq<Tick>, held: nat)
    requires held < size && script != []
    ensures BringsOn(blocking, script, held, 0) ==>
              Finish(blocking, size, script, held)
              == Finish(blocking, size, script[1..], if Got(script) >= size - held then size else held + Got(script))
    ensures !BringsOn(blocking, script, held, 0) ==> Finish(blocking, size, script, held) != Bytes(size)
  {
    assert script[..0] == [];
  }

  lemma TotalStep(script: seq<Tick>, k: nat)
    requires 0 < k <= |script|
    ensures Total(script[..k]) == Got(script) + Total(script[1..][..k - 1])
  {
    assert script[..k][0] == script[0] && script[..k][1..] == script[1..][..k - 1];
  }

  /** A call whose replies complete the event, with nothing between that ends it short, returns it. */
  lemma {:induction false} CompletedIsReturned(blocking: bool, size: nat, script: seq<Tick>, held: nat, k: nat)
    requires held <= size && k <= |script|
    requires Undisturbed(blocking, script, held, k) && held + Total(script[..k]) >= size
    ensures Finish(blocking, size, script, held) == Bytes(size)
    decreases |script|
  {
    hide BringsOn;
    if held < size && k > 0 {
      assert BringsOn(blocking, script, held, 0);
      FinishStep(blocking, size, script, held);
      TotalStep(script, k);
      var rest, more := script[1..], held + Got(script);
      if more < size {
        forall j: nat | j < k - 1 ensures BringsOn(blocking, rest, more, j) {
          BringsOnTail(blocking, script, held, j + 1);
        }
        CompletedIsReturned(blocking, size, rest, more, k - 1);
      }
    }
  }

  /** And a whole event is returned only then. */
  lemma {:induction false} ReturnedIsCompleted(blocking: bool, size: nat, script: seq<Tick>, held: nat) returns (k: nat)
    requires 0 < size && held <= size && Finish(blocking, size, script, held) == Bytes(size)
    ensures k <= |script| && Undisturbed(blocking, script, held, k) && held + Total(script[..k]) >= size
    decreases |script|
  {
    hide BringsOn;
    if held == size {
      k := 0;
    } else {
      FinishStep(blocking, size, script, held);
      if Got(script) >= size - held {
        k := 1;
        TotalStep(script, 1);
      } else {
        var rest := ReturnedIsCompleted(blocking, size, script[1..], held + Got(script));
        k := rest + 1;
        TotalStep(script, k);
        forall j: nat | j < k ensures BringsOn(blocking, script, held, j) {
          if j > 0 {
            BringsOnTail(blocking, script, held, j);
          }
        }
      }
    }
  }

  /** A non-blocking handle that holds nothing and sees a whole event goes on to take it. */
  lemma SeenIsTaken(size: nat, script: seq<Tick>, bytes: seq<Byte>)
    requires 0 < size && |script| > 1 && ShowsWhole(size, script)
    requires script[1].reply == Data(bytes) && bytes != []
    ensures LookFirst(size, script) == Finish(false, size, script[2..], Min(size, |bytes|))
    ensures |bytes| >= size ==> LookFirst(size, script) == Bytes(size)
  {
  }

  // ----- Cutting a stream into events

  ghost predicate AllOfSize<T>(events: seq<seq<T>>, size: nat) {
    forall k :: 0 <= k < |events| ==> |events[k]| == size
  }

  /** The consecutive whole `size`-byte blocks of a stream; a short tail is not a block. */
  function Blocks<T>(stream: seq<T>, size: nat): (r: seq<seq<T>>)
    requires size > 0
    ensures AllOfSize(r, size)
  {
    if |stream| < size then [] else [stream[..size]] + Blocks(stream[size..], size)
  }

  /**
   Conservation plus "every delivery is one event" pins the deliveries down completely: they
   are the stream's whole blocks, in order, none missing and none twice.
   */
  lemma {:induction false} DeliveriesAreTheStream<T>(events: seq<seq<T>>, rest: seq<T>, stream: seq<T>, size: nat)
    requires size > 0 && AllOfSize(events, size) && |rest| < size
    requires Flatten(events) + rest == stream
    ensures events == Blocks(stream, size)
  {
    if events != [] {
      assert stream == events[0] + (Flatten(events[1..]) + rest);
      assert stream[..size] == events[0] && stream[size..] == Flatten(events[1..]) + rest;
      DeliveriesAreTheStream(events[1..], rest, stream[size..], size);
    }
  }

  /** Bytes inherited at publish time can never be absorbed: the stream is right iff there were none. */
  lemma InheritedBytesNeverVanish(flat: seq<Byte>, inflight: seq<Byte>, stash: seq<Byte>, initial: seq<Byte>,
                                  dequeued: seq<Byte>)
    requires flat + inflight + stash == initial + dequeued
    ensures flat + inflight + stash == dequeued <==> initial == []
  {
    assert |flat + inflight + stash| == |initial| + |dequeued|;
  }

  /** How many of a series of calls returned an event. */
  function Positive(results: seq<ReadResult>): nat {
    if results == [] then 0 else
      var n := |results| - 1;
      Positive(results[..n]) + if results[n].Bytes? && results[n].n > 0 then 1 else 0
  }

  lemma PositiveSnoc(results: seq<ReadResult>, r: ReadResult)
    ensures Positive(results + [r]) == Positive(results) + if r.Bytes? && r.n > 0 then 1 else 0
  {
    assert (results + [r])[..|results|] == results;
  }

  /** Every one of n calls was made and returned, except that the last one made may still be blocked. */
  predicate Finished(results: seq<ReadResult>, n: nat) {
    && |results| <= n
    && (|results| < n ==> results != [] && results[|results| - 1].Unfinished?)
    && forall k | 0 <= k < |results| - 1 :: !results[k].Unfinished?
  }

  class Reader {
    const table: Interposer
    const fd: int
    const dev: nat
    const kind: Kind
    var script: seq<Tick>

    ghost const initial: seq<Byte>            // stash the handle was published with
    ghost var handle: nat                     // where other threads have moved the handle
    ghost var dequeued: seq<Byte>             // taken out of the kernel buffer
    ghost var delivered: seq<seq<Byte>>       // buffers of the calls that returned bytes
    ghost var inflight: seq<Byte>             // held in read()'s locals
    ghost var lost: nat                       // stash bytes thrown away by undersized reads
    ghost var last: Option<Reply>             // the last recv() reply of the current call

    ghost predicate Positioned()
      reads this, table
    {
      && TableOk(table.slots) && fd >= 0
      && OwnedAt(table.slots, fd, dev, handle)
      && table.slots[dev].kind == kind
      && ScriptForeign(script, fd)
    }

    ghost function Stash(): seq<Byte>
      requires Positioned()
      reads this, table
    {
      table.slots[dev].handles[handle].partial
    }

    ghost function Flags(): int
      requires Positioned()
      reads this, table
    {
      table.slots[dev].handles[handle].flags
    }

    /** Byte conservation, exact as long as no undersized read has dropped a stash. */
    ghost predicate Accounted()
      requires Positioned()
      reads this, table
    {
      && AllOfSize(delivered, EventSize(kind))
      && |Flatten(delivered)| + |inflight| + |Stash()| + lost == |initial| + |dequeued|
      && (lost == 0 ==> Flatten(delivered) + inflight + Stash() == initial + dequeued)
    }

    /** Nothing dequeued from the kernel is missing, repeated or out of order. */
    ghost predicate Conserved()
      requires Positioned()
      reads this, table
    {
      Flatten(delivered) + inflight + Stash() == initial + dequeued
    }

    lemma ConservedIffNothingLost()
      requires Positioned() && Accounted()
      ensures Conserved() <==> lost == 0
    {
      assert |Flatten(delivered) + inflight + Stash()| == |initial + dequeued| - lost;
    }

    ghost predicate Valid()
      reads this, table
    {
      Positioned() && Accounted() && inflight == [] && |Stash()| < EventSize(kind)
    }

    constructor (table: Interposer, fd: int, dev: nat, ghost handle: nat, script: seq<Tick>)
      requires TableOk(table.slots) && fd >= 0 && OwnedAt(table.slots, fd, dev, handle)
      requires ScriptForeign(script, fd)
      requires |table.slots[dev].handles[handle].partial| < EventSize(table.slots[dev].kind)
      ensures Valid() && fresh(this)
      ensures this.table == table && this.fd == fd && this.script == script
      ensures initial == Stash() && dequeued == [] && delivered == [] && lost == 0
    {
      this.table, this.fd, this.dev, this.script := table, fd, dev, script;
      this.kind := table.slots[dev].kind;
      this.initial := table.slots[dev].handles[handle].partial;
      this.handle := handle;
      this.dequeued, this.delivered, this.inflight, this.lost, this.last := [], [], [], 0, None;
    }

    /** Other threads' critical sections: they may move this handle, never touch its stash. */
    method LetOthersRun(ops: seq<TableOp>)
      requires Positioned() && Foreign(ops, fd)
      modifies table, this`handle
      ensures Positioned() && Stash() == old(Stash()) && Flags() == old(Flags())
    {
      ghost var moved := OthersKeepHandle(table.slots, ops, fd, dev, handle);
      table.slots := ApplyAll(table.slots, ops);
      handle := moved;
    }

    /** recv(): one script entry; MSG_PEEK leaves the bytes in the kernel. */
    method Recv(want: nat, peek: bool) returns (r: Outcome, elapsedMs: int, pollRc: int)
      requires Positioned() && Accounted() && Stash() == [] && want > 0
      modifies table, this`handle, this`script, this`dequeued, this`inflight, this`last
      ensures Positioned() && Accounted() && Stash() == []
      ensures r.Blocked? ==> script == old(script) == [] && last == old(last)
      ensures !r.Blocked? ==> old(script) != [] && script == old(script)[1..] && last == Some(old(script)[0].reply)
      ensures r.Got? ==> old(script)[0].reply.Data? && r.bytes <= old(script)[0].reply.bytes
                         && |r.bytes| == Min(want, |old(script)[0].reply.bytes|)
      ensures r.Failed? ==> old(script)[0].reply == Fail(r.errno)
      ensures !r.Blocked? ==> elapsedMs == old(script)[0].elapsedMs && pollRc == old(script)[0].pollRc
      ensures r.Got? && !peek ==> dequeued == old(dequeued) + r.bytes && inflight == old(inflight) + r.bytes
      ensures !(r.Got? && !peek) ==> (dequeued == old(dequeued) && inflight == old(inflight))
    {
      if script == [] {
        return Blocked, 0, 0;
      }
      var tick := script[0];
      script := script[1..];
      LetOthersRun(tick.others);
      last := Some(tick.reply);
      elapsedMs, pollRc := tick.elapsedMs, tick.pollRc;
      match tick.reply
      case Fail(e) =>
        r := Failed(e);
      case Data(bytes) =>
        var got := bytes[..Min(want, |bytes|)];
        if !peek {
          assert Flatten(delivered) + (inflight + got) + [] == (Flatten(delivered) + inflight + []) + got;
          assert initial + (dequeued + got) == (initial + dequeued) + got;
          dequeued, inflight := dequeued + got, inflight + got;
        }
        r := Got(got);
    }

    method CopyInto(buf: array<Byte>, at: nat, bytes: seq<Byte>)
      requires at + |bytes| <= buf.Length
      modifies buf
      ensures buf[..at + |bytes|] == old(buf[..at]) + bytes
      ensures buf[at + |bytes|..] == old(buf[at + |bytes|..])
    {
      forall k | 0 <= k < |bytes| {
        buf[at + k] := bytes[k];
      }
    }

    /** drain_event_remainder: bounded, never blocks past its budget, loses nothing. */
    method DrainEventRemainder(buf: array<Byte>, start: nat) returns (p: Progress, consumed: nat)
      requires Positioned() && Accounted() && Stash() == [] && 0 < start < EventSize(kind) <= buf.Length
      requires buf[..start] == inflight
      modifies buf, table, this`handle, this`script, this`dequeued, this`inflight, this`last
      ensures Positioned() && Accounted() && Stash() == [] && old(dequeued) <= dequeued
      ensures start <= consumed <= EventSize(kind) && buf[..consumed] == inflight && old(inflight) <= inflight
      ensures p == Complete <==> consumed == EventSize(kind)
      ensures p == Stuck ==> script == []
      ensures p == Short ==> last == Some(Data([])) || (last.Some? && last.value.Fail?)
      ensures DrainWithin(EventSize(kind), old(script), start)
           == match p case Complete => Bytes(EventSize(kind)) case Short => Error(EAGAIN) case Stuck => Unfinished
    {
      consumed := start;
      while consumed < EventSize(kind)
        invariant Positioned() && Accounted() && Stash() == [] && old(dequeued) <= dequeued
        invariant start <= consumed <= EventSize(kind) && buf[..consumed] == inflight && old(inflight) <= inflight
        invariant DrainWithin(EventSize(kind), script, consumed) == DrainWithin(EventSize(kind), old(script), start)
        decreases |script|
      {
        var r, elapsedMs, pollRc := Recv(EventSize(kind) - consumed, false);
        match r
        case Blocked =>
          return Stuck, consumed;
        case Got(bytes) =>
          if bytes == [] {
            return Short, consumed;
          }
          CopyInto(buf, consumed, bytes);
          consumed := consumed + |bytes|;
        case Failed(e) =>
          if e != EAGAIN {
            return Short, consumed;
          }
          if DRAIN_BUDGET_MS - elapsedMs <= 0 || pollRc <= 0 {
            return Short, consumed;
          }
      }
      p := Complete;
    }

    /**
     recv_event_rest_blocking. Short with `eof` is end of file, Short without it carries the
     errno; a signal is reported only while nothing of the event has been consumed.
     */
    method RecvEventRestBlocking(buf: array<Byte>, start: nat)
      returns (p: Progress, consumed: nat, eof: bool, errno: Errno)
      requires Positioned() && Accounted() && Stash() == [] && start < EventSize(kind) <= buf.Length
      requires buf[..start] == inflight
      modifies buf, table, this`handle, this`script, this`dequeued, this`inflight, this`last
      ensures Positioned() && Accounted() && Stash() == [] && old(dequeued) <= dequeued
      ensures start <= consumed <= EventSize(kind) && buf[..consumed] == inflight && old(inflight) <= inflight
      ensures p == Complete <==> consumed == EventSize(kind)
      ensures p == Stuck ==> script == []
      ensures p == Short ==> last == Some(if eof then Data([]) else Fail(errno))
      ensures p == Short && !eof && errno == EINTR ==> consumed == 0
      ensures WaitFor(EventSize(kind), old(script), start)
           == match p
              case Complete => Bytes(EventSize(kind))
              case Short => if eof then Bytes(0) else Error(errno)
              case Stuck => Unfinished
    {
      consumed, eof, errno := start, false, EAGAIN;
      while consumed < EventSize(kind)
        invariant Positioned() && Accounted() && Stash() == [] && old(dequeued) <= dequeued
        invariant start <= consumed <= EventSize(kind) && buf[..consumed] == inflight && old(inflight) <= inflight
        invariant WaitFor(EventSize(kind), script, consumed) == WaitFor(EventSize(kind), old(script), start)
        decreases |script|
      {
        var r, _, _ := Recv(EventSize(kind) - consumed, false);
        match r
        case Blocked =>
          p := Stuck;
          return;
        case Got(bytes) =>
          if bytes == [] {
            p, eof := Short, true;
            return;
          }
          CopyInto(buf, consumed, bytes);
          consumed := consumed + |bytes|;
        case Failed(e) =>
          if e == EINTR {
            if consumed == 0 {
              p, errno := Short, EINTR;
              return;
            }
          } else {
            p, errno := Short, e;
            return;
          }
      }
      p := Complete;
    }

    /** The first critical section of read(): the stash moves into the call's locals. */
    method TakeStashLocked() returns (taken: seq<Byte>, flags: int)
      requires Valid()
      modifies table, this`inflight
      ensures Positioned() && Accounted() && Stash() == []
      ensures taken == inflight == old(Stash()) && flags == old(Flags())
    {
      var at := table.FindForFd(fd);
      LookupOwned(table.slots, fd, dev, handle);
      var (i, h) := at.value;
      var entry := table.slots[i].handles[h];
      flags, taken := entry.flags, [];
      if |entry.partial| > 0 {
        taken := entry.partial;
        SetPartialKeepsOwned(table.slots, i, h, [], fd, dev, handle);
        table.slots := SetPartial(table.slots, i, h, []);
      }
      inflight := taken;
    }

    /** The last critical section: the consumed prefix goes back under the lock. */
    method Restash(bytes: seq<Byte>)
      requires Positioned() && Accounted() && Stash() == []
      requires bytes == inflight && 0 < |bytes| < EventSize(kind)
      modifies table, this`inflight
      ensures Valid() && Stash() == bytes
    {
      LookupOwned(table.slots, fd, dev, handle);
      SetPartialKeepsOwned(table.slots, dev, handle, bytes, fd, dev, handle);
      table.StashPartialEvent(fd, bytes);
      inflight := [];
    }

    /** The caller receives the buffer's first EventSize bytes. */
    ghost method Deliver(bytes: seq<Byte>)
      requires Positioned() && Accounted() && Stash() == []
      requires bytes == inflight && |bytes| == EventSize(kind)
      modifies this`inflight, this`delivered
      ensures Valid() && delivered == old(delivered) + [bytes]
    {
      FlattenSnoc(delivered, bytes);
      delivered, inflight := delivered + [bytes], [];
    }

    /** Dropping the taken stash: what the two early returns of read() do. */
    ghost method Discard()
      requires Positioned() && Accounted() && Stash() == []
      modifies this`inflight, this`lost
      ensures Valid() && lost == old(lost) + |old(inflight)|
    {
      lost, inflight := lost + |inflight|, [];
    }

    /**
     What any return with a big enough buffer guarantees, `image` being the buffer's first
     EventSize bytes: a positive return is one whole event and only it extends `delivered`;
     end of file and errors other than EAGAIN are the kernel's own last word; a signal is
     reported only with nothing held; EAGAIN means the event is not completely there yet.
     */
    ghost predicate Answered(ret: ReadResult, image: seq<Byte>, delivered0: seq<seq<Byte>>)
      reads this, table
    {
      && Positioned() && Accounted()
      && (if ret.Unfinished? then script == [] && Stash() == [] && |inflight| < EventSize(kind) else Valid())
      && delivered == delivered0 + (if ret.Bytes? && ret.n > 0 then [image] else [])
      && (ret.Bytes? && ret.n > 0 ==> ret.n == EventSize(kind) && Stash() == [])
      && (ret == Bytes(0) ==> last == Some(Data([])))
      && (ret.Error? && ret.errno != EAGAIN ==> last == Some(Fail(ret.errno)))
      && (ret == Error(EINTR) ==> Stash() == [])
      && (ret == Error(EAGAIN) ==> last.Some? && (last.value.Fail? || |last.value.bytes| < EventSize(kind)))
    }

    /** Ending a non-blocking attempt after `start` bytes were dequeued or resumed. */
    method FinishNonblocking(buf: array<Byte>, start: nat) returns (ret: ReadResult)
      requires Positioned() && Accounted() && Stash() == [] && 0 < start <= EventSize(kind) <= buf.Length
      requires buf[..start] == inflight
      modifies buf, table, this`handle, this`script, this`dequeued, this`delivered, this`inflight, this`last
      ensures Answered(ret, buf[..EventSize(kind)], old(delivered)) && old(dequeued) <= dequeued
      ensures ret == DrainWithin(EventSize(kind), old(script), start)
    {
      var p, consumed := Complete, start;
      if start < EventSize(kind) {
        p, consumed := DrainEventRemainder(buf, start);
      }
      match p
      case Stuck => return Unfinished;
      case Short =>
        Restash(buf[..consumed]);
        return Error(EAGAIN);
      case Complete =>
        Deliver(buf[..consumed]);
        return Bytes(consumed);
    }

    /** A blocking attempt, resuming `start` bytes that were stashed (possibly none). */
    method FinishBlocking(buf: array<Byte>, start: nat) returns (ret: ReadResult)
      requires Positioned() && Accounted() && Stash() == [] && start < EventSize(kind) <= buf.Length
      requires buf[..start] == inflight
      modifies buf, table, this`handle, this`script, this`dequeued, this`delivered, this`inflight, this`last
      ensures Answered(ret, buf[..EventSize(kind)], old(delivered)) && old(dequeued) <= dequeued
      ensures ret == Error(EAGAIN) ==> last == Some(Fail(EAGAIN))
      ensures ret == WaitFor(EventSize(kind), old(script), start)
    {
      var p, consumed, eof, errno := RecvEventRestBlocking(buf, start);
      match p
      case Stuck => return Unfinished;
      case Short =>
        if consumed > 0 {
          Restash(buf[..consumed]);
        }
        return if eof then Bytes(0) else Error(errno);
      case Complete =>
        Deliver(buf[..consumed]);
        return Bytes(consumed);
    }

    /** Peek first and dequeue only once a whole event is buffered. */
    method PeekThenRead(buf: array<Byte>) returns (ret: ReadResult)
      requires Valid() && Stash() == [] && EventSize(kind) <= buf.Length
      modifies buf, table, this`handle, this`script, this`dequeued, this`delivered, this`inflight, this`last
      ensures Answered(ret, buf[..EventSize(kind)], old(delivered)) && old(dequeued) <= dequeued
      ensures ret == LookFirst(EventSize(kind), old(script))
      ensures !ShowsWhole(EventSize(kind), old(script)) ==> dequeued == old(dequeued) && inflight == [] && Stash() == []
    {
      hide Flatten, OwnedAt, ScriptForeign, AllOfSize;
      var size := EventSize(kind);
      var peeked, _, _ := Recv(size, true);
      match peeked
      case Blocked => return Unfinished;
      case Failed(e) => return Error(e);
      case Got(seen) =>
        CopyInto(buf, 0, seen);
        if 0 < |seen| < size {
          return Error(EAGAIN);
        }
        if seen == [] {
          return Bytes(0);
        }
        var r, _, _ := Recv(size, false);
        match r
        case Blocked => return Unfinished;
        case Failed(e) => return Error(e);
        case Got(bytes) =>
          if bytes == [] {
            return Bytes(0);
          }
          CopyInto(buf, 0, bytes);
          ret := FinishNonblocking(buf, |bytes|);
    }

    /**
     read() on the interposed handle. Nothing is lost unless the buffer is too small for one
     event, and then exactly the stash is: the early returns come after it was taken. So a call
     keeps the stream conserved if and only if its buffer is big enough or nothing was stashed.
     */
    method Read(buf: array<Byte>, call: Call) returns (ret: ReadResult)
      requires Valid() && buf.Length == call.count && Foreign(call.before, fd)
      modifies buf, table, this`handle, this`script, this`dequeued, this`delivered, this`inflight, this`lost, this`last
      ensures Positioned()
      ensures Conserved() <==> old(Conserved()) && (call.count >= EventSize(kind) || old(Stash()) == [])
      ensures lost == old(lost) + if call.count < EventSize(kind) then |old(Stash())| else 0
      ensures call.count < EventSize(kind) ==>
                && Valid() && Stash() == [] && dequeued == old(dequeued) && delivered == old(delivered)
                && ret == if call.count == 0 then Bytes(0) else Error(EINVAL)
      ensures call.count >= EventSize(kind) ==> Answered(ret, buf[..EventSize(kind)], old(delivered))
      ensures old(dequeued) <= dequeued
      ensures var blocking := Blocking(call, old(Flags()));
              && ret == AnswerTo(EventSize(kind), call.count, blocking, |old(Stash())|, old(script))
              && (blocking && ret == Error(EAGAIN) ==> last == Some(Fail(EAGAIN)))
              && (!blocking && old(Stash()) == [] && !ShowsWhole(EventSize(kind), old(script)) ==>
                    dequeued == old(dequeued) && inflight == [] && Stash() == [])
    {
      hide Flatten, OwnedAt, AllOfSize, WaitFor, DrainWithin, LookFirst, ShowsWhole;
      ConservedIffNothingLost();
      last := None;
      LetOthersRun(call.before);
      var stashed, flags := TakeStashLocked();
      if call.count == 0 {
        Discard();
        ConservedIffNothingLost();
        return Bytes(0);
      }
      if call.count < EventSize(kind) {
        Discard();
        ConservedIffNothingLost();
        return Error(EINVAL);
      }
      var nonblocking := match call.sockNonblocking case Some(b) => b case None => flags / O_NONBLOCK % 2 == 1;
      if |stashed| > 0 {
        CopyInto(buf, 0, stashed);
        if nonblocking {
          ret := FinishNonblocking(buf, |stashed|);
        } else {
          ret := FinishBlocking(buf, |stashed|);
        }
      } else if nonblocking {
        ret := PeekThenRead(buf);
      } else {
        ret := FinishBlocking(buf, 0);
      }
      ConservedIffNothingLost();
    }

    /**
     Any number of read() calls with other threads running in between: the events returned, then
     what is in flight or stashed, is the byte stream the handle has been given. Only a call that is
     still blocked ends the series early.
     */
    method ReadMany(calls: seq<Call>) returns (results: seq<ReadResult>, events: seq<seq<Byte>>)
      requires Valid() && lost == 0
      requires forall k :: 0 <= k < |calls| ==> Foreign(calls[k].before, fd)
      modifies table, this`handle, this`script, this`dequeued, this`delivered, this`inflight, this`lost, this`last
      ensures Positioned() && |inflight + Stash()| < EventSize(kind) && AllOfSize(delivered, EventSize(kind))
      ensures Finished(results, |calls|) && old(dequeued) <= dequeued
      ensures delivered == old(delivered) + events && |events| == Positive(results)
      ensures (forall k :: 0 <= k < |calls| ==> calls[k].count >= EventSize(kind)) ==> Conserved()
      ensures Conserved() ==> delivered == Blocks(initial + dequeued, EventSize(kind))
      ensures Conserved() ==> (Flatten(delivered) + inflight + Stash() == dequeued <==> initial == [])
      ensures forall k :: 0 <= k < |results| && results[k].Bytes? && results[k].n > 0 ==>
                results[k].n == EventSize(kind)
    {
      hide Blocks, Flatten, OwnedAt;
      results, events := [], [];
      var k := 0;
      while k < |calls|
        invariant 0 <= k <= |calls| && |results| == k
        invariant Valid() && old(dequeued) <= dequeued
        invariant forall j | 0 <= j < |results| :: !results[j].Unfinished?
        invariant delivered == old(delivered) + events && |events| == Positive(results)
        invariant (forall j :: 0 <= j < |calls| ==> calls[j].count >= EventSize(kind)) ==> lost == 0
        invariant forall j :: 0 <= j < |results| && results[j].Bytes? && results[j].n > 0 ==>
                    results[j].n == EventSize(kind)
      {
        var buf := new Byte[calls[k].count];
        var ret := Read(buf, calls[k]);
        PositiveSnoc(results, ret);
        results := results + [ret];
        if ret.Bytes? && ret.n > 0 {
          Regroup(old(delivered), events, [buf[..ret.n]]);
          events := events + [buf[..ret.n]];
        }
        if ret.Unfinished? {
          break;
        }
        k := k + 1;
      }
      ConservedIffNothingLost();
      if Conserved() {
        assert Flatten(delivered) + inflight + Stash() == Flatten(delivered) + (inflight + Stash());
        DeliveriesAreTheStream(delivered, inflight + Stash(), initial + dequeued, EventSize(kind));
        InheritedBytesNeverVanish(Flatten(delivered), inflight, Stash(), initial, dequeued);
      }
    }
  }
}
