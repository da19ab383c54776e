/**
 Every thread of a host process at once: opens, closes, correction ioctls and reads of
 interposed devices, plus the host's own descriptors, interleaved at the granularity of the
 critical sections and of the kernel calls made outside them.

 No thread closes a descriptor it does not own; that is the only demand on the host.
 */
module TableProtocol {
  import opened Wrappers
  import opened HandleTable

  /** What the kernel has open under a descriptor. */
  datatype Owner = Socket(dev: nat) | HostFile

  /** Where a thread is between two of its steps. */
  datatype Pc =
    | Connecting(dev: nat, fd: int)              // socket() returned, not yet published
    | Rejected(dev: nat, fd: int)                // EMFILE decided under the lock, close still to come
    | Correcting(fd: int, slot: nat, value: int) // JSIOCSCORR between snapshot and persist-back

  datatype State = State(slots: seq<Slot>, kernel: map<int, Owner>, threads: map<nat, Pc>)

  datatype Step =
    | OpenSocket(tid: nat, dev: nat, fd: int)
    | ConnectFails(tid: nat)
    | PublishOrReject(tid: nat, flags: int, config: int)
    | CloseRejected(tid: nat)
    | CloseCall(fd: int)
    | HostOpens(fd: int)
    | CorrectionStarts(tid: nat, fd: int, value: int)
    | CorrectionEnds(tid: nat)
    | ReadTakes(fd: int)
    | ReadStashes(fd: int, bytes: seq<Byte>)

  ghost predicate Initial(s: State) {
    && TableOk(s.slots) && s.kernel == map[] && s.threads == map[]
    && forall i :: 0 <= i < |s.slots| ==> s.slots[i].count == 0 && s.slots[i].corr == Unset
  }

  /** One step; a step that is not possible in `s` changes nothing. */
  function Next(s: State, step: Step): (r: State)
    requires TableOk(s.slots)
    ensures TableOk(r.slots) && |r.slots| == |s.slots|
  {
    match step
    case OpenSocket(tid, dev, fd) =>
      if tid in s.threads || dev >= |s.slots| || fd < 0 || fd in s.kernel then s
      else s.(kernel := s.kernel[fd := Socket(dev)], threads := s.threads[tid := Connecting(dev, fd)])
    case ConnectFails(tid) =>
      if tid !in s.threads || !s.threads[tid].Connecting? then s
      else s.(kernel := s.kernel - {s.threads[tid].fd}, threads := s.threads - {tid})
    case PublishOrReject(tid, flags, config) =>
      if tid !in s.threads || !s.threads[tid].Connecting? || s.threads[tid].dev >= |s.slots| then s
      else
        var pc := s.threads[tid];
        if s.slots[pc.dev].count >= MAX_HANDLES then
          s.(threads := s.threads[tid := Rejected(pc.dev, pc.fd)])
        else
          s.(slots := Publish(s.slots, pc.dev, pc.fd, flags, config), threads := s.threads - {tid})
    case CloseRejected(tid) =>
      if tid !in s.threads || !s.threads[tid].Rejected? then s
      else s.(kernel := s.kernel - {s.threads[tid].fd}, threads := s.threads - {tid})
    case CloseCall(fd) =>
      // real_close runs inside the critical section when the fd is interposed
      if Lookup(s.slots, fd).Some? then s.(slots := CloseFd(s.slots, fd), kernel := s.kernel - {fd})
      else if fd in s.kernel && s.kernel[fd] == HostFile then s.(kernel := s.kernel - {fd})
      else s
    case HostOpens(fd) =>
      if fd < 0 || fd in s.kernel then s else s.(kernel := s.kernel[fd := HostFile])
    case CorrectionStarts(tid, fd, value) =>
      // only the joystick nodes accept JSIOCSCORR, the event nodes answer ENOTTY
      var at := Lookup(s.slots, fd);
      if tid in s.threads || at.None? || s.slots[at.value.0].kind != Js then s
      else s.(threads := s.threads[tid := Correcting(fd, at.value.0, value)])
    case CorrectionEnds(tid) =>
      if tid !in s.threads || !s.threads[tid].Correcting? then s
      else
        var pc := s.threads[tid];
        var at := Lookup(s.slots, pc.fd);
        var done := s.(threads := s.threads - {tid});
        if at.Some? && at.value.0 == pc.slot then
          done.(slots := s.slots[at.value.0 := s.slots[at.value.0].(corr := Issued(pc.slot, pc.value))])
        else done
    case ReadTakes(fd) => s.(slots := TakeStash(s.slots, fd))
    case ReadStashes(fd, bytes) => s.(slots := PutStash(s.slots, fd, bytes))
  }

  function Run(s: State, steps: seq<Step>): (r: State)
    requires TableOk(s.slots)
    ensures TableOk(r.slots) && |r.slots| == |s.slots|
    decreases |steps|
  {
    if steps == [] then s else Run(Next(s, steps[0]), steps[1..])
  }

  // ----- The invariant

  /** `fd` is live in device i's table. */
  ghost predicate Holds(slots: seq<Slot>, i: int, fd: int)
    requires TableOk(slots)
  {
    exists h :: LiveAt(slots, i, h, fd)
  }

  ghost predicate NoFdTwice(slots: seq<Slot>)
    requires TableOk(slots)
  {
    forall i, h, i', h', fd :: LiveAt(slots, i, h, fd) && LiveAt(slots, i', h', fd) ==> i == i' && h == h'
  }

  /** A socket owned by one open() call and visible to nobody else. */
  ghost predicate PrivateTo(s: State, tid: nat, dev: nat, fd: int) {
    tid in s.threads && (s.threads[tid] == Connecting(dev, fd) || s.threads[tid] == Rejected(dev, fd))
  }

  ghost predicate TablesMatchKernel(s: State)
    requires TableOk(s.slots)
  {
    forall i, fd :: Holds(s.slots, i, fd) ==> fd >= 0 && fd in s.kernel && s.kernel[fd] == Socket(i)
  }

  ghost predicate PrivatesMatchKernel(s: State)
    requires TableOk(s.slots)
  {
    forall tid: nat, dev: nat, fd: int :: PrivateTo(s, tid, dev, fd) ==>
      && fd >= 0 && fd in s.kernel && s.kernel[fd] == Socket(dev) && dev < |s.slots| && !Holds(s.slots, dev, fd)
      && forall tid': nat, dev': nat :: PrivateTo(s, tid', dev', fd) ==> tid' == tid
  }

  ghost predicate NoSocketLeaks(s: State)
    requires TableOk(s.slots)
  {
    forall fd :: fd in s.kernel && s.kernel[fd].Socket? ==>
      Holds(s.slots, s.kernel[fd].dev, fd) || exists tid :: PrivateTo(s, tid, s.kernel[fd].dev, fd)
  }

  ghost predicate CorrectionsAtHome(slots: seq<Slot>) {
    forall i :: 0 <= i < |slots| && slots[i].corr.Issued? ==> slots[i].corr.dev == i
  }

  ghost predicate Inv(s: State) {
    && TableOk(s.slots)
    && NoFdTwice(s.slots)
    && TablesMatchKernel(s)
    && PrivatesMatchKernel(s)
    && NoSocketLeaks(s)
    && CorrectionsAtHome(s.slots)
  }

  // ----- What each table operation does to the held descriptors

  lemma PublishHolds(slots: seq<Slot>, i: nat, fd: int, flags: int, config: int)
    requires TableOk(slots) && NoFdTwice(slots) && i < |slots| && slots[i].count < MAX_HANDLES
    requires forall k :: !Holds(slots, k, fd)
    ensures var r := Publish(slots, i, fd, flags, config);
            NoFdTwice(r) && forall k, f :: Holds(r, k, f) <==> Holds(slots, k, f) || (k == i && f == fd)
  {
    var r := Publish(slots, i, fd, flags, config);
    forall k, h ensures !LiveAt(slots, k, h, fd) {
      assert !Holds(slots, k, fd);
    }
    assert forall k, h, f :: LiveAt(r, k, h, f) <==>
      LiveAt(slots, k, h, f) || (k == i && h == slots[i].count && f == fd);
    forall k, f ensures Holds(r, k, f) <==> Holds(slots, k, f) || (k == i && f == fd) {
      if Holds(slots, k, f) {
        var h :| LiveAt(slots, k, h, f);
        assert LiveAt(r, k, h, f);
      } else if k == i && f == fd {
        assert LiveAt(r, i, slots[i].count, fd);
      }
    }
  }

  lemma RetireHolds(slots: seq<Slot>, i: nat, h: nat)
    requires TableOk(slots) && NoFdTwice(slots) && i < |slots| && h < slots[i].count
    ensures var r := Retire(slots, i, h);
            NoFdTwice(r) && forall k, f :: Holds(r, k, f) <==> Holds(slots, k, f) && f != slots[i].handles[h].fd
  {
    var r, last, gone := Retire(slots, i, h), slots[i].count - 1, slots[i].handles[h].fd;
    assert LiveAt(slots, i, h, gone) && LiveAt(slots, i, last, slots[i].handles[last].fd);
    assert forall k, j, f :: LiveAt(r, k, j, f) ==>
      LiveAt(slots, k, if k == i && j == h then last else j, f);
    forall k, f ensures Holds(r, k, f) <==> Holds(slots, k, f) && f != gone {
      if Holds(slots, k, f) && f != gone {
        var j :| LiveAt(slots, k, j, f);
        assert LiveAt(r, k, if k == i && j == last then h else j, f);
      }
      if Holds(r, k, f) {
        var j :| LiveAt(r, k, j, f);
        assert LiveAt(slots, k, if k == i && j == h then last else j, f);
      }
    }
  }

  /** Stash and correction updates move no descriptor. */
  lemma SameDescriptors(slots: seq<Slot>, r: seq<Slot>)
    requires TableOk(slots) && TableOk(r) && |r| == |slots|
    requires forall i :: 0 <= i < |slots| ==> r[i].count == slots[i].count
    requires forall i, h :: 0 <= i < |slots| && 0 <= h < slots[i].count ==>
               r[i].handles[h].fd == slots[i].handles[h].fd
    ensures forall i, h, fd :: LiveAt(r, i, h, fd) <==> LiveAt(slots, i, h, fd)
    ensures forall i, fd :: Holds(r, i, fd) <==> Holds(slots, i, fd)
  {
    assert forall i, h, fd :: LiveAt(r, i, h, fd) <==> LiveAt(slots, i, h, fd);
    forall i, fd ensures Holds(r, i, fd) <==> Holds(slots, i, fd) {
      if Holds(slots, i, fd) {
        var h :| LiveAt(slots, i, h, fd);
        assert LiveAt(r, i, h, fd);
      }
    }
  }

  // ----- Every step keeps the invariant

  lemma OpenKeepsInv(s: State, tid: nat, dev: nat, fd: int)
    requires Inv(s)
    ensures Inv(Next(s, OpenSocket(tid, dev, fd)))
  {
    var r := Next(s, OpenSocket(tid, dev, fd));
    if r != s {
      forall t: nat, d: nat, f: int | PrivateTo(r, t, d, f)
        ensures f >= 0 && f in r.kernel && r.kernel[f] == Socket(d) && d < |r.slots| && !Holds(r.slots, d, f)
        ensures forall t': nat, d': nat :: PrivateTo(r, t', d', f) ==> t' == t
      {
        assert t == tid || PrivateTo(s, t, d, f);
        forall t': nat, d': nat | PrivateTo(r, t', d', f) ensures t' == t {
          assert t' == tid || PrivateTo(s, t', d', f);
        }
      }
      forall f | f in r.kernel && r.kernel[f].Socket?
        ensures Holds(r.slots, r.kernel[f].dev, f) || exists t :: PrivateTo(r, t, r.kernel[f].dev, f)
      {
        if f == fd {
          assert PrivateTo(r, tid, dev, fd);
        } else if !Holds(s.slots, s.kernel[f].dev, f) {
          var t :| PrivateTo(s, t, s.kernel[f].dev, f);
          assert PrivateTo(r, t, r.kernel[f].dev, f);
        }
      }
    }
  }

  /** A private socket is closed by the thread that owns it. */
  lemma PrivateCloseKeepsInv(s: State, tid: nat, dev: nat, fd: int)
    requires Inv(s) && PrivateTo(s, tid, dev, fd)
    ensures Inv(s.(kernel := s.kernel - {fd}, threads := s.threads - {tid}))
  {
    var r := s.(kernel := s.kernel - {fd}, threads := s.threads - {tid});
    assert forall t: nat, d: nat, f: int :: PrivateTo(r, t, d, f) ==> PrivateTo(s, t, d, f);
    forall f | f in r.kernel && r.kernel[f].Socket?
      ensures Holds(r.slots, r.kernel[f].dev, f) || exists t :: PrivateTo(r, t, r.kernel[f].dev, f)
    {
      if !Holds(s.slots, s.kernel[f].dev, f) {
        var t :| PrivateTo(s, t, s.kernel[f].dev, f);
        assert PrivateTo(r, t, r.kernel[f].dev, f);
      }
    }
  }

  lemma PublishKeepsInv(s: State, tid: nat, flags: int, config: int)
    requires Inv(s)
    ensures Inv(Next(s, PublishOrReject(tid, flags, config)))
  {
    var r := Next(s, PublishOrReject(tid, flags, config));
    if r != s {
      var dev, fd := s.threads[tid].dev, s.threads[tid].fd;
      assert PrivateTo(s, tid, dev, fd);
      if s.slots[dev].count < MAX_HANDLES {
        PublishHolds(s.slots, dev, fd, flags, config);
      }
      forall t: nat, d: nat, f: int | PrivateTo(r, t, d, f) ensures PrivateTo(s, t, d, f) && !Holds(r.slots, d, f) {
        assert t == tid || s.threads[t] == r.threads[t];
        assert PrivateTo(s, t, d, f);
      }
      forall f | f in r.kernel && r.kernel[f].Socket?
        ensures Holds(r.slots, r.kernel[f].dev, f) || exists t :: PrivateTo(r, t, r.kernel[f].dev, f)
      {
        if !Holds(s.slots, s.kernel[f].dev, f) {
          var t :| PrivateTo(s, t, s.kernel[f].dev, f);
          assert Holds(r.slots, s.kernel[f].dev, f) || PrivateTo(r, t, r.kernel[f].dev, f);
        }
      }
    }
  }

  lemma CloseKeepsInv(s: State, fd: int)
    requires Inv(s)
    ensures Inv(Next(s, CloseCall(fd)))
  {
    var r := Next(s, CloseCall(fd));
    if Lookup(s.slots, fd).Some? {
      var (i, h) := Lookup(s.slots, fd).value;
      RetireHolds(s.slots, i, h);
      assert Holds(s.slots, i, fd);
    } else {
      assert forall i :: !Holds(s.slots, i, fd) || fd < 0;
    }
    assert forall t: nat, d: nat, f: int :: PrivateTo(r, t, d, f) <==> PrivateTo(s, t, d, f);
    forall f | f in r.kernel && r.kernel[f].Socket?
      ensures Holds(r.slots, r.kernel[f].dev, f) || exists t :: PrivateTo(r, t, r.kernel[f].dev, f)
    {
      if !Holds(s.slots, s.kernel[f].dev, f) {
        var t :| PrivateTo(s, t, s.kernel[f].dev, f);
        assert PrivateTo(r, t, r.kernel[f].dev, f);
      }
    }
  }

  /** Steps that leave kernel, descriptors and private sockets alone. */
  lemma QuietStepKeepsInv(s: State, r: State)
    requires Inv(s) && TableOk(r.slots) && r.kernel == s.kernel && |r.slots| == |s.slots|
    requires forall i :: 0 <= i < |s.slots| ==> r.slots[i].count == s.slots[i].count
    requires forall i, h :: 0 <= i < |s.slots| && 0 <= h < s.slots[i].count ==>
               r.slots[i].handles[h].fd == s.slots[i].handles[h].fd
    requires forall t: nat, d: nat, f: int :: PrivateTo(r, t, d, f) <==> PrivateTo(s, t, d, f)
    requires CorrectionsAtHome(r.slots)
    ensures Inv(r)
  {
    SameDescriptors(s.slots, r.slots);
    forall f | f in r.kernel && r.kernel[f].Socket?
      ensures Holds(r.slots, r.kernel[f].dev, f) || exists t :: PrivateTo(r, t, r.kernel[f].dev, f)
    {
      if !Holds(s.slots, s.kernel[f].dev, f) {
        var t :| PrivateTo(s, t, s.kernel[f].dev, f);
        assert PrivateTo(r, t, r.kernel[f].dev, f);
      }
    }
  }

  lemma HostOpensKeepsInv(s: State, fd: int)
    requires Inv(s)
    ensures Inv(Next(s, HostOpens(fd)))
  {
    var r := Next(s, HostOpens(fd));
    forall f | f in r.kernel && r.kernel[f].Socket?
      ensures Holds(r.slots, r.kernel[f].dev, f) || exists t :: PrivateTo(r, t, r.kernel[f].dev, f)
    {
      if !Holds(s.slots, s.kernel[f].dev, f) {
        var t :| PrivateTo(s, t, s.kernel[f].dev, f);
        assert PrivateTo(r, t, r.kernel[f].dev, f);
      }
    }
    assert forall t: nat, d: nat, f: int :: PrivateTo(r, t, d, f) <==> PrivateTo(s, t, d, f);
  }

  lemma CorrectionKeepsInv(s: State, step: Step)
    requires Inv(s) && (step.CorrectionStarts? || step.CorrectionEnds?)
    ensures Inv(Next(s, step))
  {
    QuietStepKeepsInv(s, Next(s, step));
  }

  lemma ReadKeepsInv(s: State, step: Step)
    requires Inv(s) && (step.ReadTakes? || step.ReadStashes?)
    ensures Inv(Next(s, step))
  {
    QuietStepKeepsInv(s, Next(s, step));
  }

  lemma StepKeepsInv(s: State, step: Step)
    requires Inv(s)
    ensures Inv(Next(s, step))
  {
    hide NoFdTwice, TablesMatchKernel, PrivatesMatchKernel, NoSocketLeaks, CorrectionsAtHome;
    var r := Next(s, step);
    match step {
      case OpenSocket(tid, dev, fd) => OpenKeepsInv(s, tid, dev, fd);
      case ConnectFails(tid) =>
        if r != s { PrivateCloseKeepsInv(s, tid, s.threads[tid].dev, s.threads[tid].fd); }
      case PublishOrReject(tid, flags, config) => PublishKeepsInv(s, tid, flags, config);
      case CloseRejected(tid) =>
        if r != s { PrivateCloseKeepsInv(s, tid, s.threads[tid].dev, s.threads[tid].fd); }
      case CloseCall(fd) => CloseKeepsInv(s, fd);
      case HostOpens(fd) => HostOpensKeepsInv(s, fd);
      case CorrectionStarts(_, _, _) => CorrectionKeepsInv(s, step);
      case CorrectionEnds(_) => CorrectionKeepsInv(s, step);
      case ReadTakes(_) => ReadKeepsInv(s, step);
      case ReadStashes(_, _) => ReadKeepsInv(s, step);
    }
  }

  lemma {:induction false} RunKeepsInv(s: State, steps: seq<Step>)
    requires Inv(s)
    ensures Inv(Run(s, steps))
    decreases |steps|
  {
    if steps != [] {
      StepKeepsInv(s, steps[0]);
      RunKeepsInv(Next(s, steps[0]), steps[1..]);
    }
  }

  // ----- Main results

  /** The interposer's sockets open in the kernel. */
  ghost function OpenSockets(s: State): set<int> {
    set fd | fd in s.kernel && s.kernel[fd].Socket?
  }

  ghost function PublishedFds(s: State): set<int>
    requires TableOk(s.slots)
  {
    set fd | fd in s.kernel && exists i :: Holds(s.slots, i, fd)
  }

  ghost function PrivateFds(s: State): set<int> {
    set tid | tid in s.threads && !s.threads[tid].Correcting? :: s.threads[tid].fd
  }

  /**
   In every reachable state: no descriptor is in the tables twice, every table entry is an open
   socket of that very device, no device holds more than sixteen, the interposer's open sockets
   are exactly the published ones plus those still private to an open() in progress, and stored
   corrections sit on the device they were issued for.
   */
  lemma ReachableStatesAreConsistent(s: State, steps: seq<Step>)
    requires Initial(s)
    ensures var r := Run(s, steps);
            && NoFdTwice(r.slots)
            && (forall i, fd :: Holds(r.slots, i, fd) ==> fd in r.kernel && r.kernel[fd] == Socket(i))
            && (forall i :: 0 <= i < |r.slots| ==> r.slots[i].count <= MAX_HANDLES)
            && OpenSockets(r) == PublishedFds(r) + PrivateFds(r)
            && PublishedFds(r) !! PrivateFds(r)
            && CorrectionsAtHome(r.slots)
  {
    RunKeepsInv(s, steps);
    var r := Run(s, steps);
    forall fd ensures fd in OpenSockets(r) <==> fd in PublishedFds(r) + PrivateFds(r) {
      if fd in OpenSockets(r) && !Holds(r.slots, r.kernel[fd].dev, fd) {
        var tid :| PrivateTo(r, tid, r.kernel[fd].dev, fd);
      }
      if fd in PrivateFds(r) {
        var tid :| tid in r.threads && !r.threads[tid].Correcting? && r.threads[tid].fd == fd;
        assert PrivateTo(r, tid, r.threads[tid].dev, fd);
      }
    }
    forall fd | fd in PrivateFds(r) ensures fd !in PublishedFds(r) {
      var tid :| tid in r.threads && !r.threads[tid].Correcting? && r.threads[tid].fd == fd;
      assert PrivateTo(r, tid, r.threads[tid].dev, fd);
    }
  }

  /** Once no open() is in progress, nothing leaked: the open sockets are the published ones. */
  lemma NoLeakAtRest(s: State, steps: seq<Step>)
    requires Initial(s)
    requires forall tid :: tid in Run(s, steps).threads ==> Run(s, steps).threads[tid].Correcting?
    ensures OpenSockets(Run(s, steps)) == PublishedFds(Run(s, steps))
  {
    ReachableStatesAreConsistent(s, steps);
    assert PrivateFds(Run(s, steps)) == {};
  }

  /**
   Ending a JSIOCSCORR call stores the correction if and only if the device it was issued on
   still holds the fd; if the fd was closed or reused elsewhere meanwhile, no device changes.
   */
  lemma CorrectionEndsExactly(s: State, tid: nat)
    requires Inv(s) && tid in s.threads && s.threads[tid].Correcting?
    ensures var pc := s.threads[tid];
            Next(s, CorrectionEnds(tid)).slots ==
            if Holds(s.slots, pc.slot, pc.fd)
            then s.slots[pc.slot := s.slots[pc.slot].(corr := Issued(pc.slot, pc.value))]
            else s.slots
  {
    var pc := s.threads[tid];
    if Holds(s.slots, pc.slot, pc.fd) {
      var h :| LiveAt(s.slots, pc.slot, h, pc.fd);
      LookupOwned(s.slots, pc.fd, pc.slot, h);
    }
  }

  /**
   A successful open() makes the fd visible on its device, and closing it undoes exactly that:
   kernel, threads and everybody's descriptors are as before.
   */
  lemma OpenThenCloseRestores(s: State, tid: nat, dev: nat, fd: int, flags: int, config: int)
    requires Inv(s) && tid !in s.threads && dev < |s.slots| && fd >= 0 && fd !in s.kernel
    requires s.slots[dev].count < MAX_HANDLES
    ensures var shown := Next(Next(s, OpenSocket(tid, dev, fd)), PublishOrReject(tid, flags, config));
            var closed := Next(shown, CloseCall(fd));
            && Holds(shown.slots, dev, fd)
            && closed.kernel == s.kernel && closed.threads == s.threads
            && forall i, f :: Holds(closed.slots, i, f) <==> Holds(s.slots, i, f)
  {
    var mid := Next(s, OpenSocket(tid, dev, fd));
    StepKeepsInv(s, OpenSocket(tid, dev, fd));
    var shown := Next(mid, PublishOrReject(tid, flags, config));
    StepKeepsInv(mid, PublishOrReject(tid, flags, config));
    assert forall i :: !Holds(s.slots, i, fd);
    PublishHolds(s.slots, dev, fd, flags, config);
    var h :| LiveAt(shown.slots, dev, h, fd);
    LookupOwned(shown.slots, fd, dev, h);
    RetireHolds(shown.slots, dev, h);
  }

  /** A seventeenth open is undone completely: the three steps of a refusal give back the state. */
  lemma RefusedOpenRestores(s: State, tid: nat, dev: nat, fd: int, flags: int, config: int)
    requires Inv(s) && tid !in s.threads && dev < |s.slots| && fd >= 0 && fd !in s.kernel
    requires s.slots[dev].count == MAX_HANDLES
    ensures var refused := Next(Next(s, OpenSocket(tid, dev, fd)), PublishOrReject(tid, flags, config));
            refused.threads[tid] == Rejected(dev, fd) && refused.slots == s.slots
            && Next(refused, CloseRejected(tid)) == s
  {
    assert s.kernel[fd := Socket(dev)] - {fd} == s.kernel;
    assert s.threads[tid := Connecting(dev, fd)][tid := Rejected(dev, fd)] - {tid} == s.threads;
  }

  /** So is an open whose connection fails. */
  lemma FailedConnectRestores(s: State, tid: nat, dev: nat, fd: int)
    requires Inv(s) && tid !in s.threads && dev < |s.slots| && fd >= 0 && fd !in s.kernel
    ensures Next(s, OpenSocket(tid, dev, fd)) != s
    ensures Next(Next(s, OpenSocket(tid, dev, fd)), ConnectFails(tid)) == s
  {
    assert s.kernel[fd := Socket(dev)] - {fd} == s.kernel;
    assert s.threads[tid := Connecting(dev, fd)] - {tid} == s.threads;
    assert tid in Next(s, OpenSocket(tid, dev, fd)).threads;
  }

  /** Closing a descriptor of the host's own removes exactly that from the kernel. */
  lemma HostCloseRemovesIt(s: State, fd: int)
    requires Inv(s) && fd in s.kernel && s.kernel[fd] == HostFile
    ensures Next(s, CloseCall(fd)) == s.(kernel := s.kernel - {fd})
  {
    if Lookup(s.slots, fd).Some? {
      var (i, h) := Lookup(s.slots, fd).value;
      assert Holds(s.slots, i, fd);
    }
  }

  lemma HostOpenThenCloseRestores(s: State, fd: int)
    requires Inv(s) && fd >= 0 && fd !in s.kernel
    ensures fd in Next(s, HostOpens(fd)).kernel && Next(Next(s, HostOpens(fd)), CloseCall(fd)) == s
  {
    StepKeepsInv(s, HostOpens(fd));
    HostCloseRemovesIt(Next(s, HostOpens(fd)), fd);
    assert s.kernel[fd := HostFile] - {fd} == s.kernel;
  }

  /**
   A JSIOCSCORR call that meets no close in between stores its value on the fd's own device, and there
   only if that is a joystick node; nothing else changes.
   */
  lemma CorrectionIsStored(s: State, tid: nat, fd: int, value: int, i: nat, h: nat)
    requires Inv(s) && tid !in s.threads && LiveAt(s.slots, i, h, fd)
    ensures var r := Next(Next(s, CorrectionStarts(tid, fd, value)), CorrectionEnds(tid));
            r == if s.slots[i].kind.Js? then s.(slots := s.slots[i := s.slots[i].(corr := Issued(i, value))]) else s
  {
    assert Holds(s.slots, i, fd);
    LookupOwned(s.slots, fd, i, h);
    assert s.threads[tid := Correcting(fd, i, value)] - {tid} == s.threads;
  }

  /** What one read stashes the next one takes, whatever was stashed before, and takes only once. */
  lemma StashedIsTaken(s: State, fd: int, i: nat, h: nat, bytes: seq<Byte>)
    requires Inv(s) && LiveAt(s.slots, i, h, fd) && 0 < |bytes| <= MAX_EVENT_SIZE
    ensures var stashed := Next(s, ReadStashes(fd, bytes));
            StashOf(stashed.slots, fd) == bytes && StashOf(Next(stashed, ReadTakes(fd)).slots, fd) == []
  {
    assert Holds(s.slots, i, fd);
    PutThenTake(s.slots, fd, i, h, bytes);
  }
}
