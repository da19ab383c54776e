/**
 The interposer's table of open handles: one slot per device, each with a fixed array of
 sixteen handle entries of which the first `count` are live. Entries past `count` are
 whatever earlier handles left there, which is why they are part of the state.
 */
module HandleTable {
  import opened Wrappers

  const MAX_HANDLES: nat := 16

  datatype Kind = Js | Ev

  /** sizeof(struct js_event) and, on LP64, sizeof(struct input_event). */
  function EventSize(kind: Kind): nat {
    match kind
    case Js => 8
    case Ev => 24
  }

  const MAX_EVENT_SIZE: nat := EventSize(Ev)

  /** `partial` holds the valid prefix of the entry's stash buffer. */
  datatype Handle = Handle(fd: int, flags: int, partial: seq<Byte>)

  /** Correction data, tagged with the device whose JSIOCSCORR call supplied it. */
  datatype Correction = Unset | Issued(dev: nat, value: int)

  datatype Slot = Slot(kind: Kind, handles: seq<Handle>, count: nat, corr: Correction, config: Option<int>)

  ghost predicate SlotOk(s: Slot) {
    |s.handles| == MAX_HANDLES && s.count <= MAX_HANDLES
  }

  ghost predicate TableOk(slots: seq<Slot>) {
    forall i :: 0 <= i < |slots| ==> SlotOk(slots[i])
  }

  ghost predicate LiveAt(slots: seq<Slot>, i: int, h: int, fd: int)
    requires TableOk(slots)
  {
    0 <= i < |slots| && 0 <= h < slots[i].count && slots[i].handles[h].fd == fd
  }

  /** `fd` is live at (i, h) and nowhere else. */
  ghost predicate OwnedAt(slots: seq<Slot>, fd: int, i: int, h: int)
    requires TableOk(slots)
  {
    && LiveAt(slots, i, h, fd)
    && forall i', h' :: LiveAt(slots, i', h', fd) ==> i' == i && h' == h
  }

  // ----- Specification of the locked operations

  function FindHandle(hs: seq<Handle>, fd: int): (r: Option<nat>)
    ensures r.Some? ==> r.value < |hs| && hs[r.value].fd == fd
    ensures r.None? ==> forall h :: 0 <= h < |hs| ==> hs[h].fd != fd
  {
    if hs == [] then None
    else if hs[0].fd == fd then Some(0)
    else match FindHandle(hs[1..], fd)
      case None =>
        assert forall h :: 0 < h < |hs| ==> hs[h] == hs[1..][h - 1];
        None
      case Some(h) => Some(h + 1)
  }

  lemma {:induction false} FirstHandle(hs: seq<Handle>, fd: int, h: nat)
    requires h < |hs| && hs[h].fd == fd && forall j | 0 <= j < h :: hs[j].fd != fd
    ensures FindHandle(hs, fd) == Some(h)
    decreases h
  {
    if h > 0 {
      FirstHandle(hs[1..], fd, h - 1);
    }
  }

  lemma {:induction false} NoHandle(hs: seq<Handle>, fd: int)
    requires forall j | 0 <= j < |hs| :: hs[j].fd != fd
    ensures FindHandle(hs, fd) == None
  {
    if hs != [] {
      NoHandle(hs[1..], fd);
    }
  }

  /** Slot and handle index of the first live entry with this fd; a negative fd matches nothing. */
  function Lookup(slots: seq<Slot>, fd: int): (r: Option<(nat, nat)>)
    requires TableOk(slots)
    ensures r.Some? ==> fd >= 0 && LiveAt(slots, r.value.0, r.value.1, fd)
    ensures r.None? ==> fd < 0 || forall i, h :: !LiveAt(slots, i, h, fd)
  {
    if fd < 0 then None else LookupFrom(slots, 0, fd)
  }

  function LookupFrom(slots: seq<Slot>, from: nat, fd: int): (r: Option<(nat, nat)>)
    requires TableOk(slots) && from <= |slots|
    ensures r.Some? ==> from <= r.value.0 && LiveAt(slots, r.value.0, r.value.1, fd)
    ensures r.None? ==> forall i, h :: from <= i ==> !LiveAt(slots, i, h, fd)
    decreases |slots| - from
  {
    if from == |slots| then None
    else match FindHandle(slots[from].handles[..slots[from].count], fd)
      case Some(h) => Some((from, h))
      case None =>
        assert forall h :: 0 <= h < slots[from].count ==>
          slots[from].handles[h] == slots[from].handles[..slots[from].count][h];
        LookupFrom(slots, from + 1, fd)
  }

  /** The end of common_open_logic: fd and flags are written, the entry's stash is not touched. */
  function Publish(slots: seq<Slot>, i: nat, fd: int, flags: int, config: int): (r: seq<Slot>)
    requires TableOk(slots) && i < |slots| && slots[i].count < MAX_HANDLES
    ensures TableOk(r) && |r| == |slots|
  {
    var s := slots[i];
    slots[i := s.(handles := s.handles[s.count := s.handles[s.count].(fd := fd, flags := flags)],
                  count := s.count + 1, config := Some(config))]
  }

  /** Swap-remove of entry h; the entry that was last stays behind unchanged. */
  function Retire(slots: seq<Slot>, i: nat, h: nat): (r: seq<Slot>)
    requires TableOk(slots) && i < |slots| && h < slots[i].count
    ensures TableOk(r) && |r| == |slots|
  {
    var s := slots[i];
    slots[i := s.(handles := s.handles[h := s.handles[s.count - 1]], count := s.count - 1,
                  config := if s.count == 1 then None else s.config)]
  }

  function SetPartial(slots: seq<Slot>, i: nat, h: nat, bytes: seq<Byte>): (r: seq<Slot>)
    requires TableOk(slots) && i < |slots| && h < slots[i].count
    ensures TableOk(r) && |r| == |slots|
  {
    var s := slots[i];
    slots[i := s.(handles := s.handles[h := s.handles[h].(partial := bytes)])]
  }

  function CloseFd(slots: seq<Slot>, fd: int): (r: seq<Slot>)
    requires TableOk(slots)
    ensures TableOk(r) && |r| == |slots|
  {
    match Lookup(slots, fd)
    case None => slots
    case Some((i, h)) => Retire(slots, i, h)
  }

  function StashOf(slots: seq<Slot>, fd: int): seq<Byte>
    requires TableOk(slots)
  {
    match Lookup(slots, fd)
    case None => []
    case Some((i, h)) => slots[i].handles[h].partial
  }

  function PutStash(slots: seq<Slot>, fd: int, bytes: seq<Byte>): (r: seq<Slot>)
    requires TableOk(slots)
    ensures TableOk(r) && |r| == |slots|
  {
    match Lookup(slots, fd)
    case None => slots
    case Some((i, h)) =>
      if |bytes| == 0 || |bytes| > MAX_EVENT_SIZE then slots else SetPartial(slots, i, h, bytes)
  }

  function TakeStash(slots: seq<Slot>, fd: int): (r: seq<Slot>)
    requires TableOk(slots)
    ensures TableOk(r) && |r| == |slots|
  {
    match Lookup(slots, fd)
    case None => slots
    case Some((i, h)) => SetPartial(slots, i, h, [])
  }

  // ----- What other threads may do to the table between two of our critical sections

  datatype TableOp =
    | OpPublish(dev: nat, fd: int, flags: int, config: int)
    | OpClose(fd: int)
    | OpTake(fd: int)
    | OpPut(fd: int, bytes: seq<Byte>)

  function Apply(slots: seq<Slot>, op: TableOp): (r: seq<Slot>)
    requires TableOk(slots)
    ensures TableOk(r) && |r| == |slots|
  {
    match op
    case OpPublish(dev, fd, flags, config) =>
      if dev < |slots| && slots[dev].count < MAX_HANDLES then Publish(slots, dev, fd, flags, config) else slots
    case OpClose(fd) => CloseFd(slots, fd)
    case OpTake(fd) => TakeStash(slots, fd)
    case OpPut(fd, bytes) => PutStash(slots, fd, bytes)
  }

  function ApplyAll(slots: seq<Slot>, ops: seq<TableOp>): (r: seq<Slot>)
    requires TableOk(slots)
    ensures TableOk(r) && |r| == |slots|
    decreases |ops|
  {
    if ops == [] then slots else ApplyAll(Apply(slots, ops[0]), ops[1..])
  }

  lemma LookupOwned(slots: seq<Slot>, fd: int, i: nat, h: nat)
    requires TableOk(slots) && fd >= 0 && OwnedAt(slots, fd, i, h)
    ensures Lookup(slots, fd) == Some((i, h))
  {
    assert LiveAt(slots, i, h, fd);
  }

  /** Closing another fd may move this handle to another index but keeps its entry, and only once. */
  lemma RetireKeepsOthers(slots: seq<Slot>, i: nat, h: nat, fd: int, di: nat, dh: nat) returns (dh': nat)
    requires TableOk(slots) && OwnedAt(slots, fd, di, dh)
    requires i < |slots| && h < slots[i].count && slots[i].handles[h].fd != fd
    ensures var r := Retire(slots, i, h);
            OwnedAt(r, fd, di, dh') && r[di].handles[dh'] == slots[di].handles[dh]
  {
    var r := Retire(slots, i, h);
    dh' := if i == di && dh == slots[i].count - 1 then h else dh;
    forall i', h' | LiveAt(r, i', h', fd) ensures i' == di && h' == dh' {
      if i' == i && h' == h {
        assert LiveAt(slots, i, slots[i].count - 1, fd);
      } else {
        assert LiveAt(slots, i', h', fd);
      }
    }
  }

  lemma PublishKeepsOthers(slots: seq<Slot>, i: nat, newFd: int, flags: int, config: int, fd: int, di: nat, dh: nat)
    requires TableOk(slots) && i < |slots| && slots[i].count < MAX_HANDLES
    requires OwnedAt(slots, fd, di, dh) && newFd != fd
    ensures var r := Publish(slots, i, newFd, flags, config);
            OwnedAt(r, fd, di, dh) && r[di].handles[dh] == slots[di].handles[dh]
  {
    var r := Publish(slots, i, newFd, flags, config);
    forall i', h' | LiveAt(r, i', h', fd) ensures i' == di && h' == dh {
      assert LiveAt(slots, i', h', fd);
    }
  }

  lemma SetPartialKeepsOwned(slots: seq<Slot>, i: nat, h: nat, bytes: seq<Byte>, fd: int, di: nat, dh: nat)
    requires TableOk(slots) && OwnedAt(slots, fd, di, dh)
    requires i < |slots| && h < slots[i].count
    ensures var r := SetPartial(slots, i, h, bytes);
            && OwnedAt(r, fd, di, dh) && r[di].handles[dh].flags == slots[di].handles[dh].flags
            && r[di].handles[dh].partial == if (i, h) == (di, dh) then bytes else slots[di].handles[dh].partial
  {
    var r := SetPartial(slots, i, h, bytes);
    forall i', h' | LiveAt(r, i', h', fd) ensures i' == di && h' == dh {
      assert LiveAt(slots, i', h', fd);
    }
  }

  /**
   Whatever other threads do with other fds, this handle's entry survives with its flags and
   stash; only its index inside the same device's slot may change.
   */
  lemma {:induction false} OthersKeepHandle(slots: seq<Slot>, ops: seq<TableOp>, fd: int, di: nat, dh: nat)
    returns (dh': nat)
    requires TableOk(slots) && fd >= 0 && OwnedAt(slots, fd, di, dh)
    requires forall k :: 0 <= k < |ops| ==> ops[k].fd != fd
    ensures var r := ApplyAll(slots, ops);
            && OwnedAt(r, fd, di, dh') && r[di].handles[dh'] == slots[di].handles[dh]
            && r[di].kind == slots[di].kind
    decreases |ops|
  {
    if ops == [] {
      dh' := dh;
    } else {
      var next := Apply(slots, ops[0]);
      var mid := dh;
      match ops[0] {
        case OpPublish(dev, f, flags, config) =>
          if dev < |slots| && slots[dev].count < MAX_HANDLES {
            PublishKeepsOthers(slots, dev, f, flags, config, fd, di, dh);
          }
        case OpClose(f) =>
          if Lookup(slots, f).Some? {
            var (i, h) := Lookup(slots, f).value;
            mid := RetireKeepsOthers(slots, i, h, fd, di, dh);
          }
        case OpTake(f) =>
          if Lookup(slots, f).Some? {
            var (i, h) := Lookup(slots, f).value;
            SetPartialKeepsOwned(slots, i, h, [], fd, di, dh);
          }
        case OpPut(f, bytes) =>
          if Lookup(slots, f).Some? {
            var (i, h) := Lookup(slots, f).value;
            SetPartialKeepsOwned(slots, i, h, bytes, fd, di, dh);
          }
      }
      assert OwnedAt(next, fd, di, mid) && next[di].handles[mid] == slots[di].handles[dh];
      dh' := OthersKeepHandle(next, ops[1..], fd, di, mid);
    }
  }

  /** A stash is what was last put there, is taken once, and is left alone by bytes of no usable length. */
  lemma PutThenTake(slots: seq<Slot>, fd: int, i: nat, h: nat, bytes: seq<Byte>)
    requires TableOk(slots) && fd >= 0 && OwnedAt(slots, fd, i, h)
    ensures var put := PutStash(slots, fd, bytes);
            && StashOf(put, fd) == (if 0 < |bytes| <= MAX_EVENT_SIZE then bytes else StashOf(slots, fd))
            && StashOf(TakeStash(put, fd), fd) == []
  {
    LookupOwned(slots, fd, i, h);
    var put := PutStash(slots, fd, bytes);
    if 0 < |bytes| <= MAX_EVENT_SIZE {
      SetPartialKeepsOwned(slots, i, h, bytes, fd, i, h);
    }
    LookupOwned(put, fd, i, h);
    SetPartialKeepsOwned(put, i, h, [], fd, i, h);
    LookupOwned(TakeStash(put, fd), fd, i, h);
  }

  /** A device's configuration is kept exactly while it has open handles. */
  ghost predicate Configured(slots: seq<Slot>) {
    forall i | 0 <= i < |slots| :: slots[i].config.Some? <==> slots[i].count > 0
  }

  lemma {:induction false} ConfiguredExactlyWhileOpen(slots: seq<Slot>, ops: seq<TableOp>)
    requires TableOk(slots) && Configured(slots)
    ensures Configured(ApplyAll(slots, ops))
    decreases |ops|
  {
    hide Configured, Apply;
    if ops != [] {
      OpKeepsConfigured(slots, ops[0]);
      ConfiguredExactlyWhileOpen(Apply(slots, ops[0]), ops[1..]);
    }
  }

  lemma OpKeepsConfigured(slots: seq<Slot>, op: TableOp)
    requires TableOk(slots) && Configured(slots)
    ensures Configured(Apply(slots, op))
  {
    hide LiveAt;
    var r := Apply(slots, op);
    forall i | 0 <= i < |slots| ensures r[i].config.Some? <==> r[i].count > 0 {
      assert slots[i].config.Some? <==> slots[i].count > 0;
    }
  }

  // ----- Where a new handle's stash comes from

  /**
   A freshly published handle starts with the stash of the stale entry it reuses: the stream
   starts clean exactly when that entry's stash happens to be empty.
   */
  lemma FreshStash(slots: seq<Slot>, i: nat, fd: int, flags: int, config: int)
    requires TableOk(slots) && fd >= 0 && i < |slots| && slots[i].count < MAX_HANDLES
    requires forall i', h' :: !LiveAt(slots, i', h', fd)
    ensures var r := Publish(slots, i, fd, flags, config);
            && OwnedAt(r, fd, i, slots[i].count)
            && (StashOf(r, fd) == [] <==> slots[i].handles[slots[i].count].partial == [])
            && StashOf(r, fd) == slots[i].handles[slots[i].count].partial
            && r[i].handles[slots[i].count].flags == flags && r[i].config == Some(config)
  {
    var r := Publish(slots, i, fd, flags, config);
    forall i', h' | LiveAt(r, i', h', fd) ensures i' == i && h' == slots[i].count {
      assert LiveAt(slots, i', h', fd) || (i' == i && h' == slots[i].count);
    }
    assert LiveAt(r, i, slots[i].count, fd);
    LookupOwned(r, fd, i, slots[i].count);
  }

  /**
   Opening right after a close on the same device inherits the stash of the handle that was
   last in the table, even when that handle is still open: its bytes exist twice.
   */
  lemma ReopenInheritsStash(slots: seq<Slot>, i: nat, h: nat, fd: int, flags: int, config: int)
    requires TableOk(slots) && fd >= 0 && i < |slots| && h < slots[i].count
    requires forall i', h' :: !LiveAt(slots, i', h', fd)
    ensures StashOf(Publish(Retire(slots, i, h), i, fd, flags, config), fd)
            == slots[i].handles[slots[i].count - 1].partial
  {
    var closed := Retire(slots, i, h);
    forall i', h' ensures !LiveAt(closed, i', h', fd) {
      assert !LiveAt(slots, i', h', fd) && !LiveAt(slots, i, slots[i].count - 1, fd);
    }
    FreshStash(closed, i, fd, flags, config);
  }

  // ----- Runs that keep the stale entries clean

  /** The entries past the live ones hold no stash. */
  ghost predicate SlotClean(s: Slot)
    requires SlotOk(s)
  {
    forall h | s.count <= h < MAX_HANDLES :: s.handles[h].partial == []
  }

  ghost predicate AllClean(slots: seq<Slot>)
    requires TableOk(slots)
  {
    forall i | 0 <= i < |slots| :: SlotClean(slots[i])
  }

  /** A close finds no stash on the handle that is last on its device. */
  predicate ClosesClean(slots: seq<Slot>, op: TableOp)
    requires TableOk(slots)
  {
    op.OpClose? ==>
      match Lookup(slots, op.fd)
      case None => true
      case Some((i, _)) => slots[i].handles[slots[i].count - 1].partial == []
  }

  /** One step: only a close can leave a stale stash, and does exactly if the last handle has one. */
  lemma StepCleanIff(slots: seq<Slot>, op: TableOp)
    requires TableOk(slots) && AllClean(slots)
    ensures AllClean(Apply(slots, op)) <==> ClosesClean(slots, op)
  {
    var r := Apply(slots, op);
    if op.OpClose? && Lookup(slots, op.fd).Some? {
      var (i, h) := Lookup(slots, op.fd).value;
      var last := slots[i].count - 1;
      assert forall k | 0 <= k < |slots| && k != i :: r[k] == slots[k];
      assert r[i].handles[last] == slots[i].handles[last];
      assert forall k | last < k < MAX_HANDLES :: r[i].handles[k] == slots[i].handles[k];
      assert SlotClean(r[i]) <==> slots[i].handles[last].partial == [];
    } else {
      assert forall k, j | 0 <= k < |slots| && r[k].count <= j < MAX_HANDLES ::
        r[k].handles[j] == slots[k].handles[j] && slots[k].count <= j;
    }
  }

  ghost predicate AlwaysClean(slots: seq<Slot>, ops: seq<TableOp>)
    requires TableOk(slots)
    decreases |ops|
  {
    AllClean(slots) && (ops == [] || AlwaysClean(Apply(slots, ops[0]), ops[1..]))
  }

  predicate AllClosesClean(slots: seq<Slot>, ops: seq<TableOp>)
    requires TableOk(slots)
    decreases |ops|
  {
    ops == [] || (ClosesClean(slots, ops[0]) && AllClosesClean(Apply(slots, ops[0]), ops[1..]))
  }

  /** Over a whole run no stale entry ever holds a stash, if and only if no close finds one. */
  lemma {:induction false} CleanExactly(slots: seq<Slot>, ops: seq<TableOp>)
    requires TableOk(slots) && AllClean(slots)
    ensures AlwaysClean(slots, ops) <==> AllClosesClean(slots, ops)
    decreases |ops|
  {
    hide AllClean, ClosesClean, Apply;
    if ops != [] {
      StepCleanIff(slots, ops[0]);
      if ClosesClean(slots, ops[0]) {
        CleanExactly(Apply(slots, ops[0]), ops[1..]);
      } else {
        assert !AllClean(Apply(slots, ops[0]));
      }
    }
  }

  lemma {:induction false} CleanAt(slots: seq<Slot>, ops: seq<TableOp>, k: nat)
    requires TableOk(slots) && AlwaysClean(slots, ops) && k <= |ops|
    ensures AllClean(ApplyAll(slots, ops[..k]))
    decreases k
  {
    hide AllClean, Apply;
    if k > 0 {
      CleanAt(Apply(slots, ops[0]), ops[1..], k - 1);
      assert ops[..k][0] == ops[0] && ops[..k][1..] == ops[1..][..k - 1];
    }
  }

  /** In such a run every open, wherever it comes, starts with an empty stash. */
  lemma EveryOpenStartsClean(slots: seq<Slot>, ops: seq<TableOp>, k: nat)
    requires TableOk(slots) && AllClean(slots) && AllClosesClean(slots, ops)
    requires k < |ops| && ops[k].OpPublish? && ops[k].fd >= 0
    requires var at := ApplyAll(slots, ops[..k]);
             && ops[k].dev < |at| && at[ops[k].dev].count < MAX_HANDLES
             && forall i, h :: !LiveAt(at, i, h, ops[k].fd)
    ensures StashOf(Apply(ApplyAll(slots, ops[..k]), ops[k]), ops[k].fd) == []
  {
    CleanExactly(slots, ops);
    CleanAt(slots, ops, k);
    var at := ApplyAll(slots, ops[..k]);
    assert SlotClean(at[ops[k].dev]);
    FreshStash(at, ops[k].dev, ops[k].fd, ops[k].flags, ops[k].config);
  }

  /** One device with fds 3 and 4 open, the second holding one stashed byte. */
  function TwoOpenHandles(): (slots: seq<Slot>)
    ensures TableOk(slots)
  {
    var blank := Handle(0, 0, []);
    var hs := seq(MAX_HANDLES, _ => blank)[0 := Handle(3, 0, [])][1 := Handle(4, 0, [7])];
    [Slot(Js, hs, 2, Unset, Some(0))]
  }

  /** A concrete run: fd 3 closes, fd 5 opens, and both fd 4 and fd 5 now hold fd 4's byte. */
  lemma StaleStashExample()
    ensures var closed := CloseFd(TwoOpenHandles(), 3);
            && closed[0].count == 1
            && StashOf(TwoOpenHandles(), 4) == [7]
            && var reopened := Publish(closed, 0, 5, 0, 0);
               StashOf(reopened, 4) == [7] && StashOf(reopened, 5) == [7]
  {
    var slots := TwoOpenHandles();
    assert LiveAt(slots, 0, 0, 3) && LiveAt(slots, 0, 1, 4);
    LookupOwned(slots, 3, 0, 0);
    LookupOwned(slots, 4, 0, 1);
    assert forall i, h :: !LiveAt(slots, i, h, 5);
    ReopenInheritsStash(slots, 0, 0, 5, 0, 0);
    var reopened := Publish(CloseFd(slots, 3), 0, 5, 0, 0);
    assert LiveAt(reopened, 0, 0, 4);
    LookupOwned(reopened, 4, 0, 0);
  }

  // ----- The table itself, updated in place under the mutex

  class Interposer {
    var slots: seq<Slot>

    /** find_interposer_for_fd_locked: scan every slot's live handles for `fd`. */
    method FindForFd(fd: int) returns (r: Option<(nat, nat)>)
      requires TableOk(slots)
      ensures r == Lookup(slots, fd)
    {
      hide LiveAt, FindHandle;
      if fd < 0 {
        return None;
      }
      var i := 0;
      while i < |slots|
        invariant 0 <= i <= |slots|
        invariant LookupFrom(slots, i, fd) == LookupFrom(slots, 0, fd)
      {
        var h := FindInSlot(slots[i], fd);
        if h.Some? {
          return Some((i, h.value));
        }
        i := i + 1;
      }
      return None;
    }

    /** The inner scan, over one slot's live handles. */
    method FindInSlot(s: Slot, fd: int) returns (r: Option<nat>)
      requires SlotOk(s)
      ensures r == FindHandle(s.handles[..s.count], fd)
    {
      hide FindHandle;
      var h := 0;
      while h < s.count
        invariant 0 <= h <= s.count
        invariant forall j | 0 <= j < h :: s.handles[j].fd != fd
      {
        if s.handles[h].fd == fd {
          FirstHandle(s.handles[..s.count], fd, h);
          return Some(h);
        }
        h := h + 1;
      }
      NoHandle(s.handles[..s.count], fd);
      return None;
    }

    /** The publishing critical section of common_open_logic; false is EMFILE. */
    method PublishHandle(i: nat, fd: int, flags: int, config: int) returns (ok: bool)
      requires TableOk(slots) && i < |slots|
      modifies this
      ensures TableOk(slots)
      ensures ok <==> old(slots[i].count) < MAX_HANDLES
      ensures slots == if ok then Publish(old(slots), i, fd, flags, config) else old(slots)
    {
      var s := slots[i];
      if s.count >= MAX_HANDLES {
        return false;
      }
      s := s.(handles := s.handles[s.count := s.handles[s.count].(fd := fd, flags := flags)]);
      s := s.(count := s.count + 1);
      s := s.(config := Some(config));
      slots := slots[i := s];
      return true;
    }

    /** The table half of close(): true when `fd` was an interposed handle and has been retired. */
    method RetireFd(fd: int) returns (found: bool)
      requires TableOk(slots)
      modifies this
      ensures TableOk(slots)
      ensures found <==> Lookup(old(slots), fd).Some?
      ensures slots == CloseFd(old(slots), fd)
    {
      var at := FindForFd(fd);
      if at.None? {
        return false;
      }
      var (i, h) := at.value;
      var s := slots[i];
      s := s.(handles := s.handles[h := s.handles[s.count - 1]]);
      s := s.(count := s.count - 1);
      if s.count == 0 {
        s := s.(config := None);
      }
      slots := slots[i := s];
      return true;
    }

    /** stash_partial_event_locked. */
    method StashPartialEvent(fd: int, bytes: seq<Byte>)
      requires TableOk(slots)
      modifies this
      ensures TableOk(slots)
      ensures slots == PutStash(old(slots), fd, bytes)
    {
      if |bytes| == 0 || |bytes| > MAX_EVENT_SIZE {
        return;
      }
      var at := FindForFd(fd);
      if at.Some? {
        slots := SetPartial(slots, at.value.0, at.value.1, bytes);
      }
    }
  }
}
