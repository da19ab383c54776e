/**
 The playback worklet: packets of interleaved samples queue up in a small drop-oldest ring and
 are de-interleaved into fixed-size render quanta, with silence when the ring runs dry.
 */
module PlaybackRing {
  import opened Wrappers

  /** A sample value; only zero is special. */
  type Sample = int

  /** One decoded packet of interleaved samples. */
  datatype Packet = Packet(samples: seq<Sample>)

  const MAX_BUFFER_PACKETS: nat := 8

  // ----- What a packet sounds like

  /** One output frame: the samples of `data` from index `from` on, one per channel. */
  datatype Frame = Frame(data: Packet, from: nat)

  /**
   What channel c hears: the c-th sample, or channel 0's again once the packet has ended inside
   the frame. An empty packet still occupies a frame and leaves the zeroed output as it is.
   */
  function Heard(f: Frame, c: nat): Sample {
    var s := f.data.samples;
    if f.from >= |s| then 0 else if f.from + c < |s| then s[f.from + c] else s[f.from]
  }

  /** The frames of `data` from index `from` to its end. */
  function FramesFrom(data: Packet, from: nat, chans: nat): seq<Frame>
    requires chans > 0 && from <= |data.samples|
    decreases |data.samples| - from
  {
    if from == |data.samples| then []
    else [Frame(data, from)] + FramesFrom(data, Min(from + chans, |data.samples|), chans)
  }

  function FramesOf(data: Packet, chans: nat): seq<Frame>
    requires chans > 0
  {
    if data.samples == [] then [Frame(data, 0)] else FramesFrom(data, 0, chans)
  }

  function FramesOfAll(packets: seq<Packet>, chans: nat): seq<Frame>
    requires chans > 0
  {
    if packets == [] then [] else FramesOf(packets[0], chans) + FramesOfAll(packets[1..], chans)
  }

  lemma {:induction false} FramesOfAllAppend(a: seq<Packet>, b: seq<Packet>, chans: nat)
    requires chans > 0
    ensures FramesOfAll(a + b, chans) == FramesOfAll(a, chans) + FramesOfAll(b, chans)
  {
    if a == [] {
      assert a + b == b;
    } else {
      assert (a + b)[0] == a[0] && (a + b)[1..] == a[1..] + b;
      FramesOfAllAppend(a[1..], b, chans);
    }
  }

  /** The samples of a run of frames, channel by channel within each frame. */
  function Interleave(frames: seq<Frame>, chans: nat): seq<Sample> {
    if frames == [] then []
    else seq(chans, c requires 0 <= c < chans => Heard(frames[0], c)) + Interleave(frames[1..], chans)
  }

  lemma {:induction false} InterleaveAppend(a: seq<Frame>, b: seq<Frame>, chans: nat)
    ensures Interleave(a + b, chans) == Interleave(a, chans) + Interleave(b, chans)
  {
    if a == [] {
      assert a + b == b;
    } else {
      assert (a + b)[0] == a[0] && (a + b)[1..] == a[1..] + b;
      InterleaveAppend(a[1..], b, chans);
    }
  }

  lemma {:induction false} WholeFramesInterleave(data: Packet, from: nat, frames: nat, chans: nat)
    requires chans > 0 && from <= |data.samples| && |data.samples| - from == frames * chans
    ensures Interleave(FramesFrom(data, from, chans), chans) == data.samples[from..]
    decreases frames
  {
    if frames > 0 {
      assert frames * chans == (frames - 1) * chans + chans;
      WholeFramesInterleave(data, from + chans, frames - 1, chans);
      assert seq(chans, c requires 0 <= c < chans => Heard(Frame(data, from), c)) == data.samples[from..from + chans];
      assert data.samples[from..] == data.samples[from..from + chans] + data.samples[from + chans..];
    } else {
      assert data.samples[from..] == [];
    }
  }

  /** A packet that ends inside a frame: the channels without a sample of their own hear channel 0's. */
  lemma ShortFrameRepeats(f: Frame, c: nat)
    requires f.from < |f.data.samples| <= f.from + c
    ensures Heard(f, c) == Heard(f, 0) == f.data.samples[f.from]
  {
  }

  /** A packet lasts as many frames as its samples fill, a last partial one counted. */
  lemma {:induction false} FrameCount(data: Packet, from: nat, chans: nat)
    requires chans > 0 && from < |data.samples|
    ensures var n := |FramesFrom(data, from, chans)|;
            n > 0 && (n - 1) * chans < |data.samples| - from <= n * chans
    decreases |data.samples| - from
  {
    var next := Min(from + chans, |data.samples|);
    if next < |data.samples| {
      FrameCount(data, next, chans);
      var n := |FramesFrom(data, next, chans)|;
      assert (n + 1 - 1) * chans == (n - 1) * chans + chans && (n + 1) * chans == n * chans + chans;
    } else {
      assert FramesFrom(data, next, chans) == [];
    }
  }

  function Samples(packets: seq<Packet>): seq<Sample> {
    if packets == [] then [] else packets[0].samples + Samples(packets[1..])
  }

  /**
   Packets made of whole frames are heard exactly as sent: re-interleaving their frames gives
   the packets' samples back, packet after packet.
   */
  lemma {:induction false} InterleavingInverts(packets: seq<Packet>, chans: nat)
    requires chans > 0
    requires forall k :: 0 <= k < |packets| ==> packets[k].samples != [] && |packets[k].samples| % chans == 0
    ensures Interleave(FramesOfAll(packets, chans), chans) == Samples(packets)
  {
    if packets != [] {
      var p := packets[0];
      WholeFramesInterleave(p, 0, |p.samples| / chans, chans);
      InterleaveAppend(FramesOf(p, chans), FramesOfAll(packets[1..], chans), chans);
      InterleavingInverts(packets[1..], chans);
    }
  }

  lemma TakeFirst<T>(before: seq<T>, here: seq<T>, after: seq<T>)
    requires here != []
    ensures (before + [here[0]]) + here[1..] == before + here
    ensures (here + after)[0] == here[0] && (here + after)[1..] == here[1..] + after
  {
  }

  lemma TakeFirstOfThree<T>(before: seq<T>, first: T, rest: seq<T>, after: seq<T>)
    ensures (before + [first]) + rest == before + ([first] + rest)
    ensures (([first] + rest) + after)[0] == first && (([first] + rest) + after)[1..] == rest + after
  {
  }

  /** The first |frames| positions of every channel are these frames, de-interleaved. */
  ghost predicate Shows(output: array2<Sample>, frames: seq<Frame>)
    reads output
  {
    && |frames| <= output.Length1
    && forall c, i :: 0 <= c < output.Length0 && 0 <= i < |frames| ==> output[c, i] == Heard(frames[i], c)
  }

  ghost predicate SilentFrom(output: array2<Sample>, from: nat)
    reads output
  {
    forall c, i :: 0 <= c < output.Length0 && from <= i < output.Length1 ==> output[c, i] == 0
  }

  /** Frames still to come from the current packet. */
  function Rest(current: Option<Packet>, offset: nat, chans: nat): seq<Frame>
    requires chans > 0 && (current.Some? ==> offset <= |current.value.samples|)
  {
    if current.None? then [] else FramesFrom(current.value, offset, chans)
  }

  lemma FirstFrame(data: Packet, from: nat, chans: nat)
    requires chans > 0 && (from < |data.samples| || (data.samples == [] && from == 0))
    ensures (if data.samples == [] then FramesOf(data, chans) else FramesFrom(data, from, chans))
            == [Frame(data, from)] + FramesFrom(data, Min(from + chans, |data.samples|), chans)
  {
  }

  lemma TakePacket(taken: seq<Packet>, queue: seq<Packet>, played: seq<Frame>, chans: nat)
    requires chans > 0 && queue != [] && played + [] == FramesOfAll(taken, chans)
    ensures FramesOfAll(taken + [queue[0]], chans) == played + FramesOf(queue[0], chans)
    ensures [] + FramesOfAll(queue, chans) == FramesOf(queue[0], chans) + FramesOfAll(queue[1..], chans)
  {
    FramesOfAllAppend(taken, [queue[0]], chans);
    assert FramesOfAll([queue[0]], chans) == FramesOf(queue[0], chans) + [] == FramesOf(queue[0], chans);
    assert played + [] == played;
  }

  lemma NothingRests(current: Option<Packet>, offset: nat, chans: nat)
    requires chans > 0 && (current.Some? ==> offset <= |current.value.samples|)
    ensures current.None? || offset == |current.value.samples| ==> Rest(current, offset, chans) == []
  {
  }

  lemma NoFrames(chans: nat)
    requires chans > 0
    ensures FramesOfAll([], chans) == []
  {
  }

  lemma NothingShown(output: array2<Sample>)
    ensures Shows(output, [])
  {
  }

  // ----- Which packets survive

  /** The packets with a true flag, in order. */
  function Chosen(packets: seq<Packet>, flags: seq<bool>): seq<Packet>
    requires |packets| == |flags|
  {
    if packets == [] then [] else
      var n := |packets| - 1;
      Chosen(packets[..n], flags[..n]) + if flags[n] then [packets[n]] else []
  }

  lemma ChosenSnoc(packets: seq<Packet>, flags: seq<bool>, p: Packet, flag: bool)
    requires |packets| == |flags|
    ensures Chosen(packets + [p], flags + [flag]) == Chosen(packets, flags) + if flag then [p] else []
  {
    assert (packets + [p])[..|packets|] == packets && (flags + [flag])[..|flags|] == flags;
  }

  function AllTrue(n: nat): seq<bool> {
    seq(n, _ => true)
  }

  lemma {:induction false} ChosenAppend(packets: seq<Packet>, flags: seq<bool>, more: seq<Packet>)
    requires |packets| == |flags|
    ensures Chosen(packets + more, flags + AllTrue(|more|)) == Chosen(packets, flags) + more
    decreases |more|
  {
    if more == [] {
      assert packets + more == packets && flags + AllTrue(0) == flags;
    } else {
      var n := |more| - 1;
      ChosenAppend(packets, flags, more[..n]);
      ChosenSnoc(packets + more[..n], flags + AllTrue(n), more[n], true);
      assert packets + more == (packets + more[..n]) + [more[n]];
      assert flags + AllTrue(|more|) == (flags + AllTrue(n)) + [true];
      assert Chosen(packets, flags) + more == (Chosen(packets, flags) + more[..n]) + [more[n]];
    }
  }

  /**
   The queue holds the newest packets pushed. Of those gone from it the taken ones are the chosen, the
   others were dropped, and taken and queued ones are the survivors.
   */
  predicate Ledger(pushed: seq<Packet>, gone: seq<Packet>, kept: seq<bool>, survivors: seq<Packet>,
                   taken: seq<Packet>, queue: seq<Packet>, dropped: nat) {
    && pushed == gone + queue && survivors == taken + queue
    && |kept| == |gone| && taken == Chosen(gone, kept)
    && |gone| == |taken| + dropped
  }

  lemma LedgerTake(pushed: seq<Packet>, gone: seq<Packet>, kept: seq<bool>, survivors: seq<Packet>,
                   taken: seq<Packet>, queue: seq<Packet>, dropped: nat)
    requires Ledger(pushed, gone, kept, survivors, taken, queue, dropped) && queue != []
    ensures Ledger(pushed, gone + [queue[0]], kept + [true], survivors, taken + [queue[0]], queue[1..], dropped)
  {
    hide Chosen;
    ChosenSnoc(gone, kept, queue[0], true);
    TakeFirst(gone, queue, []);
    TakeFirst(taken, queue, []);
  }

  lemma LedgerDrop(pushed: seq<Packet>, gone: seq<Packet>, kept: seq<bool>, survivors: seq<Packet>,
                   taken: seq<Packet>, queue: seq<Packet>, dropped: nat)
    requires Ledger(pushed, gone, kept, survivors, taken, queue, dropped) && queue != []
    ensures Ledger(pushed, gone + [queue[0]], kept + [false], taken + queue[1..], taken, queue[1..], dropped + 1)
  {
    hide Chosen;
    ChosenSnoc(gone, kept, queue[0], false);
    TakeFirst(gone, queue, []);
  }

  lemma LedgerPush(pushed: seq<Packet>, gone: seq<Packet>, kept: seq<bool>, survivors: seq<Packet>,
                   taken: seq<Packet>, queue: seq<Packet>, dropped: nat, p: Packet)
    requires Ledger(pushed, gone, kept, survivors, taken, queue, dropped)
    ensures Ledger(pushed + [p], gone, kept, taken + (queue + [p]), taken, queue + [p], dropped)
  {
    hide Chosen;
    Regroup(gone, queue, [p]);
  }

  // ----- The processor

  class AudioFrameProcessor {
    const chans: nat
    var queue: seq<Packet>
    var current: Option<Packet>
    var offset: nat
    var underrunSamples: nat
    var droppedOldest: nat

    ghost var pushed: seq<Packet>     // every packet ever received
    ghost var gone: seq<Packet>       // those no longer in the queue, taken or dropped
    ghost var kept: seq<bool>         // for each of those, whether it was taken
    ghost var survivors: seq<Packet>  // those not dropped: taken already, or still queued
    ghost var taken: seq<Packet>      // packets moved from the queue into `current`
    ghost var played: seq<Frame>      // every non-concealed output frame
    ghost var left: seq<Frame>        // frames that can be played without another packet arriving

    ghost predicate Accounted()
      reads this
    {
      |queue| <= MAX_BUFFER_PACKETS && Ledger(pushed, gone, kept, survivors, taken, queue, droppedOldest)
    }

    /** Conservation of packets and of samples, at any point between two output frames. */
    ghost predicate Conserving()
      reads this
    {
      && chans > 0
      && Accounted()
      && (current.Some? ==> offset <= |current.value.samples|)
      // what was played and what is left is what the taken packets held
      && played + Rest(current, offset, chans) == FramesOfAll(taken, chans)
      && left == Rest(current, offset, chans) + FramesOfAll(queue, chans)
    }

    /** Between two render quanta the current packet is never exhausted. */
    ghost predicate Valid()
      reads this
    {
      Conserving() && (current.Some? ==> 0 < offset < |current.value.samples|)
    }

    constructor (chans: nat)
      requires chans > 0
      ensures Valid() && this.chans == chans && left == []
      ensures pushed == taken == [] && played == [] && underrunSamples == droppedOldest == 0
    {
      this.chans := chans;
      queue, current, offset, underrunSamples, droppedOldest := [], None, 0, 0, 0;
      pushed, gone, kept, survivors, taken, played, left := [], [], [], [], [], [], [];
    }

    /**
     At any time: the frames already heard followed by those that could still be played are,
     re-interleaved, exactly the samples of the packets that were not dropped, in order.
     */
    lemma HeardIsWhatSurvived()
      requires Valid()
      requires forall k :: 0 <= k < |survivors| ==> survivors[k].samples != [] && |survivors[k].samples| % chans == 0
      ensures Interleave(played, chans) + Interleave(left, chans) == Samples(survivors)
    {
      FramesOfAllAppend(taken, queue, chans);
      Regroup(played, Rest(current, offset, chans), FramesOfAll(queue, chans));
      InterleaveAppend(played, left, chans);
      InterleavingInverts(survivors, chans);
    }

    /** The survivors are the packets pushed, in order, without those dropped, one flag each. */
    lemma SurvivorsInOrder()
      requires Valid()
      ensures var flags := kept + AllTrue(|queue|);
              |flags| == |pushed| && survivors == Chosen(pushed, flags)
      ensures |pushed| == |survivors| + droppedOldest
    {
      ChosenAppend(gone, kept, queue);
    }

    /** A decoded packet arrives; a full ring drops its oldest packet first. */
    method Push(data: Packet)
      requires Valid()
      modifies this
      ensures Valid()
      ensures pushed == old(pushed) + [data] && taken == old(taken) && played == old(played)
      ensures underrunSamples == old(underrunSamples)
      ensures droppedOldest == old(droppedOldest) + if |old(queue)| == MAX_BUFFER_PACKETS then 1 else 0
      ensures queue == (if |old(queue)| == MAX_BUFFER_PACKETS then old(queue)[1..] else old(queue)) + [data]
      ensures current == old(current) && offset == old(offset)
    {
      hide Ledger, FramesOf, FramesFrom, FramesOfAll, Rest;
      if |queue| >= MAX_BUFFER_PACKETS {
        DropOldest();
      }
      Append(data);
    }

    method Append(data: Packet)
      requires Valid() && |queue| < MAX_BUFFER_PACKETS
      modifies this`queue, this`pushed, this`survivors, this`left
      ensures Valid() && queue == old(queue) + [data] && pushed == old(pushed) + [data]
    {
      hide Ledger, FramesOf, FramesFrom, FramesOfAll, Rest;
      LedgerPush(pushed, gone, kept, survivors, taken, queue, droppedOldest, data);
      queue := queue + [data];
      pushed, survivors := pushed + [data], taken + queue;
      left := Rest(current, offset, chans) + FramesOfAll(queue, chans);
    }

    method DropOldest()
      requires Valid() && queue != []
      modifies this`queue, this`gone, this`kept, this`survivors, this`droppedOldest, this`left
      ensures Valid() && queue == old(queue)[1..] && droppedOldest == old(droppedOldest) + 1
    {
      hide Ledger, FramesOf, FramesFrom, FramesOfAll, Rest;
      LedgerDrop(pushed, gone, kept, survivors, taken, queue, droppedOldest);
      gone, kept := gone + [queue[0]], kept + [false];
      queue := queue[1..];
      survivors := taken + queue;
      droppedOldest := droppedOldest + 1;
      left := Rest(current, offset, chans) + FramesOfAll(queue, chans);
    }

    /** Shifting the next packet out of the ring into `current`. */
    method NextPacket()
      requires Conserving() && queue != [] && (current.None? || offset == |current.value.samples|)
      modifies this`queue, this`current, this`offset, this`gone, this`kept, this`taken
      ensures current == Some(old(queue)[0]) && offset == 0
      ensures queue == old(queue)[1..] && taken == old(taken) + [old(queue)[0]]
      ensures Accounted()
      ensures old(left) == FramesOf(old(queue)[0], chans) + FramesOfAll(queue, chans)
      ensures FramesOfAll(taken, chans) == played + FramesOf(old(queue)[0], chans)
    {
      hide Ledger, FramesOf, FramesFrom, FramesOfAll;
      NothingRests(current, offset, chans);
      LedgerTake(pushed, gone, kept, survivors, taken, queue, droppedOldest);
      TakePacket(taken, queue, played, chans);
      current, offset := Some(queue[0]), 0;
      taken := taken + [queue[0]];
      gone, kept := gone + [queue[0]], kept + [true];
      queue := queue[1..];
    }

    /** Make `current` a packet with something to play at `offset`; false when the ring is dry. */
    method EnsurePacket() returns (ok: bool)
      requires Conserving()
      modifies this`queue, this`current, this`offset, this`gone, this`kept, this`taken
      ensures ok <==> left != []
      ensures !ok ==> Conserving() && current == None
      ensures ok ==> Accounted()
      ensures ok ==> current.Some? && (offset < |current.value.samples| || (current.value.samples == [] && offset == 0))
      ensures ok ==> var rest := [Frame(current.value, offset)]
                       + FramesFrom(current.value, Min(offset + chans, |current.value.samples|), chans);
                     left == rest + FramesOfAll(queue, chans) && played + rest == FramesOfAll(taken, chans)
    {
      hide Ledger, FramesFrom, FramesOfAll;
      NothingRests(current, offset, chans);
      NoFrames(chans);
      if current.None? || offset >= |current.value.samples| {
        if queue == [] {
          current, offset := None, 0;
          return false;
        }
        NextPacket();
      }
      FirstFrame(current.value, offset, chans);
      return true;
    }

    /** Output frame i of a quantum: the next frame of the stream, or false when there is none. */
    method PlayFrame(output: array2<Sample>, i: nat) returns (ok: bool)
      requires Conserving() && output.Length0 == chans && i < output.Length1
      requires forall c :: 0 <= c < chans ==> output[c, i] == 0
      modifies this`queue, this`current, this`offset, this`gone, this`kept, this`taken, this`played, this`left, output
      ensures Conserving()
      ensures ok <==> old(left) != []
      ensures ok ==> left == old(left)[1..] && played == old(played) + [old(left)[0]]
      ensures ok ==> forall c :: 0 <= c < chans ==> output[c, i] == Heard(old(left)[0], c)
      ensures ok ==> current.Some? && (offset == 0 ==> current.value.samples == [])
      ensures !ok ==> current == None && left == [] && played == old(played)
      ensures !ok ==> forall c :: 0 <= c < chans ==> output[c, i] == 0
      ensures forall c, j :: 0 <= c < chans && 0 <= j < output.Length1 && j != i ==> output[c, j] == old(output[c, j])
    {
      hide Ledger, FramesOf, FramesFrom, FramesOfAll, Rest;
      ok := EnsurePacket();
      if ok {
        var next := WriteFrame(output, i, current.value, offset);
        Consume(next);
      }
    }

    /** The frame at `offset` has been written out; `next` is where the following one starts. */
    method Consume(next: nat)
      requires chans > 0 && Accounted()
      requires current.Some? && offset <= |current.value.samples|
      requires next == Min(offset + chans, |current.value.samples|)
      requires var rest := [Frame(current.value, offset)] + FramesFrom(current.value, next, chans);
               left == rest + FramesOfAll(queue, chans) && played + rest == FramesOfAll(taken, chans)
      modifies this`offset, this`played, this`left
      ensures Conserving() && offset == next
      ensures left == old(left)[1..] && old(left) != []
      ensures played == old(played) + [old(left)[0]] && old(left)[0] == Frame(current.value, old(offset))
    {
      hide Ledger;
      TakeFirstOfThree(played, Frame(current.value, offset), FramesFrom(current.value, next, chans),
                       FramesOfAll(queue, chans));
      played, left, offset := played + [left[0]], left[1..], next;
    }

    /** PlayFrame seen from the outside: the shown prefix of the quantum grows by the next frame. */
    method ShowFrame(output: array2<Sample>, i: nat, ghost shown: seq<Frame>) returns (ok: bool)
      requires Conserving() && output.Length0 == chans && i < output.Length1
      requires |shown| == i && Shows(output, shown) && SilentFrom(output, i)
      modifies this`queue, this`current, this`offset, this`gone, this`kept, this`taken, this`played, this`left, output
      ensures Conserving()
      ensures ok <==> old(left) != []
      ensures ok ==> left == old(left)[1..] && played == old(played) + [old(left)[0]]
      ensures ok ==> Shows(output, shown + [old(left)[0]]) && SilentFrom(output, i + 1)
      ensures ok ==> current.Some? && (offset == 0 ==> current.value.samples == [])
      ensures !ok ==> current == None && left == [] && played == old(played)
      ensures !ok ==> Shows(output, shown) && SilentFrom(output, i)
    {
      hide Ledger, FramesOf, FramesFrom, FramesOfAll, Rest;
      ok := PlayFrame(output, i);
    }

    /**
     One render quantum of n frames. The first k = min(n, available) are the next k frames of the
     stream, the rest is silence, and the underrun counter grows by exactly the silent frames.
     The audio engine hands over zeroed output buffers.
     */
    method Process(output: array2<Sample>)
      requires Valid() && output.Length0 == chans && SilentFrom(output, 0)
      modifies this, output
      ensures Valid()
      ensures pushed == old(pushed) && survivors == old(survivors) && droppedOldest == old(droppedOldest)
      ensures var n, k := output.Length1, Min(output.Length1, |old(left)|);
              && played == old(played) + old(left)[..k]
              && left == old(left)[k..]
              && underrunSamples == old(underrunSamples) + (n - k)
              && Shows(output, old(left)[..k]) && SilentFrom(output, k)
    {
      hide Ledger, FramesOf, FramesFrom, FramesOfAll, Heard;
      NothingRests(current, offset, chans);
      if queue == [] && current.None? {
        NoFrames(chans);
        ZeroFill(output, 0);
        NothingShown(output);
        underrunSamples := underrunSamples + output.Length1;
        return;
      }
      var i := PlayFrames(output);
      if i < output.Length1 {
        ZeroFill(output, i);
        underrunSamples := underrunSamples + (output.Length1 - i);
      } else if current.Some? && offset >= |current.value.samples| {
        NothingRests(current, offset, chans);
        current, offset := None, 0;
      }
    }

    /** The sample loop of a quantum, up to the first frame that cannot be played. */
    method PlayFrames(output: array2<Sample>) returns (i: nat)
      requires Conserving() && output.Length0 == chans && SilentFrom(output, 0)
      requires current.Some? && offset == 0 ==> current.value.samples == []
      modifies this`queue, this`current, this`offset, this`gone, this`kept, this`taken, this`played, this`left, output
      ensures Conserving() && i == Min(output.Length1, |old(left)|)
      ensures current.Some? && offset == 0 ==> current.value.samples == []
      ensures i < output.Length1 ==> current == None
      ensures played == old(played) + old(left)[..i] && left == old(left)[i..]
      ensures Shows(output, old(left)[..i]) && SilentFrom(output, i)
    {
      hide Ledger, FramesOf, FramesFrom, FramesOfAll, Rest, Shows, SilentFrom;
      NothingShown(output);
      ghost var avail := left;
      i := 0;
      while i < output.Length1
        invariant 0 <= i <= output.Length1 && i <= |avail| && Conserving()
        invariant current.Some? && offset == 0 ==> current.value.samples == []
        invariant played == old(played) + avail[..i] && left == avail[i..]
        invariant Shows(output, avail[..i]) && SilentFrom(output, i)
      {
        var ok := ShowFrame(output, i, avail[..i]);
        if !ok {
          return;
        }
        PrefixSnoc(avail, i);
        Regroup(old(played), avail[..i], [avail[i]]);
        i := i + 1;
      }
    }
  }

  method ZeroFill(output: array2<Sample>, from: nat)
    modifies output
    ensures SilentFrom(output, from)
    ensures forall c, j :: 0 <= c < output.Length0 && 0 <= j < output.Length1 && j < from ==>
              output[c, j] == old(output[c, j])
  {
    forall c, j | 0 <= c < output.Length0 && from <= j < output.Length1 {
      output[c, j] := 0;
    }
  }

  /** The channel loop: `chans` samples, padded with channel 0 once the packet has ended. */
  method WriteFrame(output: array2<Sample>, i: nat, data: Packet, from: nat) returns (off: nat)
    requires output.Length0 > 0 && i < output.Length1
    requires from < |data.samples| || (data.samples == [] && from == 0)
    requires forall c :: 0 <= c < output.Length0 ==> output[c, i] == 0
    modifies output
    ensures off == Min(from + output.Length0, |data.samples|)
    ensures forall c :: 0 <= c < output.Length0 ==> output[c, i] == Heard(Frame(data, from), c)
    ensures forall c, j :: 0 <= c < output.Length0 && 0 <= j < output.Length1 && j != i ==>
              output[c, j] == old(output[c, j])
  {
    off := from;
    var c := 0;
    while c < output.Length0
      invariant 0 <= c <= output.Length0
      invariant off == Min(from + c, |data.samples|)
      invariant forall k :: 0 <= k < c ==> output[k, i] == Heard(Frame(data, from), k)
      invariant forall k :: c <= k < output.Length0 ==> output[k, i] == 0
      invariant forall k, j :: 0 <= k < output.Length0 && 0 <= j < output.Length1 && j != i ==>
                  output[k, j] == old(output[k, j])
    {
      if off < |data.samples| {
        output[c, i] := data.samples[off];
        off := off + 1;
      } else {
        output[c, i] := output[0, i];
      }
      c := c + 1;
    }
  }
}
