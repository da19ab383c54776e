/**
 The video worker's decoder gate: which encoded chunks reach decode() while decoders are
 configured, closed, fail and fall behind.
 */
module WorkerDecoder {

  const OVERLOAD_QUEUE: nat := 24

  /** No decoder, a configured one, or one the browser has closed under us. */
  datatype DecoderState = Absent | Configured | Dead

  datatype Message =
    | DecoderConfig(accepted: bool)
    | CloseDecoder
    | Chunk(key: bool, queueSize: nat, decodes: bool)
    | DecoderError           // the decoder's error callback
    | BrowserClosed          // the decoder's state leaves 'configured' on its own

  /** A chunk handed to decode(): its number in arrival order, the configuration it went to, its type. */
  datatype Decoded = Decoded(index: nat, epoch: nat, key: bool)

  /** b is the very next chunk received after a, and went to the same configured decoder. */
  predicate Follows(a: Decoded, b: Decoded) {
    b.index == a.index + 1 && b.epoch == a.epoch
  }

  /** Every delta comes right after the chunk received just before it. */
  ghost predicate DeltasFollow(log: seq<Decoded>) {
    forall k :: 0 <= k < |log| && !log[k].key ==> k > 0 && Follows(log[k - 1], log[k])
  }

  /** Chunks are decoded in arrival order, configuration after configuration, deltas only in sequence. */
  ghost predicate LogOk(log: seq<Decoded>, received: nat, epoch: nat) {
    && DeltasFollow(log)
    && (forall k :: 0 <= k < |log| ==> log[k].index < received && log[k].epoch <= epoch)
    && forall k :: 0 < k < |log| ==> log[k - 1].index < log[k].index && log[k - 1].epoch <= log[k].epoch
  }

  /** Appending chunk number received-1 keeps the log in order if it is a key or the next in sequence. */
  lemma LogSnoc(log: seq<Decoded>, received: nat, epoch: nat, key: bool)
    requires received > 0 && LogOk(log, received - 1, epoch)
    ensures LogOk(log, received, epoch)
    ensures forall dec :: !InSequence(Trace(dec, received, epoch, log))
    ensures var d := Decoded(received - 1, epoch, key);
            key || (|log| > 0 && Follows(log[|log| - 1], d)) ==> LogOk(log + [d], received, epoch)
  {
  }

  /** log[from..to] is a run: a key first, then chunk after chunk as received, one decoder. */
  ghost predicate Run(log: seq<Decoded>, from: nat, to: nat) {
    && from < to <= |log| && log[from].key
    && forall k :: from < k < to ==> Follows(log[k - 1], log[k])
  }

  /**
   What the decoder is given splits into runs that start with a key frame and miss nothing, so
   every delta is decoded on top of exactly the chunks it depends on.
   */
  lemma {:induction false} EveryChunkIsInARun(log: seq<Decoded>, j: nat) returns (from: nat)
    requires DeltasFollow(log) && j < |log|
    ensures from <= j && Run(log, from, j + 1)
    ensures log[from].epoch == log[j].epoch && log[j].index - log[from].index == j - from
    decreases j
  {
    if log[j].key {
      from := j;
    } else {
      from := EveryChunkIsInARun(log, j - 1);
      assert Follows(log[j - 1], log[j]);
    }
  }

  // ----- The gate without its flags

  /** What can be seen of a worker: its decoder, how much came in, and the calls of decode(). */
  datatype Trace = Trace(dec: DecoderState, received: nat, epoch: nat, log: seq<Decoded>)

  /** The chunk received last went to the decoder configured now. */
  predicate InSequence(t: Trace) {
    |t.log| > 0 && t.log[|t.log| - 1].index == t.received - 1 && t.log[|t.log| - 1].epoch == t.epoch
  }

  /** A chunk is decoded by a configured decoder if it is a key, or in sequence and decoding keeps up. */
  predicate Passes(t: Trace, key: bool, queueSize: nat) {
    t.dec == Configured && (key || (InSequence(t) && queueSize <= OVERLOAD_QUEUE))
  }

  function Next(t: Trace, m: Message): Trace {
    match m
    case DecoderConfig(accepted) => t.(dec := if accepted then Configured else Absent, epoch := t.epoch + 1)
    case CloseDecoder => t.(dec := Absent)
    case DecoderError => t.(dec := Absent)
    case BrowserClosed => if t.dec == Configured then t.(dec := Dead) else t
    case Chunk(key, queueSize, decodes) =>
      var arrived := t.(received := t.received + 1);
      if !Passes(t, key, queueSize) then arrived
      else arrived.(log := t.log + [Decoded(t.received, t.epoch, key)], dec := if decodes then t.dec else Absent)
  }

  function After(t: Trace, messages: seq<Message>): Trace {
    if messages == [] then t else Next(After(t, messages[..|messages| - 1]), messages[|messages| - 1])
  }

  /** This message leaves no configured decoder behind. */
  predicate Kills(t: Trace, m: Message) {
    match m
    case DecoderConfig(accepted) => !accepted
    case Chunk(key, queueSize, decodes) => Passes(t, key, queueSize) && !decodes
    case CloseDecoder => true
    case DecoderError => true
    case BrowserClosed => true
  }

  /** A decoder is there exactly if one was accepted last with nothing since that killed it. */
  lemma {:induction false} ConfiguredExactly(t: Trace, messages: seq<Message>)
    ensures After(t, messages).dec == Configured <==>
            (t.dec == Configured || exists i | 0 <= i < |messages| :: messages[i] == DecoderConfig(true))
            && AliveSince(t, messages, LastAccepted(messages))
    decreases |messages|
  {
    hide Passes;
    if messages != [] {
      var n := |messages| - 1;
      ConfiguredExactly(t, messages[..n]);
      assert forall i | 0 <= i < n :: messages[..n][i] == messages[i];
      AliveSnoc(t, messages, n);
    }
  }

  /** Just past the last accepted configuration, or the start if there is none. */
  function LastAccepted(messages: seq<Message>): (i: nat)
    ensures i <= |messages| && (i > 0 ==> messages[i - 1] == DecoderConfig(true))
    ensures forall j | i <= j < |messages| :: messages[j] != DecoderConfig(true)
  {
    if messages == [] then 0
    else if messages[|messages| - 1] == DecoderConfig(true) then |messages|
    else LastAccepted(messages[..|messages| - 1])
  }

  ghost predicate AliveSince(t: Trace, messages: seq<Message>, from: nat) {
    forall j: nat | from <= j < |messages| :: SparedBy(t, messages, j)
  }

  predicate SparedBy(t: Trace, messages: seq<Message>, j: nat)
    requires j < |messages|
  {
    !Kills(After(t, messages[..j]), messages[j])
  }

  lemma AliveSnoc(t: Trace, messages: seq<Message>, n: nat)
    requires |messages| == n + 1
    ensures var from := LastAccepted(messages[..n]);
            AliveSince(t, messages, from) <==> AliveSince(t, messages[..n], from) && SparedBy(t, messages, n)
    ensures messages[n] == DecoderConfig(true) ==> AliveSince(t, messages, LastAccepted(messages))
    ensures messages[n] != DecoderConfig(true) ==> LastAccepted(messages) == LastAccepted(messages[..n])
  {
    hide Kills, After;
    forall j: nat | j < n ensures SparedBy(t, messages[..n], j) == SparedBy(t, messages, j) {
      assert messages[..n][..j] == messages[..j];
    }
  }

  /** Without a decoder, and with none accepted, nothing is decoded. */
  lemma {:induction false} NothingDecodedWithout(t: Trace, messages: seq<Message>)
    requires t.dec != Configured && forall i | 0 <= i < |messages| :: messages[i] != DecoderConfig(true)
    ensures After(t, messages).log == t.log && After(t, messages).dec != Configured
    decreases |messages|
  {
    if messages != [] {
      NothingDecodedWithout(t, messages[..|messages| - 1]);
    }
  }

  /** While decoding keeps up and works, every chunk from a key on is decoded. */
  lemma {:induction false} FromKeyOnAllDecoded(t: Trace, chunks: seq<Message>)
    requires t.dec == Configured && chunks != [] && chunks[0].Chunk? && chunks[0].key
    requires forall i | 0 <= i < |chunks| ::
               chunks[i].Chunk? && chunks[i].decodes && chunks[i].queueSize <= OVERLOAD_QUEUE
    ensures var r := After(t, chunks);
            && r.dec == Configured && InSequence(r) && r.epoch == t.epoch && r.received == t.received + |chunks|
            && r.log == t.log + seq(|chunks|, i requires 0 <= i < |chunks| =>
                                      Decoded(t.received + i, t.epoch, chunks[i].key))
    decreases |chunks|
  {
    var n := |chunks| - 1;
    if n > 0 {
      FromKeyOnAllDecoded(t, chunks[..n]);
      var before := After(t, chunks[..n]);
      assert chunks[n].Chunk? && Passes(before, chunks[n].key, chunks[n].queueSize);
    } else {
      assert chunks[..0] == [];
    }
  }

  /** Every chunk and every configuration of a script is counted, decoded or not. */
  lemma {:induction false} AllCounted(t: Trace, messages: seq<Message>)
    ensures After(t, messages).received == t.received + |Chunks(messages)|
    ensures After(t, messages).epoch == t.epoch + |Configs(messages)|
    ensures t.log <= After(t, messages).log
    decreases |messages|
  {
    if messages != [] {
      AllCounted(t, messages[..|messages| - 1]);
    }
  }

  function Chunks(messages: seq<Message>): seq<Message> {
    if messages == [] then [] else
      var n := |messages| - 1;
      if messages[n].Chunk? then Chunks(messages[..n]) + [messages[n]] else Chunks(messages[..n])
  }

  function Configs(messages: seq<Message>): seq<Message> {
    if messages == [] then [] else
      var n := |messages| - 1;
      if messages[n].DecoderConfig? then Configs(messages[..n]) + [messages[n]] else Configs(messages[..n])
  }

  // ----- The worker

  class VideoWorker {
    var dec: DecoderState
    var decKey: bool
    var decNeedKey: bool

    ghost var received: nat          // chunk messages so far
    ghost var epoch: nat             // configurations so far
    ghost var log: seq<Decoded>      // calls of decode()

    ghost predicate Valid()
      reads this
    {
      && LogOk(log, received, epoch)
      && (dec == Absent ==> !decKey && !decNeedKey)
      && (dec == Configured ==> (decKey && !decNeedKey <==> InSequence(Now())))
    }

    ghost function Now(): Trace
      reads this
    {
      Trace(dec, received, epoch, log)
    }

    constructor ()
      ensures Valid() && log == [] && dec == Absent
    {
      dec, decKey, decNeedKey := Absent, false, false;
      received, epoch, log := 0, 0, [];
    }

    method DoClose()
      modifies this`dec, this`decKey, this`decNeedKey
      ensures dec == Absent && !decKey && !decNeedKey
    {
      dec, decKey, decNeedKey := Absent, false, false;
    }

    method OnConfig(accepted: bool)
      requires Valid()
      modifies this
      ensures Valid() && Now() == Next(old(Now()), DecoderConfig(accepted))
      ensures dec == if accepted then Configured else Absent
      ensures !decKey && decNeedKey == accepted
    {
      NotInSequence(if accepted then Configured else Absent, received, epoch, log);
      DoClose();
      epoch := epoch + 1;
      if accepted {
        dec := Configured;
        decNeedKey := true;
      }
    }

    /**
     A chunk is passed on exactly when the decoder is ready and it is a key, or a delta that
     nothing is missing before and the decode queue has room for.
     */
    method OnChunk(key: bool, queueSize: nat, decodes: bool) returns (passed: bool)
      requires Valid()
      modifies this
      ensures Valid() && received == old(received) + 1 && epoch == old(epoch)
      ensures passed <==> old(dec) == Configured && (key || (old(decKey && !decNeedKey) && queueSize <= OVERLOAD_QUEUE))
      ensures log == if passed then old(log) + [Decoded(old(received), epoch, key)] else old(log)
      ensures passed && !decodes ==> dec == Absent
      ensures passed && decodes ==> dec == Configured && decKey && !decNeedKey
      ensures Now() == Next(old(Now()), Chunk(key, queueSize, decodes))
    {
      hide LogOk;
      received := received + 1;
      LogSnoc(log, received, epoch, key);
      if dec != Configured {
        return false;
      }
      if key {
        decKey, decNeedKey := true, false;
      } else {
        if !decKey || decNeedKey {
          return false;
        }
        if queueSize > OVERLOAD_QUEUE {
          decNeedKey := true;
          return false;
        }
      }
      log := log + [Decoded(received - 1, epoch, key)];
      if !decodes {
        DoClose();
      }
      return true;
    }

    /**
     The worker's message and callback handlers in any order: two flags do what looking back at the
     last call of decode() would.
     */
    method Handle(messages: seq<Message>)
      requires Valid()
      modifies this
      ensures Valid() && Now() == After(old(Now()), messages)
    {
      hide LogOk, InSequence, Next;
      ghost var start := Now();
      for i := 0 to |messages|
        invariant Valid() && Now() == After(start, messages[..i])
      {
        assert messages[..i + 1][..i] == messages[..i];
        HandleOne(messages[i]);
      }
      assert messages[..|messages|] == messages;
    }

    method HandleOne(m: Message)
      requires Valid()
      modifies this
      ensures Valid() && Now() == Next(old(Now()), m)
    {
      hide LogOk, InSequence, Passes;
      match m {
        case DecoderConfig(accepted) => OnConfig(accepted);
        case CloseDecoder => DoClose();
        case Chunk(key, queueSize, decodes) => var _ := OnChunk(key, queueSize, decodes);
        case DecoderError => DoClose();
        case BrowserClosed => if dec == Configured { dec := Dead; }
      }
    }
  }

  /** After a new configuration nothing is in sequence. */
  lemma NotInSequence(dec: DecoderState, received: nat, epoch: nat, log: seq<Decoded>)
    requires LogOk(log, received, epoch)
    ensures LogOk(log, received, epoch + 1)
    ensures !InSequence(Trace(dec, received, epoch + 1, log))
  {
  }
}
