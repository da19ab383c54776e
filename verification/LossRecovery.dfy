/**
 What the audio receiver achieves over whole runs that mix redundant, plain and malformed
 packets: it behaves like a receiver with unbounded timestamps, it plays no frame twice exactly
 while each unguarded frame is new, and redundancy recovers exactly the losses it reaches.
 */
module LossRecovery {
  import opened Wrappers
  import opened AudioRed

  // ----- The same receiver on real time

  /** A frame with its real, unbounded timestamp. */
  datatype Timed = Timed(t: int, buf: seq<Byte>)

  /**
   A packet as the receiver should understand it. The frame of a plain packet has a real time as
   well, although the wire does not say it.
   */
  datatype Arrival = Plain(frame: Timed) | Malformed | Red(older: seq<Timed>, primary: Timed)

  function Wrap(blocks: seq<Timed>): seq<Block> {
    seq(|blocks|, i requires 0 <= i < |blocks| => Block(blocks[i].t % U32, blocks[i].buf))
  }

  function WrapTime(last: Option<int>): Option<int> {
    if last.None? then None else Some(last.value % U32)
  }

  /** The blocks that are later than everything played so far, in order, with the final time. */
  function Later(last: int, blocks: seq<Timed>): (seq<Timed>, int)
    decreases |blocks|
  {
    if blocks == [] then ([], last)
    else if blocks[0].t > last then
      var (out, final) := Later(blocks[0].t, blocks[1..]);
      ([blocks[0]] + out, final)
    else Later(last, blocks[1..])
  }

  function Bufs(blocks: seq<Timed>): seq<seq<Byte>> {
    seq(|blocks|, i requires 0 <= i < |blocks| => blocks[i].buf)
  }

  function Times(blocks: seq<Timed>): seq<int> {
    seq(|blocks|, i requires 0 <= i < |blocks| => blocks[i].t)
  }

  /** Every block is less than 2^31 away from the last one played when it is looked at. */
  ghost predicate Near(last: int, blocks: seq<Timed>)
    decreases |blocks|
  {
    blocks == [] || (-HALF < blocks[0].t - last < HALF
                     && Near(if blocks[0].t > last then blocks[0].t else last, blocks[1..]))
  }

  /** On 32-bit timestamps the receiver makes the same choices as on unbounded ones. */
  lemma {:induction false} WrapRefines(last: int, blocks: seq<Timed>)
    requires Near(last, blocks)
    ensures var (out, final) := Later(last, blocks);
            Accept(last % U32, Wrap(blocks)) == (Bufs(out), final % U32)
    decreases |blocks|
  {
    if blocks != [] {
      var next := if blocks[0].t > last then blocks[0].t else last;
      assert Wrap(blocks)[0] == Block(blocks[0].t % U32, blocks[0].buf);
      assert Wrap(blocks)[1..] == Wrap(blocks[1..]);
      NewerMeansLater(blocks[0].t, last);
      WrapRefines(next, blocks[1..]);
      var out := Later(next, blocks[1..]).0;
      assert Bufs([blocks[0]] + out) == [blocks[0].buf] + Bufs(out);
    } else {
      assert Wrap(blocks) == [] && Bufs([]) == [];
    }
  }

  ghost predicate Ascending(times: seq<int>) {
    forall i, j | 0 <= i < j < |times| :: times[i] < times[j]
  }

  ghost predicate AllBefore(times: seq<int>, t: int) {
    forall i | 0 <= i < |times| :: times[i] < t
  }

  lemma AscendingJoin(a: seq<int>, b: seq<int>)
    ensures Ascending(a + b) <==> Ascending(a) && Ascending(b) && forall j | 0 <= j < |b| :: AllBefore(a, b[j])
  {
    var s := a + b;
    if Ascending(s) {
      assert forall i | 0 <= i < |a| :: s[i] == a[i];
      assert forall j | 0 <= j < |b| :: s[|a| + j] == b[j];
      forall i, j | 0 <= i < j < |b| ensures b[i] < b[j] {
        assert s[|a| + i] < s[|a| + j];
      }
      forall j | 0 <= j < |b| ensures AllBefore(a, b[j]) {
        assert s[|a| + j] == b[j];
      }
    }
  }

  /** What Later lets through ascends from `last` on, and the final time is that of the last frame. */
  lemma {:induction false} LaterAscends(last: int, blocks: seq<Timed>)
    ensures var (out, final) := Later(last, blocks);
            Ascending([last] + Times(out)) && final == ([last] + Times(out))[|out|]
    decreases |blocks|
  {
    if blocks != [] {
      var next := if blocks[0].t > last then blocks[0].t else last;
      LaterAscends(next, blocks[1..]);
      var out := Later(next, blocks[1..]).0;
      if blocks[0].t > last {
        assert Times([blocks[0]] + out) == [next] + Times(out);
        AscendingJoin([next], Times(out));
        AscendingJoin([last], [next] + Times(out));
        forall j | 0 <= j < |[next] + Times(out)| ensures AllBefore([last], ([next] + Times(out))[j]) {
          if j > 0 {
            assert AllBefore([next], Times(out)[j - 1]) && [next][0] < Times(out)[j - 1];
          }
        }
      }
    }
  }

  // ----- Runs of packets of every sort

  /** The frames one packet plays and the time of the last frame played, which clearing forgets. */
  function Output(last: Option<int>, a: Arrival): (seq<Timed>, Option<int>) {
    match a
    case Plain(frame) => ([frame], None)
    case Malformed => ([], None)
    case Red(older, primary) =>
      if last.None? then ([primary], Some(primary.t))
      else
        var (out, final) := Later(last.value, older + [primary]);
        (out, Some(final))
  }

  function Run(start: Option<int>, arrivals: seq<Arrival>): (seq<Timed>, Option<int>) {
    if arrivals == [] then ([], start) else
      var n := |arrivals| - 1;
      var (out, last) := Run(start, arrivals[..n]);
      var (more, final) := Output(last, arrivals[n]);
      (out + more, final)
  }

  /** The wire form of a packet. */
  ghost predicate Carries(b: seq<Byte>, a: Arrival) {
    match a
    case Plain(frame) => RedCount(b) == 0 && frame.buf == Body(b)
    case Malformed => RedCount(b) > 0 && !WellFormed(b)
    case Red(older, primary) => WellFormed(b) && Blocks(b) == Wrap(older + [primary])
  }

  ghost predicate CarriesAll(packets: seq<seq<Byte>>, arrivals: seq<Arrival>) {
    |packets| == |arrivals| && forall k | 0 <= k < |packets| :: Carries(packets[k], arrivals[k])
  }

  ghost predicate NearAt(start: Option<int>, arrivals: seq<Arrival>, k: nat)
    requires k < |arrivals|
  {
    var last := Run(start, arrivals[..k]).1;
    arrivals[k].Red? && last.Some? ==> Near(last.value, arrivals[k].older + [arrivals[k].primary])
  }

  /** No frame is 2^31 or more away from the last one played when it is looked at. */
  ghost predicate NearRun(start: Option<int>, arrivals: seq<Arrival>) {
    forall k: nat | k < |arrivals| :: NearAt(start, arrivals, k)
  }

  /** The anchor is forgotten exactly by packets that are not well-formed redundant ones. */
  lemma ClearsExactly(last: Option<int>, b: seq<Byte>)
    ensures Extract(last, b).1.None? <==> !WellFormed(b)
  {
    assert WellFormed(b) ==> RedCount(b) > 0;
  }

  lemma ExtractIsOutput(last: Option<int>, b: seq<Byte>, a: Arrival)
    requires Carries(b, a)
    requires a.Red? && last.Some? ==> Near(last.value, a.older + [a.primary])
    ensures Extract(WrapTime(last), b) == (Bufs(Output(last, a).0), WrapTime(Output(last, a).1))
  {
    match a
    case Plain(frame) => assert Bufs([frame]) == [frame.buf];
    case Malformed => assert Bufs([]) == [];
    case Red(older, primary) =>
      var blocks := older + [primary];
      assert Blocks(b)[RedCount(b)] == Wrap(blocks)[|older|] == Block(primary.t % U32, primary.buf);
      assert Bufs([primary]) == [primary.buf];
      if last.Some? {
        WrapRefines(last.value, blocks);
      }
  }

  lemma {:induction false} ExtractAllSnoc(last: Option<int>, packets: seq<seq<Byte>>, b: seq<Byte>)
    ensures var (out, mid) := ExtractAll(last, packets);
            ExtractAll(last, packets + [b]) == (out + Extract(mid, b).0, Extract(mid, b).1)
    decreases |packets|
  {
    hide Extract;
    if packets == [] {
      assert packets + [b] == [b] && [b][1..] == [];
      var out := Extract(last, b).0;
      assert out + [] == out && [] + out == out;
    } else {
      assert (packets + [b])[0] == packets[0] && (packets + [b])[1..] == packets[1..] + [b];
      var (out, mid) := Extract(last, packets[0]);
      ExtractAllSnoc(mid, packets[1..], b);
      Regroup(out, ExtractAll(mid, packets[1..]).0, Extract(ExtractAll(mid, packets[1..]).1, b).0);
    }
  }

  lemma BufsAppend(a: seq<Timed>, b: seq<Timed>)
    ensures Bufs(a + b) == Bufs(a) + Bufs(b) && Times(a + b) == Times(a) + Times(b)
  {
  }

  lemma RunPrefix(start: Option<int>, packets: seq<seq<Byte>>, arrivals: seq<Arrival>, n: nat)
    requires CarriesAll(packets, arrivals) && NearRun(start, arrivals) && n < |arrivals|
    ensures CarriesAll(packets[..n], arrivals[..n]) && NearRun(start, arrivals[..n])
    ensures Carries(packets[n], arrivals[n]) && NearAt(start, arrivals, n)
  {
    hide Carries, Run, Near;
    forall k: nat | k < n ensures NearAt(start, arrivals[..n], k) {
      assert NearAt(start, arrivals, k);
      assert arrivals[..n][..k] == arrivals[..k];
    }
  }

  /** Over whole mixed runs the 32-bit receiver refines the one on unbounded timestamps. */
  lemma {:induction false} RunRefines(start: Option<int>, packets: seq<seq<Byte>>, arrivals: seq<Arrival>)
    requires CarriesAll(packets, arrivals) && NearRun(start, arrivals)
    ensures ExtractAll(WrapTime(start), packets)
         == (Bufs(Run(start, arrivals).0), WrapTime(Run(start, arrivals).1))
    decreases |arrivals|
  {
    hide Extract, Carries, Near, Output;
    if arrivals == [] {
      assert Bufs([]) == [];
    } else {
      var n := |arrivals| - 1;
      RunPrefix(start, packets, arrivals, n);
      RunRefines(start, packets[..n], arrivals[..n]);
      var last := Run(start, arrivals[..n]).1;
      ExtractIsOutput(last, packets[n], arrivals[n]);
      assert packets == packets[..n] + [packets[n]];
      ExtractAllSnoc(WrapTime(start), packets[..n], packets[n]);
      BufsAppend(Run(start, arrivals[..n]).0, Output(last, arrivals[n]).0);
    }
  }

  // ----- When is a frame played twice?

  /**
   The times played so far, an anchor from before the run first; frames of plain packets are
   counted among them or not, as the caller likes.
   */
  function Counted(start: Option<int>, arrivals: seq<Arrival>, plain: bool): seq<int> {
    if arrivals == [] then (if start.Some? then [start.value] else []) else
      var n := |arrivals| - 1;
      Counted(start, arrivals[..n], plain) + NewTimes(Run(start, arrivals[..n]).1, arrivals[n], plain)
  }

  function NewTimes(last: Option<int>, a: Arrival, plain: bool): seq<int> {
    if a.Plain? && !plain then [] else Times(Output(last, a).0)
  }

  /** With plain frames counted these are the times of everything played. */
  lemma {:induction false} CountedIsPlayed(start: Option<int>, arrivals: seq<Arrival>)
    ensures Counted(start, arrivals, true) == Counted(start, [], true) + Times(Run(start, arrivals).0)
    decreases |arrivals|
  {
    if arrivals != [] {
      var n := |arrivals| - 1;
      CountedIsPlayed(start, arrivals[..n]);
      var (out, last) := Run(start, arrivals[..n]);
      BufsAppend(out, Output(last, arrivals[n]).0);
      Regroup(Counted(start, [], true), Times(out), Times(Output(last, arrivals[n]).0));
    }
  }

  /** Packet k plays its own frame whatever was played before: nothing guards it. */
  predicate Unguarded(start: Option<int>, arrivals: seq<Arrival>, k: nat, plain: bool)
    requires k < |arrivals|
  {
    match arrivals[k]
    case Plain(_) => plain
    case Malformed => false
    case Red(_, _) => if k == 0 then start.None? else !arrivals[k - 1].Red?
  }

  function OwnTime(a: Arrival): int
    requires !a.Malformed?
  {
    if a.Plain? then a.frame.t else a.primary.t
  }

  /** If packet k is unguarded, its own frame is later than everything played before. */
  ghost predicate NewIfUnguarded(start: Option<int>, arrivals: seq<Arrival>, k: nat, plain: bool)
    requires k < |arrivals|
  {
    Unguarded(start, arrivals, k, plain) ==> AllBefore(Counted(start, arrivals[..k], plain), OwnTime(arrivals[k]))
  }

  lemma AscendingContinues(a: seq<int>, b: seq<int>)
    requires a != [] && Ascending([a[|a| - 1]] + b)
    ensures Ascending(a + b) <==> Ascending(a)
  {
    var l := a[|a| - 1];
    AscendingJoin([l], b);
    AscendingJoin(a, b);
    if Ascending(a) {
      forall j | 0 <= j < |b| ensures AllBefore(a, b[j]) {
        assert AllBefore([l], b[j]) && [l][0] < b[j];
      }
    }
  }

  lemma OneMore(a: seq<int>, t: int)
    ensures Ascending(a + [t]) <==> Ascending(a) && AllBefore(a, t)
  {
    AscendingJoin(a, [t]);
    assert [t][0] == t;
  }

  lemma OutputAnchors(last: Option<int>, a: Arrival, plain: bool)
    ensures var (times, final) := (NewTimes(last, a, plain), Output(last, a).1);
            && (final.Some? <==> a.Red?)
            && (a.Red? && times != [] ==> times[|times| - 1] == final.value)
            && (a.Red? && times == [] ==> final == last)
  {
    if a.Red? && last.Some? {
      LaterAscends(last.value, a.older + [a.primary]);
    }
  }

  lemma LastOfJoin(a: seq<int>, b: seq<int>)
    ensures b != [] ==> a + b != [] && (a + b)[|a + b| - 1] == b[|b| - 1]
    ensures b == [] ==> a + b == a
  {
  }

  /** While anchored, the anchor is the time of the last frame counted. */
  lemma {:induction false} AnchorIsLast(start: Option<int>, arrivals: seq<Arrival>, plain: bool)
    ensures var (last, counted) := (Run(start, arrivals).1, Counted(start, arrivals, plain));
            && (last.Some? ==> counted != [] && counted[|counted| - 1] == last.value)
            && (last.None? <==> if arrivals == [] then start.None? else !arrivals[|arrivals| - 1].Red?)
    decreases |arrivals|
  {
    hide Output, NewTimes;
    if arrivals != [] {
      var n := |arrivals| - 1;
      AnchorIsLast(start, arrivals[..n], plain);
      var before := Run(start, arrivals[..n]).1;
      OutputAnchors(before, arrivals[n], plain);
      LastOfJoin(Counted(start, arrivals[..n], plain), NewTimes(before, arrivals[n], plain));
    }
  }

  /** One more packet leaves the times ascending exactly if it is guarded or new. */
  lemma StepAscends(start: Option<int>, arrivals: seq<Arrival>, n: nat, plain: bool)
    requires |arrivals| == n + 1
    ensures Ascending(Counted(start, arrivals, plain))
       <==> Ascending(Counted(start, arrivals[..n], plain)) && NewIfUnguarded(start, arrivals, n, plain)
  {
    hide Run;
    var before, a := Counted(start, arrivals[..n], plain), arrivals[n];
    var last := Run(start, arrivals[..n]).1;
    AnchorIsLast(start, arrivals[..n], plain);
    assert n > 0 ==> arrivals[..n][n - 1] == arrivals[n - 1];
    if Unguarded(start, arrivals, n, plain) {
      assert NewTimes(last, a, plain) == [OwnTime(a)];
      OneMore(before, OwnTime(a));
    } else if a.Red? {
      LaterAscends(last.value, a.older + [a.primary]);
      AscendingContinues(before, NewTimes(last, a, plain));
    } else {
      assert before + NewTimes(last, a, plain) == before;
    }
  }

  ghost predicate AllNew(start: Option<int>, arrivals: seq<Arrival>, plain: bool) {
    forall k: nat | k < |arrivals| :: NewIfUnguarded(start, arrivals, k, plain)
  }

  lemma AllNewSnoc(start: Option<int>, arrivals: seq<Arrival>, n: nat, plain: bool)
    requires |arrivals| == n + 1
    ensures AllNew(start, arrivals, plain)
       <==> AllNew(start, arrivals[..n], plain) && NewIfUnguarded(start, arrivals, n, plain)
  {
    hide Counted, AllBefore;
    forall k: nat | k < n
      ensures NewIfUnguarded(start, arrivals[..n], k, plain) == NewIfUnguarded(start, arrivals, k, plain)
    {
      assert arrivals[..n][..k] == arrivals[..k];
    }
  }

  lemma {:induction false} AscendsIffNew(start: Option<int>, arrivals: seq<Arrival>, plain: bool)
    ensures Ascending(Counted(start, arrivals, plain)) <==> AllNew(start, arrivals, plain)
    decreases |arrivals|
  {
    hide Counted, NewIfUnguarded;
    if arrivals == [] {
      NothingCounted(start, plain);
    } else {
      var n := |arrivals| - 1;
      AscendsIffNew(start, arrivals[..n], plain);
      StepAscends(start, arrivals, n, plain);
      AllNewSnoc(start, arrivals, n, plain);
    }
  }

  lemma NothingCounted(start: Option<int>, plain: bool)
    ensures Ascending(Counted(start, [], plain))
  {
  }

  /**
   Whatever is lost, repeated, reordered, sent plain or malformed: the receiver plays the frames of
   the run on unbounded time, and these are played with strictly increasing times, none twice and
   none out of order, if and only if every frame played without an anchor to judge it by, a plain
   packet's or the primary of the first redundant packet after a clearing one, is later than all
   before it. That is so for all frames, and for those of redundant packets taken alone.
   */
  lemma NeverTwice(start: Option<int>, packets: seq<seq<Byte>>, arrivals: seq<Arrival>, plain: bool)
    requires CarriesAll(packets, arrivals) && NearRun(start, arrivals)
    ensures ExtractAll(WrapTime(start), packets)
         == (Bufs(Run(start, arrivals).0), WrapTime(Run(start, arrivals).1))
    ensures Ascending(Counted(start, arrivals, plain)) <==>
            forall k: nat | k < |arrivals| && Unguarded(start, arrivals, k, plain) ::
              AllBefore(Counted(start, arrivals[..k], plain), OwnTime(arrivals[k]))
  {
    RunRefines(start, packets, arrivals);
    AscendsIffNew(start, arrivals, plain);
    hide Counted, AllBefore;
    forall k: nat | k < |arrivals|
      ensures NewIfUnguarded(start, arrivals, k, plain) <==>
              (Unguarded(start, arrivals, k, plain) ==>
                 AllBefore(Counted(start, arrivals[..k], plain), OwnTime(arrivals[k])))
    {
    }
  }

  /** Once anchored and as long as only redundant packets come, nothing is ever played twice. */
  lemma OnceAnchored(start: int, arrivals: seq<Arrival>)
    requires forall k | 0 <= k < |arrivals| :: arrivals[k].Red?
    ensures Ascending([start] + Times(Run(Some(start), arrivals).0))
  {
    AscendsIffNew(Some(start), arrivals, true);
    CountedIsPlayed(Some(start), arrivals);
  }

  // ----- Replays

  /** A plain packet plays whatever was played before, so a repeated one plays again. */
  lemma PlainAlwaysPlays(last: Option<int>, plain: seq<Byte>, between: seq<seq<Byte>>)
    requires RedCount(plain) == 0
    ensures ExtractAll(last, [plain] + between + [plain]).0
         == [Body(plain)] + ExtractAll(None, between).0 + [Body(plain)]
  {
    var first := [plain] + between;
    ExtractAllSnoc(last, first, plain);
    assert first[0] == plain && first[1..] == between;
  }

  /**
   Any packet that is not a well-formed redundant one, plain or malformed, makes the receiver play
   the primary of a repeated packet a second time.
   */
  lemma ClearingPacketReplays(b: seq<Byte>, clearing: seq<Byte>)
    requires WellFormed(b) && !WellFormed(clearing)
    ensures var primary := Blocks(b)[RedCount(b)].buf;
            var own := if RedCount(clearing) == 0 then [Body(clearing)] else [];
            ExtractAll(None, [b, clearing, b]).0 == [primary] + own + [primary]
  {
    ExtractAllSnoc(None, [], b);
    ExtractAllSnoc(None, [b], clearing);
    ExtractAllSnoc(None, [b, clearing], b);
    assert [] + [b] == [b] && [b] + [clearing] == [b, clearing] && [b, clearing] + [b] == [b, clearing, b];
  }

  // ----- A sender with redundancy

  /**
   Frames are numbered; frame i has time base + i*step. Packet p carries frame p and the `red(p)`
   frames before it; with none it is sent plain, as it is while redundancy is switched off.
   */
  datatype Sender = Sender(base: nat, step: nat, frame: nat -> seq<Byte>, red: nat -> nat)

  function TimeOf(s: Sender, i: nat): int {
    s.base + i * s.step
  }

  /** What the wire format demands of packet p: 14-bit offsets, 10-bit lengths. */
  ghost predicate Sendable(s: Sender, p: nat) {
    && s.red(p) < 256 && s.red(p) <= p
    && s.step > 0 && s.red(p) * s.step < 0x4000
    && forall i :: p - s.red(p) <= i < p ==> |s.frame(i)| < 1024
  }

  /** Frames i..j as timed blocks. */
  function TimedFrames(s: Sender, i: nat, j: nat): (r: seq<Timed>)
    requires i <= j
    ensures |r| == j - i
  {
    seq(j - i, k requires 0 <= k < j - i => Timed(TimeOf(s, i + k), s.frame(i + k)))
  }

  /** The numbers i..j. */
  function Span(i: nat, j: nat): (r: seq<nat>)
    requires i <= j
    ensures |r| == j - i
  {
    seq(j - i, k requires 0 <= k < j - i => i + k)
  }

  function FramesOf(s: Sender, numbers: seq<nat>): (r: seq<seq<Byte>>)
    ensures |r| == |numbers|
  {
    seq(|numbers|, k requires 0 <= k < |numbers| => s.frame(numbers[k]))
  }

  /** The redundant blocks of packet p, `d` frames back up to one frame back. */
  function Trailing(s: Sender, p: nat, d: nat): (r: seq<Redundant>)
    requires d <= p
    ensures |r| == d
  {
    if d == 0 then [] else [Redundant(d * s.step, s.frame(p - d))] + Trailing(s, p, d - 1)
  }

  lemma {:induction false} TrailingAt(s: Sender, p: nat, d: nat, k: nat)
    requires k < d <= p
    ensures Trailing(s, p, d)[k] == Redundant((d - k) * s.step, s.frame(p - d + k))
    decreases k
  {
    if k > 0 { TrailingAt(s, p, d - 1, k - 1); }
  }

  lemma TrailingEncodable(s: Sender, p: nat)
    requires Sendable(s, p)
    ensures Encodable(Trailing(s, p, s.red(p)))
  {
    var d := s.red(p);
    forall k | 0 <= k < d
      ensures Trailing(s, p, d)[k].offset < 0x4000 && |Trailing(s, p, d)[k].buf| < 1024
    {
      TrailingAt(s, p, d, k);
      MulMonotone(d - k, d, s.step);
    }
  }

  function Packet(s: Sender, pt: Byte, p: nat): seq<Byte>
    requires Sendable(s, p)
  {
    if s.red(p) == 0 then [1, 0] + s.frame(p) else
      TrailingEncodable(s, p);
      Encode(TimeOf(s, p) % U32, pt, Trailing(s, p, s.red(p)), s.frame(p))
  }

  lemma MulMonotone(a: nat, b: nat, c: nat)
    requires a <= b
    ensures 0 <= a * c <= b * c
  {
  }

  lemma TimeDifference(s: Sender, i: nat, j: nat)
    requires i <= j
    ensures TimeOf(s, j) - TimeOf(s, i) == (j - i) * s.step
  {
  }

  /** Packet p as the receiver should understand it. */
  function Meaning(s: Sender, p: nat): Arrival
    requires s.red(p) <= p
  {
    if s.red(p) == 0 then Plain(Timed(TimeOf(s, p), s.frame(p)))
    else Red(TimedFrames(s, p - s.red(p), p), Timed(TimeOf(s, p), s.frame(p)))
  }

  ghost predicate CarriesFrames(s: Sender, b: seq<Byte>, p: nat) {
    s.red(p) <= p && Carries(b, Meaning(s, p))
  }

  /** Packet p carries, on the wire, frames p-red(p) up to p with their times. */
  lemma PacketCarries(s: Sender, pt: Byte, p: nat)
    requires Sendable(s, p)
    ensures CarriesFrames(s, Packet(s, pt, p), p)
  {
    hide TimedFrames, Wrap, BlocksSent, Trailing, Encode, Blocks, WellFormed;
    if s.red(p) == 0 {
      assert Body(Packet(s, pt, p)) == s.frame(p);
    } else {
      var red := Trailing(s, p, s.red(p));
      TrailingEncodable(s, p);
      ParseInvertsEncode(TimeOf(s, p) % U32, pt, red, s.frame(p));
      SentIsWrapped(s, p);
      OneMoreFrame(s, p - s.red(p), p);
    }
  }

  lemma OneMoreFrame(s: Sender, i: nat, p: nat)
    requires i <= p
    ensures TimedFrames(s, i, p) + [Timed(TimeOf(s, p), s.frame(p))] == TimedFrames(s, i, p + 1)
  {
  }

  lemma SentIsWrapped(s: Sender, p: nat)
    requires Sendable(s, p)
    ensures BlocksSent(TimeOf(s, p) % U32, Trailing(s, p, s.red(p)), s.frame(p))
            == Wrap(TimedFrames(s, p - s.red(p), p + 1))
  {
    hide BlocksSent, Wrap, TimedFrames;
    var wire, sent := BlocksSent(TimeOf(s, p) % U32, Trailing(s, p, s.red(p)), s.frame(p)),
      Wrap(TimedFrames(s, p - s.red(p), p + 1));
    BlockCounts(s, p);
    forall k | 0 <= k <= s.red(p) ensures wire[k] == sent[k] {
      SentAt(s, p, k);
    }
  }

  lemma BlockCounts(s: Sender, p: nat)
    requires s.red(p) <= p
    ensures |BlocksSent(TimeOf(s, p) % U32, Trailing(s, p, s.red(p)), s.frame(p))| == s.red(p) + 1
    ensures |Wrap(TimedFrames(s, p - s.red(p), p + 1))| == s.red(p) + 1
  {
  }

  lemma SentAt(s: Sender, p: nat, k: nat)
    requires k <= s.red(p) <= p
    ensures |BlocksSent(TimeOf(s, p) % U32, Trailing(s, p, s.red(p)), s.frame(p))| == s.red(p) + 1
    ensures |Wrap(TimedFrames(s, p - s.red(p), p + 1))| == s.red(p) + 1
    ensures BlocksSent(TimeOf(s, p) % U32, Trailing(s, p, s.red(p)), s.frame(p))[k]
         == Wrap(TimedFrames(s, p - s.red(p), p + 1))[k]
  {
    hide Trailing, TimeOf;
    var d := s.red(p);
    if k < d {
      TrailingAt(s, p, d, k);
      OffsetOnWire(s, p, d - k);
    }
  }

  lemma OffsetOnWire(s: Sender, p: nat, back: nat)
    requires back <= p
    ensures (TimeOf(s, p) % U32 - back * s.step) % U32 == TimeOf(s, p - back) % U32
  {
    TimeDifference(s, p - back, p);
    SubtractOnWire(TimeOf(s, p), back * s.step);
  }

  lemma SubtractOnWire(t: int, back: int)
    ensures (t % U32 - back) % U32 == (t - back) % U32
  {
    assert t % U32 - back == (t - back) + U32 * (-(t / U32));
    ModShift(t - back, -(t / U32));
  }

  /** Played up to frame q, a run of frames i..j (past q) yields exactly its frames after q. */
  lemma {:induction false} LaterOfFrames(s: Sender, q: nat, i: nat, j: nat)
    requires s.step > 0 && i <= j && q < j && (j - q) * s.step < HALF && (i <= q ==> (q - i) * s.step < HALF)
    ensures Later(TimeOf(s, q), TimedFrames(s, i, j)) ==
            if i == j then ([], TimeOf(s, q))
            else (TimedFrames(s, if i <= q then q + 1 else i, j), TimeOf(s, if j - 1 > q then j - 1 else q))
    ensures Near(TimeOf(s, q), TimedFrames(s, i, j))
    decreases j - i
  {
    var blocks := TimedFrames(s, i, j);
    if i < j {
      assert blocks[0].t == TimeOf(s, i);
      assert blocks[1..] == TimedFrames(s, i + 1, j);
      if i <= q {
        TimeDifference(s, i, q);
        MulMonotone(q - i, q - i, s.step);
        if i < q {
          MulMonotone(q - i - 1, q - i, s.step);
        }
        LaterOfFrames(s, q, i + 1, j);
        if i + 1 == j {
          assert TimedFrames(s, q + 1, j) == [];
        }
      } else {
        TimeDifference(s, q, i);
        MulMonotone(1, i - q, s.step);
        MulMonotone(i - q, j - q, s.step);
        MulMonotone(j - i, j - q, s.step);
        LaterOfFrames(s, i, i + 1, j);
        assert TimedFrames(s, i, j) == [blocks[0]] + TimedFrames(s, i + 1, j);
      }
    }
  }

  // ----- Loss recovery

  /** What comes in: a packet of the sender's, or a malformed one. */
  datatype Receipt = Intact(p: nat) | Garbled

  ghost predicate Delivered(s: Sender, b: seq<Byte>, r: Receipt) {
    if r.Garbled? then Carries(b, Malformed) else CarriesFrames(s, b, r.p)
  }

  ghost predicate Delivers(s: Sender, packets: seq<seq<Byte>>, got: seq<Receipt>) {
    |packets| == |got| && forall k | 0 <= k < |got| :: Delivered(s, packets[k], got[k])
  }

  /**
   With frame q the newest so far, the sender's packets come in increasing order, and a redundant
   one that meets an anchor comes before half the clock has passed.
   */
  ghost predicate Increasing(s: Sender, anchored: bool, q: nat, got: seq<Receipt>)
    decreases |got|
  {
    got == [] || match got[0]
      case Garbled => Increasing(s, false, q, got[1..])
      case Intact(p) =>
        && q < p && Sendable(s, p) && (anchored && s.red(p) > 0 ==> (p + 1 - q) * s.step < HALF)
        && Increasing(s, s.red(p) > 0, p, got[1..])
  }

  /** How many lost frames before packet p it can replace: none without an anchor. */
  function Reach(s: Sender, anchored: bool, p: nat): nat {
    if anchored then s.red(p) else 0
  }

  /** Every packet reaches back over the frames lost just before it. */
  predicate GapsCovered(s: Sender, anchored: bool, q: nat, got: seq<Receipt>)
    decreases |got|
  {
    got == [] || match got[0]
      case Garbled => GapsCovered(s, false, q, got[1..])
      case Intact(p) => p - q - 1 <= Reach(s, anchored, p) && GapsCovered(s, s.red(p) > 0, p, got[1..])
  }

  function Last(q: nat, got: seq<Receipt>): nat
    decreases |got|
  {
    if got == [] then q else Last(if got[0].Intact? then got[0].p else q, got[1..])
  }

  /** First frame packet p adds once frame q has been played. */
  function FirstNew(s: Sender, anchored: bool, q: nat, p: nat): nat
    requires q < p
  {
    var reach := Reach(s, anchored, p);
    if reach >= p - q - 1 then q + 1 else p - reach
  }

  /** The numbers of the frames added after frame q, packet by packet. */
  function Added(s: Sender, anchored: bool, q: nat, got: seq<Receipt>): seq<nat>
    requires Increasing(s, anchored, q, got)
    decreases |got|
  {
    if got == [] then [] else match got[0]
      case Garbled => Added(s, false, q, got[1..])
      case Intact(p) => Span(FirstNew(s, anchored, q, p), p + 1) + Added(s, s.red(p) > 0, p, got[1..])
  }

  function Anchor(s: Sender, anchored: bool, q: nat): Option<int> {
    if anchored then Some(TimeOf(s, q) % U32) else None
  }

  /** One received packet after frame q was played, with or without an anchor left by it. */
  lemma OnePacket(s: Sender, b: seq<Byte>, anchored: bool, q: nat, p: nat)
    requires Sendable(s, p) && CarriesFrames(s, b, p) && q < p
    requires anchored && s.red(p) > 0 ==> (p + 1 - q) * s.step < HALF
    ensures Extract(Anchor(s, anchored, q), b)
         == (FramesOf(s, Span(FirstNew(s, anchored, q, p), p + 1)), Anchor(s, s.red(p) > 0, p))
  {
    hide Extract, Carries, Sendable;
    var a := Meaning(s, p);
    if s.red(p) == 0 || !anchored {
      JustOwnFrame(s, b, if anchored then Some(TimeOf(s, q)) else None, p);
    } else {
      var i := p - s.red(p);
      BackIsNear(s, q, p);
      OneMoreFrame(s, i, p);
      LaterOfFrames(s, q, i, p + 1);
      ExtractIsOutput(Some(TimeOf(s, q)), b, a);
      FramesAreSpan(s, FirstNew(s, anchored, q, p), p + 1);
    }
  }

  lemma BackIsNear(s: Sender, q: nat, p: nat)
    requires Sendable(s, p) && q < p
    ensures s.step > 0 && s.red(p) <= p && (p - s.red(p) <= q ==> (q - (p - s.red(p))) * s.step < HALF)
  {
    if p - s.red(p) <= q {
      MulMonotone(q - (p - s.red(p)), s.red(p), s.step);
    }
  }

  lemma FramesAreSpan(s: Sender, i: nat, j: nat)
    requires i <= j
    ensures Bufs(TimedFrames(s, i, j)) == FramesOf(s, Span(i, j))
  {
  }

  /** A plain packet, and any packet that meets no anchor, plays its own frame only. */
  lemma JustOwnFrame(s: Sender, b: seq<Byte>, last: Option<int>, p: nat)
    requires CarriesFrames(s, b, p) && (s.red(p) == 0 || last.None?)
    ensures Extract(WrapTime(last), b) == (FramesOf(s, Span(p, p + 1)), Anchor(s, s.red(p) > 0, p))
  {
    hide Extract, Carries;
    ExtractIsOutput(last, b, Meaning(s, p));
    FramesAreSpan(s, p, p + 1);
    assert TimedFrames(s, p, p + 1) == [Timed(TimeOf(s, p), s.frame(p))];
  }

  lemma FramesOfAppend(s: Sender, a: seq<nat>, b: seq<nat>)
    ensures FramesOf(s, a + b) == FramesOf(s, a) + FramesOf(s, b)
  {
  }

  lemma NextStep(last: Option<int>, packets: seq<seq<Byte>>)
    requires packets != []
    ensures ExtractAll(last, packets).0
         == Extract(last, packets[0]).0 + ExtractAll(Extract(last, packets[0]).1, packets[1..]).0
  {
  }

  lemma DeliversTail(s: Sender, packets: seq<seq<Byte>>, got: seq<Receipt>)
    requires Delivers(s, packets, got) && got != []
    ensures Delivered(s, packets[0], got[0]) && Delivers(s, packets[1..], got[1..])
  {
    hide Delivered;
    forall k | 0 <= k < |got| - 1 ensures Delivered(s, packets[1..][k], got[1..][k]) {
      assert Delivered(s, packets[k + 1], got[k + 1]);
    }
  }

  lemma GarbledClears(last: Option<int>, b: seq<Byte>)
    requires Carries(b, Malformed)
    ensures Extract(last, b) == ([], None)
  {
  }

  lemma {:induction false} PlayedIsAdded(s: Sender, packets: seq<seq<Byte>>, anchored: bool, q: nat, got: seq<Receipt>)
    requires Increasing(s, anchored, q, got) && Delivers(s, packets, got)
    ensures ExtractAll(Anchor(s, anchored, q), packets).0 == FramesOf(s, Added(s, anchored, q, got))
    decreases |got|
  {
    hide Extract, CarriesFrames, Carries, Sendable, Anchor, Delivers;
    if got == [] {
      NothingDelivered(s, Anchor(s, anchored, q), packets, got);
    } else {
      DeliversTail(s, packets, got);
      NothingDelivered(s, Anchor(s, anchored, q), packets, got);
      NextStep(Anchor(s, anchored, q), packets);
      match got[0]
      case Garbled =>
        GarbledClears(Anchor(s, anchored, q), packets[0]);
        Unanchored(s, q);
        PlayedIsAdded(s, packets[1..], false, q, got[1..]);
      case Intact(p) =>
        OnePacket(s, packets[0], anchored, q, p);
        PlayedIsAdded(s, packets[1..], s.red(p) > 0, p, got[1..]);
        FramesOfAppend(s, Span(FirstNew(s, anchored, q, p), p + 1), Added(s, s.red(p) > 0, p, got[1..]));
    }
  }

  lemma Unanchored(s: Sender, q: nat)
    ensures Anchor(s, false, q) == None
  {
  }

  lemma NothingDelivered(s: Sender, last: Option<int>, packets: seq<seq<Byte>>, got: seq<Receipt>)
    requires Delivers(s, packets, got)
    ensures |packets| == |got| && (got == [] ==> ExtractAll(last, packets).0 == [])
  {
  }

  lemma JoinSpans(i: nat, j: nat, k: nat)
    requires i <= j <= k
    ensures Span(i, k) == Span(i, j) + Span(j, k)
  {
  }

  /** Numbers in ascending order within from..to, the bounds included. */
  ghost predicate AscendingWithin(numbers: seq<nat>, from: int, to: int) {
    && (forall i | 0 <= i < |numbers| :: from <= numbers[i] <= to)
    && forall i, j | 0 <= i < j < |numbers| :: numbers[i] < numbers[j]
  }

  lemma AscendingSpanThen(i: nat, j: nat, rest: seq<nat>, to: int)
    requires i <= j <= to + 1 && AscendingWithin(rest, j, to)
    ensures AscendingWithin(Span(i, j) + rest, i, to) && |Span(i, j) + rest| == j - i + |rest|
  {
  }

  lemma NoNumbers(from: nat, to: int)
    ensures AscendingWithin([], from, to) && Span(from, from) == []
  {
  }

  lemma WiderBounds(numbers: seq<nat>, from: int, i: int, to: int)
    requires AscendingWithin(numbers, from, to) && i <= from
    ensures AscendingWithin(numbers, i, to)
  {
  }

  /** Frames from..p after frame q, then the rest up to the last one. */
  lemma PacketThen(q: nat, from: nat, p: nat, rest: seq<nat>, last: nat)
    requires q < from <= p <= last && AscendingWithin(rest, p + 1, last) && |rest| <= last - p
    ensures AscendingWithin(Span(from, p + 1) + rest, q + 1, last)
    ensures from == q + 1 && rest == Span(p + 1, last + 1) ==> Span(from, p + 1) + rest == Span(q + 1, last + 1)
    ensures |Span(from, p + 1) + rest| == p + 1 - from + |rest|
  {
    hide Span, AscendingWithin;
    JoinSpans(q + 1, p + 1, last + 1);
    AscendingSpanThen(from, p + 1, rest, last);
    WiderBounds(Span(from, p + 1) + rest, from, q + 1, last);
  }

  /**
   The frames added are in ascending order, so none comes twice; all up to the last packet are there
   if every gap is covered, and some are missing if one is not.
   */
  lemma {:induction false} RecoveryFrom(s: Sender, anchored: bool, q: nat, got: seq<Receipt>)
    requires Increasing(s, anchored, q, got)
    ensures q <= Last(q, got) && AscendingWithin(Added(s, anchored, q, got), q + 1, Last(q, got))
    ensures GapsCovered(s, anchored, q, got) ==> Added(s, anchored, q, got) == Span(q + 1, Last(q, got) + 1)
    ensures !GapsCovered(s, anchored, q, got) ==> |Added(s, anchored, q, got)| < Last(q, got) - q
    ensures |Added(s, anchored, q, got)| <= Last(q, got) - q
    decreases |got|
  {
    hide Sendable, Span, AscendingWithin;
    if got == [] {
      NoNumbers(q + 1, q);
    } else {
      match got[0]
      case Garbled =>
        RecoveryFrom(s, false, q, got[1..]);
      case Intact(p) =>
        var from, more, last := FirstNew(s, anchored, q, p), s.red(p) > 0, Last(p, got[1..]);
        var rest := Added(s, more, p, got[1..]);
        RecoveryFrom(s, more, p, got[1..]);
        PacketThen(q, from, p, rest, last);
    }
  }

  /** The first packet of the sender's, if any came. */
  function First(got: seq<Receipt>): (r: Option<nat>)
    ensures r.None? <==> forall k | 0 <= k < |got| :: got[k].Garbled?
    ensures r.Some? ==> exists k | 0 <= k < |got| :: got[k] == Intact(r.value)
    decreases |got|
  {
    if got == [] then None
    else if got[0].Intact? then assert got[0] == Intact(got[0].p); Some(got[0].p)
    else
      var r := First(got[1..]);
      assert forall k | 0 < k < |got| :: got[k] == got[1..][k - 1];
      r
  }

  /** Packets from a fresh start: malformed ones do no harm before the first of the sender's. */
  ghost predicate Reception(s: Sender, got: seq<Receipt>)
    decreases |got|
  {
    got == [] || match got[0]
      case Garbled => Reception(s, got[1..])
      case Intact(p) => Sendable(s, p) && Increasing(s, s.red(p) > 0, p, got[1..])
  }

  predicate AllCovered(s: Sender, got: seq<Receipt>)
    decreases |got|
  {
    got == [] || match got[0]
      case Garbled => AllCovered(s, got[1..])
      case Intact(p) => GapsCovered(s, s.red(p) > 0, p, got[1..])
  }

  /** The numbers of all frames played. */
  function PlayedNumbers(s: Sender, got: seq<Receipt>): seq<nat>
    requires Reception(s, got)
    decreases |got|
  {
    if got == [] then [] else match got[0]
      case Garbled => PlayedNumbers(s, got[1..])
      case Intact(p) => Span(p, p + 1) + Added(s, s.red(p) > 0, p, got[1..])
  }

  lemma {:induction false} PlayedIsNumbered(s: Sender, packets: seq<seq<Byte>>, got: seq<Receipt>)
    requires Reception(s, got) && Delivers(s, packets, got)
    ensures ExtractAll(None, packets).0 == FramesOf(s, PlayedNumbers(s, got))
    decreases |got|
  {
    hide Extract, CarriesFrames, Carries, Sendable, Anchor, Delivers, Increasing;
    NothingDelivered(s, None, packets, got);
    if got != [] {
      DeliversTail(s, packets, got);
      NextStep(None, packets);
      match got[0]
      case Garbled =>
        GarbledClears(None, packets[0]);
        PlayedIsNumbered(s, packets[1..], got[1..]);
      case Intact(p) =>
        AnchorOnPrimary(s, packets[0], p);
        PlayedIsAdded(s, packets[1..], s.red(p) > 0, p, got[1..]);
        FramesOfAppend(s, Span(p, p + 1), Added(s, s.red(p) > 0, p, got[1..]));
    }
  }

  lemma {:induction false} NumbersRecovered(s: Sender, got: seq<Receipt>)
    requires Reception(s, got)
    ensures var numbers := PlayedNumbers(s, got);
            if First(got).None? then numbers == [] else
              var (first, last) := (First(got).value, Last(First(got).value, got));
              && first <= last && AscendingWithin(numbers, first, last)
              && (AllCovered(s, got) ==> numbers == Span(first, last + 1))
              && (!AllCovered(s, got) ==> |numbers| < last + 1 - first)
    decreases |got|
  {
    hide Sendable;
    if got != [] {
      match got[0]
      case Garbled =>
        NumbersRecovered(s, got[1..]);
      case Intact(p) =>
        var anchored := s.red(p) > 0;
        RecoveryFrom(s, anchored, p, got[1..]);
        var last := Last(p, got[1..]);
        JoinSpans(p, p + 1, last + 1);
        AscendingSpanThen(p, p + 1, Added(s, anchored, p, got[1..]), last);
    }
  }

  /**
   A fresh receiver given the sender's packets in increasing order, any of them lost, with plain
   packets and malformed ones anywhere among them, plays frames in ascending order, none twice,
   whatever is lost. It plays exactly every frame from the first packet's to the last one's, across
   timestamp wrap, if and only if each packet reaches back over the loss before it: by its
   redundancy if the packet before it was a redundant one, and not at all after a clearing one.
   */
  lemma LossRecovered(s: Sender, packets: seq<seq<Byte>>, got: seq<Receipt>)
    requires Reception(s, got) && Delivers(s, packets, got)
    ensures var played := ExtractAll(None, packets).0;
            && played == FramesOf(s, PlayedNumbers(s, got))
            && if First(got).None? then played == [] else
                 var (first, last) := (First(got).value, Last(First(got).value, got));
                 && first <= last && AscendingWithin(PlayedNumbers(s, got), first, last)
                 && (played == FramesOf(s, Span(first, last + 1)) <==> AllCovered(s, got))
  {
    hide Delivers, Reception, AllCovered, PlayedNumbers, ExtractAll, Last;
    PlayedIsNumbered(s, packets, got);
    NumbersRecovered(s, got);
  }

  /** The packets this sender encodes are such packets. */
  lemma SentPacketsDeliver(s: Sender, pt: Byte, got: seq<nat>)
    requires forall k :: 0 <= k < |got| ==> Sendable(s, got[k])
    ensures Delivers(s, seq(|got|, k requires 0 <= k < |got| => Packet(s, pt, got[k])),
                     seq(|got|, k requires 0 <= k < |got| => Intact(got[k])))
  {
    forall k | 0 <= k < |got| ensures CarriesFrames(s, Packet(s, pt, got[k]), got[k]) {
      PacketCarries(s, pt, got[k]);
    }
  }

  /** The first packet plays its own frame only, and anchors there if it is a redundant one. */
  lemma AnchorOnPrimary(s: Sender, b: seq<Byte>, p: nat)
    requires CarriesFrames(s, b, p)
    ensures Extract(None, b) == (FramesOf(s, Span(p, p + 1)), Anchor(s, s.red(p) > 0, p))
  {
    hide Extract, CarriesFrames;
    JustOwnFrame(s, b, None, p);
  }
}
