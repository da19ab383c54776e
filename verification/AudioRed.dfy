/**
 Redundant audio: parsing one packet body (block headers as in section 3 of RFC 2198) and
 deciding, on 32-bit timestamps that wrap, which of its frames still have to be played.
 */
module AudioRed {
  import opened Wrappers

  const U32: int := 0x1_0000_0000
  const HALF: int := 0x8000_0000

  /** A frame with its 32-bit timestamp. */
  datatype Block = Block(ts: int, buf: seq<Byte>)

  /** audioTsNewer on unsigned 32-bit values. */
  predicate Newer(a: int, b: int) {
    var d := (a - b) % U32;
    d != 0 && d < HALF
  }

  /** Comparing the low 32 bits is comparing the real times, while they are less than 2^31 apart. */
  lemma NewerMeansLater(a: int, b: int)
    requires -HALF <= a - b < HALF
    ensures Newer(a % U32, b % U32) <==> a > b
  {
    assert (a % U32 - b % U32) % U32 == (a - b) % U32 by {
      assert a % U32 - b % U32 == (a - b) + U32 * (b / U32 - a / U32);
      ModShift(a - b, b / U32 - a / U32);
    }
  }

  lemma ModShift(x: int, k: int)
    ensures (x + U32 * k) % U32 == x % U32
  {
  }

  /** Both bounds are tight: 2^31 later is not seen as later, and 2^31 + 1 earlier is. */
  lemma NewerFailsAtHalf(b: int)
    ensures !Newer((b + HALF) % U32, b % U32)
    ensures Newer((b - HALF - 1) % U32, b % U32)
  {
    assert (b - HALF - 1) % U32 == (b + HALF - 1) % U32 by {
      ModShift(b + HALF - 1, -1);
    }
    NewerMeansLater(b + HALF - 1, b);
    NewerMeansLater(b, b + HALF);
    assert ((b + HALF) % U32 - b % U32) % U32 == HALF by {
      assert (b + HALF) % U32 - b % U32 == HALF + U32 * (b / U32 - (b + HALF) / U32);
      ModShift(HALF, b / U32 - (b + HALF) / U32);
    }
  }

  // ----- The packet format

  function RedCount(b: seq<Byte>): nat {
    if |b| >= 2 then b[1] else 0
  }

  function U32At(b: seq<Byte>, i: nat): int
    requires i + 4 <= |b|
  {
    b[i] as int * 0x100_0000 + b[i + 1] as int * 0x1_0000 + b[i + 2] as int * 0x100 + b[i + 3] as int
  }

  /** The 24 bits after a header's first byte: 14 bits of timestamp offset, 10 bits of length. */
  function HeaderField(b: seq<Byte>, i: nat): nat
    requires 6 + 4 * i + 4 <= |b|
  {
    b[6 + 4 * i + 1] as int * 0x1_0000 + b[6 + 4 * i + 2] as int * 0x100 + b[6 + 4 * i + 3] as int
  }

  /** Timestamp offsets of the first i headers. */
  function Offsets(b: seq<Byte>, i: nat): (r: seq<nat>)
    requires 7 + 4 * i <= |b|
    ensures |r| == i
  {
    if i == 0 then [] else Offsets(b, i - 1) + [HeaderField(b, i - 1) / 1024]
  }

  /** Block lengths of the first i headers. */
  function Lens(b: seq<Byte>, i: nat): (r: seq<nat>)
    requires 7 + 4 * i <= |b|
    ensures |r| == i
  {
    if i == 0 then [] else Lens(b, i - 1) + [HeaderField(b, i - 1) % 1024]
  }

  function SumTo(lens: seq<nat>, i: nat): nat
    requires i <= |lens|
  {
    if i == 0 then 0 else SumTo(lens, i - 1) + lens[i - 1]
  }

  lemma {:induction false} SumMonotone(lens: seq<nat>, i: nat, n: nat)
    requires i <= n <= |lens|
    ensures SumTo(lens, i) <= SumTo(lens, n)
    decreases n
  {
    if i < n { SumMonotone(lens, i, n - 1); }
  }

  /** Fixed part present and declared lengths inside the packet. */
  predicate WellFormed(b: seq<Byte>) {
    var n := RedCount(b);
    n > 0 && 7 + 4 * n <= |b| && 7 + 4 * n + SumTo(Lens(b, n), n) <= |b|
  }

  /** The first i blocks cut out of `b` from `start` on, with the given lengths and offsets. */
  function Carve(b: seq<Byte>, start: nat, pts: int, offsets: seq<nat>, lens: seq<nat>, i: nat): (r: seq<Block>)
    requires |offsets| == |lens| && i <= |lens| && start + SumTo(lens, i) <= |b|
    ensures |r| == i
  {
    if i == 0 then [] else
      var at := start + SumTo(lens, i - 1);
      Carve(b, start, pts, offsets, lens, i - 1)
        + [Block((pts - offsets[i - 1]) % U32, b[at..at + lens[i - 1]])]
  }

  /** All blocks of a packet: the redundant ones, oldest first, then the primary. */
  function Blocks(b: seq<Byte>): (r: seq<Block>)
    requires WellFormed(b)
    ensures |r| == RedCount(b) + 1
  {
    var n, pts := RedCount(b), U32At(b, 2);
    Carve(b, 7 + 4 * n, pts, Offsets(b, n), Lens(b, n), n) + [Block(pts, b[7 + 4 * n + SumTo(Lens(b, n), n)..])]
  }

  /** Frames to play and the new last-played timestamp, given the one before. */
  function Accept(last: int, blocks: seq<Block>): (seq<seq<Byte>>, int)
    decreases |blocks|
  {
    if blocks == [] then ([], last)
    else if Newer(blocks[0].ts, last) then
      var (out, final) := Accept(blocks[0].ts, blocks[1..]);
      ([blocks[0].buf] + out, final)
    else Accept(last, blocks[1..])
  }

  /** What a plain packet carries. */
  function Body(b: seq<Byte>): seq<Byte> {
    if |b| >= 2 then b[2..] else []
  }

  /** What one packet yields: plain and malformed packets clear the anchor, the first good one sets it. */
  function Extract(last: Option<int>, b: seq<Byte>): (seq<seq<Byte>>, Option<int>) {
    if RedCount(b) == 0 then ([Body(b)], None)
    else if !WellFormed(b) then ([], None)
    else if last.None? then ([Blocks(b)[RedCount(b)].buf], Some(U32At(b, 2)))
    else
      var (out, final) := Accept(last.value, Blocks(b));
      (out, Some(final))
  }

  /** All frames played over a sequence of packets. */
  function ExtractAll(last: Option<int>, packets: seq<seq<Byte>>): (seq<seq<Byte>>, Option<int>)
    decreases |packets|
  {
    if packets == [] then ([], last) else
      var (out, mid) := Extract(last, packets[0]);
      var (rest, final) := ExtractAll(mid, packets[1..]);
      (out + rest, final)
  }

  lemma {:induction false} AcceptSnoc(last: int, blocks: seq<Block>, x: Block)
    ensures var (out, mid) := Accept(last, blocks);
            Accept(last, blocks + [x]) ==
            if Newer(x.ts, mid) then (out + [x.buf], x.ts) else (out, mid)
    decreases |blocks|
  {
    if blocks == [] {
      assert blocks + [x] == [x] && [x][1..] == [] && [x.buf] + [] == [] + [x.buf];
    } else {
      assert (blocks + [x])[1..] == blocks[1..] + [x] && (blocks + [x])[0] == blocks[0];
      var next := if Newer(blocks[0].ts, last) then blocks[0].ts else last;
      AcceptSnoc(next, blocks[1..], x);
      var out := Accept(next, blocks[1..]).0;
      assert [blocks[0].buf] + (out + [x.buf]) == ([blocks[0].buf] + out) + [x.buf];
    }
  }

  class AudioReceiver {
    var lastAudioTs: Option<int>

    constructor ()
      ensures lastAudioTs == None
    {
      lastAudioTs := None;
    }

    method ExtractOpusFrames(b: seq<Byte>) returns (out: seq<seq<Byte>>)
      modifies this
      ensures (out, lastAudioTs) == Extract(old(lastAudioTs), b)
    {
      if RedCount(b) == 0 {
        lastAudioTs := None;
        return [if |b| >= 2 then b[2..] else []];
      }
      var parsed := ParseRed(b);
      if parsed.None? {
        lastAudioTs := None;
        return [];
      }
      var blocks := parsed.value;
      if lastAudioTs == None {
        lastAudioTs := Some(blocks[|blocks| - 1].ts);
        return [blocks[|blocks| - 1].buf];
      }
      var anchor := lastAudioTs.value;
      var last := anchor;
      out := [];
      var i := 0;
      while i < |blocks|
        invariant 0 <= i <= |blocks|
        invariant (out, last) == Accept(anchor, blocks[..i])
      {
        assert blocks[..i + 1] == blocks[..i] + [blocks[i]];
        AcceptSnoc(anchor, blocks[..i], blocks[i]);
        if Newer(blocks[i].ts, last) {
          out := out + [blocks[i].buf];
          last := blocks[i].ts;
        }
        i := i + 1;
      }
      assert blocks[..|blocks|] == blocks;
      lastAudioTs := Some(last);
    }
  }

  /** The parsing half of extractOpusFrames for a packet that announces redundancy. */
  method ParseRed(b: seq<Byte>) returns (r: Option<seq<Block>>)
    requires RedCount(b) > 0
    ensures r == if WellFormed(b) then Some(Blocks(b)) else None
  {
    var nRed: nat := b[1];
    if |b| < 6 + nRed * 4 + 1 {
      return None;
    }
    var offsets, lens := ReadHeaders(b);
    var blocks := CutBlocks(b, 6 + 4 * nRed + 1, U32At(b, 2), offsets, lens);
    return blocks;
  }

  method ReadHeaders(b: seq<Byte>) returns (offsets: seq<nat>, lens: seq<nat>)
    requires 7 + 4 * RedCount(b) <= |b|
    ensures offsets == Offsets(b, RedCount(b)) && lens == Lens(b, RedCount(b))
  {
    var nRed := RedCount(b);
    offsets, lens := [], [];
    var pos, i := 6, 0;
    while i < nRed
      invariant 0 <= i <= nRed && pos == 6 + 4 * i
      invariant offsets == Offsets(b, i) && lens == Lens(b, i)
    {
      var field := b[pos + 1] as int * 0x1_0000 + b[pos + 2] as int * 0x100 + b[pos + 3] as int;
      assert field == HeaderField(b, i);
      offsets := offsets + [field / 1024];
      lens := lens + [field % 1024];
      pos := pos + 4;
      i := i + 1;
    }
  }

  /** Checks the declared lengths against the packet, then slices it. */
  method CutBlocks(b: seq<Byte>, start: nat, pts: int, offsets: seq<nat>, lens: seq<nat>)
    returns (r: Option<seq<Block>>)
    requires |offsets| == |lens| && start <= |b|
    ensures r == if start + SumTo(lens, |lens|) <= |b|
                 then Some(Carve(b, start, pts, offsets, lens, |lens|) + [Block(pts, b[start + SumTo(lens, |lens|)..])])
                 else None
  {
    var declared, i := start, 0;
    while i < |lens|
      invariant 0 <= i <= |lens|
      invariant declared == start + SumTo(lens, i)
    {
      declared := declared + lens[i];
      i := i + 1;
    }
    if declared > |b| {
      return None;
    }
    var blocks := [];
    var pos := start;
    i := 0;
    while i < |lens|
      invariant 0 <= i <= |lens|
      invariant pos == start + SumTo(lens, i) <= |b|
      invariant blocks == Carve(b, start, pts, offsets, lens, i)
    {
      SumMonotone(lens, i + 1, |lens|);
      blocks := blocks + [Block((pts - offsets[i]) % U32, b[pos..pos + lens[i]])];
      pos := pos + lens[i];
      i := i + 1;
    }
    return Some(blocks + [Block(pts, b[pos..])]);
  }

  // ----- Encoding, and that parsing inverts it

  /** A redundant block as the sender describes it: how far back, and its frame. */
  datatype Redundant = Redundant(offset: nat, buf: seq<Byte>)

  ghost predicate Encodable(red: seq<Redundant>) {
    forall i :: 0 <= i < |red| ==> red[i].offset < 0x4000 && |red[i].buf| < 1024
  }

  function Header(pt: Byte, r: Redundant): (h: seq<Byte>)
    requires r.offset < 0x4000 && |r.buf| < 1024
    ensures |h| == 4
  {
    var field := r.offset * 1024 + |r.buf|;
    [pt, field / 0x1_0000, field / 0x100 % 0x100, field % 0x100]
  }

  function Headers(pt: Byte, red: seq<Redundant>): (h: seq<Byte>)
    requires Encodable(red)
    ensures |h| == 4 * |red|
  {
    if red == [] then [] else
      var n := |red| - 1;
      Headers(pt, red[..n]) + Header(pt, red[n])
  }

  function Bodies(red: seq<Redundant>): seq<Byte> {
    if red == [] then [] else Bodies(red[..|red| - 1]) + red[|red| - 1].buf
  }

  /** The packet: flag, count, timestamp, headers, primary header byte, bodies, primary. */
  function Encode(pts: int, pt: Byte, red: seq<Redundant>, primary: seq<Byte>): seq<Byte>
    requires 0 <= pts < U32 && 0 < |red| < 256 && Encodable(red)
  {
    FixedPart(pts, |red|) + (Headers(pt, red) + ([pt] + (Bodies(red) + primary)))
  }

  function FixedPart(pts: int, n: Byte): (b: seq<Byte>)
    requires 0 <= pts < U32
    ensures |b| == 6
  {
    [1, n, pts / 0x100_0000, pts / 0x1_0000 % 0x100, pts / 0x100 % 0x100, pts % 0x100]
  }

  /** The same layout, described part by part. */
  ghost predicate LaidOut(b: seq<Byte>, pts: int, pt: Byte, red: seq<Redundant>, primary: seq<Byte>) {
    && 0 <= pts < U32 && 0 < |red| < 256 && Encodable(red)
    && |b| == 7 + 4 * |red| + |Bodies(red)| + |primary|
    && b[..6] == FixedPart(pts, |red|)
    && b[6..6 + 4 * |red|] == Headers(pt, red)
    && b[7 + 4 * |red|..] == Bodies(red) + primary
  }

  lemma EncodeIsLaidOut(pts: int, pt: Byte, red: seq<Redundant>, primary: seq<Byte>)
    requires 0 <= pts < U32 && 0 < |red| < 256 && Encodable(red)
    ensures LaidOut(Encode(pts, pt, red, primary), pts, pt, red, primary)
  {
    FourParts(FixedPart(pts, |red|), Headers(pt, red), [pt], Bodies(red) + primary);
  }

  lemma FourParts<T>(a: seq<T>, b: seq<T>, c: seq<T>, d: seq<T>)
    ensures var s := a + (b + (c + d));
            && |s| == |a| + |b| + |c| + |d| && s[..|a|] == a
            && s[|a|..|a| + |b|] == b && s[|a| + |b| + |c|..] == d
  {
    var s := a + (b + (c + d));
    assert s[|a|..] == b + (c + d);
    assert s[|a| + |b|..] == c + d;
  }

  function BlocksSent(pts: int, red: seq<Redundant>, primary: seq<Byte>): seq<Block> {
    seq(|red|, i requires 0 <= i < |red| => Block((pts - red[i].offset) % U32, red[i].buf)) + [Block(pts, primary)]
  }

  lemma {:induction false} HeaderAt(pt: Byte, red: seq<Redundant>, i: nat)
    requires Encodable(red) && i < |red|
    ensures Headers(pt, red)[4 * i..4 * i + 4] == Header(pt, red[i])
    decreases |red|
  {
    var n := |red| - 1;
    if i < n {
      HeaderAt(pt, red[..n], i);
      assert Headers(pt, red)[4 * i..4 * i + 4] == Headers(pt, red[..n])[4 * i..4 * i + 4];
    }
  }

  lemma FieldAt(b: seq<Byte>, pts: int, pt: Byte, red: seq<Redundant>, primary: seq<Byte>, i: nat)
    requires LaidOut(b, pts, pt, red, primary) && i < |red|
    ensures HeaderField(b, i) == red[i].offset * 1024 + |red[i].buf|
  {
    HeaderAt(pt, red, i);
    var h := Header(pt, red[i]);
    FourOf(b, 6, 6 + 4 * |red|, 4 * i, h);
    U24Bytes(red[i].offset * 1024 + |red[i].buf|);
  }

  lemma FourOf<T>(b: seq<T>, lo: nat, hi: nat, i: nat, h: seq<T>)
    requires lo <= hi <= |b| && i + 4 <= hi - lo && |h| == 4 && b[lo..hi][i..i + 4] == h
    ensures b[lo + i + 1] == h[1] && b[lo + i + 2] == h[2] && b[lo + i + 3] == h[3]
  {
    var w := b[lo..hi];
    assert w[i + 1] == w[i..i + 4][1] && w[i + 2] == w[i..i + 4][2] && w[i + 3] == w[i..i + 4][3];
  }

  lemma U24Bytes(f: nat)
    ensures f / 0x1_0000 * 0x1_0000 + f / 0x100 % 0x100 * 0x100 + f % 0x100 == f
  {
    var g := f / 0x100;
    assert f == g * 0x100 + f % 0x100 && g == g / 0x100 * 0x100 + g % 0x100;
    assert g / 0x100 == f / 0x1_0000;
  }

  lemma U32Bytes(n: nat)
    ensures n / 0x100_0000 * 0x100_0000 + n / 0x1_0000 % 0x100 * 0x1_0000 + n / 0x100 % 0x100 * 0x100 + n % 0x100 == n
  {
    assert n / 0x1_0000 / 0x100 == n / 0x100_0000;
    U24Bytes(n);
  }

  function LensOf(red: seq<Redundant>): (r: seq<nat>)
    ensures |r| == |red|
    ensures forall i :: 0 <= i < |red| ==> r[i] == |red[i].buf|
  {
    seq(|red|, i requires 0 <= i < |red| => |red[i].buf|)
  }

  function OffsetsOf(red: seq<Redundant>): (r: seq<nat>)
    ensures |r| == |red|
    ensures forall i :: 0 <= i < |red| ==> r[i] == red[i].offset
  {
    seq(|red|, i requires 0 <= i < |red| => red[i].offset)
  }

  lemma {:induction false} SumIsBodies(red: seq<Redundant>, i: nat)
    requires i <= |red|
    ensures SumTo(LensOf(red), i) == |Bodies(red[..i])|
  {
    if i > 0 {
      SumIsBodies(red, i - 1);
      assert red[..i][..i - 1] == red[..i - 1];
    }
  }

  lemma {:induction false} BodiesSplit(red: seq<Redundant>, i: nat)
    requires i < |red|
    ensures |Bodies(red[..i])| + |red[i].buf| <= |Bodies(red)|
    ensures Bodies(red)[|Bodies(red[..i])|..|Bodies(red[..i])| + |red[i].buf|] == red[i].buf
    decreases |red|
  {
    var n := |red| - 1;
    if i < n {
      BodiesSplit(red[..n], i);
      assert red[..n][..i] == red[..i];
      var before, from, to := Bodies(red[..n]), |Bodies(red[..i])|, |Bodies(red[..i])| + |red[i].buf|;
      assert (before + red[n].buf)[from..to] == before[from..to];
    } else {
      assert (Bodies(red[..n]) + red[n].buf)[|Bodies(red[..n])|..] == red[n].buf;
    }
  }

  lemma LaidOutFixed(b: seq<Byte>, pts: int, pt: Byte, red: seq<Redundant>, primary: seq<Byte>)
    requires LaidOut(b, pts, pt, red, primary)
    ensures RedCount(b) == |red| && U32At(b, 2) == pts
  {
    var f := b[..6];
    assert b[1] == f[1] && b[2] == f[2] && b[3] == f[3] && b[4] == f[4] && b[5] == f[5];
    U32Bytes(pts);
  }

  lemma LaidOutHeaders(b: seq<Byte>, pts: int, pt: Byte, red: seq<Redundant>, primary: seq<Byte>)
    requires LaidOut(b, pts, pt, red, primary)
    ensures Lens(b, |red|) == LensOf(red) && Offsets(b, |red|) == OffsetsOf(red)
  {
    var n := |red|;
    forall k | 0 <= k < n ensures Lens(b, n)[k] == LensOf(red)[k] && Offsets(b, n)[k] == OffsetsOf(red)[k] {
      FieldAt(b, pts, pt, red, primary, k);
      SplitField(red[k].offset, |red[k].buf|);
      HeaderElement(b, n, k);
    }
  }

  lemma {:induction false} HeaderElement(b: seq<Byte>, n: nat, k: nat)
    requires 7 + 4 * n <= |b| && k < n
    ensures Lens(b, n)[k] == HeaderField(b, k) % 1024 && Offsets(b, n)[k] == HeaderField(b, k) / 1024
    decreases n
  {
    if k < n - 1 { HeaderElement(b, n - 1, k); }
  }

  lemma SplitField(offset: nat, len: nat)
    requires len < 1024
    ensures (offset * 1024 + len) / 1024 == offset && (offset * 1024 + len) % 1024 == len
  {
  }

  lemma SliceOfTail<T>(b: seq<T>, start: nat, at: nat, len: nat, bodies: seq<T>, primary: seq<T>)
    requires start <= |b| && b[start..] == bodies + primary && at + len <= |bodies|
    ensures b[start + at..start + at + len] == bodies[at..at + len]
  {
    var tail := b[start..];
    var x, y := b[start + at..start + at + len], bodies[at..at + len];
    forall k | 0 <= k < len ensures x[k] == y[k] {
      assert x[k] == b[start + (at + k)] && tail[at + k] == b[start + (at + k)];
    }
  }

  /** Parsing a well-formed encoding returns exactly the blocks that were sent. */
  lemma ParseInvertsEncode(pts: int, pt: Byte, red: seq<Redundant>, primary: seq<Byte>)
    requires 0 <= pts < U32 && 0 < |red| < 256 && Encodable(red)
    ensures var b := Encode(pts, pt, red, primary);
            WellFormed(b) && Blocks(b) == BlocksSent(pts, red, primary)
  {
    EncodeIsLaidOut(pts, pt, red, primary);
    ParseLaidOut(Encode(pts, pt, red, primary), pts, pt, red, primary);
  }

  lemma ParseLaidOut(b: seq<Byte>, pts: int, pt: Byte, red: seq<Redundant>, primary: seq<Byte>)
    requires LaidOut(b, pts, pt, red, primary)
    ensures WellFormed(b) && Blocks(b) == BlocksSent(pts, red, primary)
  {
    hide Carve, Lens, Offsets, SumTo, Headers, FixedPart, Bodies;
    var n := |red|;
    LaidOutFixed(b, pts, pt, red, primary);
    LaidOutHeaders(b, pts, pt, red, primary);
    BodiesTotal(red);
    CarveBodies(b, 7 + 4 * n, pts, red, primary, n);
    DropBoth(b, 7 + 4 * n, |Bodies(red)|, Bodies(red), primary);
  }

  lemma BodiesTotal(red: seq<Redundant>)
    ensures SumTo(LensOf(red), |red|) == |Bodies(red)|
  {
    SumIsBodies(red, |red|);
    assert red[..|red|] == red;
  }

  lemma DropBoth<T>(b: seq<T>, start: nat, n: nat, bodies: seq<T>, primary: seq<T>)
    requires start <= |b| && b[start..] == bodies + primary && n == |bodies|
    ensures start + n <= |b| && b[start + n..] == primary
  {
    assert b[start..][n..] == primary;
  }

  lemma BodyAt(b: seq<Byte>, start: nat, red: seq<Redundant>, primary: seq<Byte>, i: nat)
    requires start <= |b| && b[start..] == Bodies(red) + primary && i < |red|
    ensures var at := start + SumTo(LensOf(red), i);
            && at + |red[i].buf| == start + SumTo(LensOf(red), i + 1) <= |b|
            && b[at..at + |red[i].buf|] == red[i].buf
  {
    SumIsBodies(red, i);
    BodiesSplit(red, i);
    SliceOfTail(b, start, |Bodies(red[..i])|, |red[i].buf|, Bodies(red), primary);
  }

  /** Cutting the bodies apart at the declared lengths gives each block its own frame. */
  lemma {:induction false} CarveBodies(b: seq<Byte>, start: nat, pts: int, red: seq<Redundant>, primary: seq<Byte>,
                                       i: nat)
    requires start <= |b| && b[start..] == Bodies(red) + primary && i <= |red|
    ensures start + SumTo(LensOf(red), i) <= |b|
    ensures Carve(b, start, pts, OffsetsOf(red), LensOf(red), i) == BlocksSent(pts, red, primary)[..i]
  {
    hide Bodies, LensOf, OffsetsOf;
    if i > 0 {
      CarveBodies(b, start, pts, red, primary, i - 1);
      BodyAt(b, start, red, primary, i - 1);
      PrefixSnoc(BlocksSent(pts, red, primary), i - 1);
    }
  }

  /**
   An encoding cut short is rejected, with no frame and the anchor gone, exactly if the cut is in the
   header or the redundant blocks. Cut later it is the encoding of a packet whose primary is that much
   shorter, which is then played; cut before its count it passes for a plain packet with an empty frame.
   */
  lemma TruncationExactly(pts: int, pt: Byte, red: seq<Redundant>, primary: seq<Byte>, cut: nat, last: Option<int>)
    requires 0 <= pts < U32 && 0 < |red| < 256 && Encodable(red)
    requires cut <= |Encode(pts, pt, red, primary)|
    ensures var (b, blocks) := (Encode(pts, pt, red, primary)[..cut], 7 + 4 * |red| + |Bodies(red)|);
            && (Extract(last, b) == ([], None) <==> 2 <= cut < blocks)
            && (cut < 2 ==> Extract(last, b) == ([[]], None))
            && (cut >= blocks ==> cut - blocks <= |primary| && b == Encode(pts, pt, red, primary[..cut - blocks]))
  {
    hide Extract, Encode;
    var blocks := 7 + 4 * |red| + |Bodies(red)|;
    EncodeIsLaidOut(pts, pt, red, primary);
    if cut < 2 {
      TooShort(last, Encode(pts, pt, red, primary)[..cut]);
    } else if cut < blocks {
      TruncatedLayout(Encode(pts, pt, red, primary), pts, pt, red, primary, cut, last);
    } else {
      ShorterPrimary(pts, pt, red, primary, cut - blocks);
      ParseInvertsEncode(pts, pt, red, primary[..cut - blocks]);
      Anchored(last, Encode(pts, pt, red, primary)[..cut]);
    }
  }

  lemma TooShort(last: Option<int>, b: seq<Byte>)
    requires |b| < 2
    ensures Extract(last, b) == ([[]], None)
  {
  }

  lemma Anchored(last: Option<int>, b: seq<Byte>)
    requires WellFormed(b)
    ensures Extract(last, b).1.Some?
  {
  }

  lemma TakeOfParts<T>(a: seq<T>, b: seq<T>, c: seq<T>, d: seq<T>, e: seq<T>, m: nat)
    requires m <= |e|
    ensures (a + (b + (c + (d + e))))[..|a| + |b| + |c| + |d| + m] == a + (b + (c + (d + e[..m])))
  {
    var n := |b| + |c| + |d| + m;
    assert (d + e)[..|d| + m] == d + e[..m];
    TakeOfTwo(c, d + e, |d| + m);
    TakeOfTwo(b, c + (d + e), |c| + |d| + m);
    TakeOfTwo(a, b + (c + (d + e)), n);
  }

  lemma TakeOfTwo<T>(a: seq<T>, b: seq<T>, n: nat)
    requires n <= |b|
    ensures (a + b)[..|a| + n] == a + b[..n]
  {
  }

  lemma ShorterPrimary(pts: int, pt: Byte, red: seq<Redundant>, primary: seq<Byte>, m: nat)
    requires 0 <= pts < U32 && 0 < |red| < 256 && Encodable(red) && m <= |primary|
    ensures |Encode(pts, pt, red, primary)| == 7 + 4 * |red| + |Bodies(red)| + |primary|
    ensures Encode(pts, pt, red, primary)[..7 + 4 * |red| + |Bodies(red)| + m] == Encode(pts, pt, red, primary[..m])
  {
    hide Headers, FixedPart, Bodies;
    TakeOfParts(FixedPart(pts, |red|), Headers(pt, red), [pt], Bodies(red), primary, m);
  }

  lemma {:induction false} SameHeaders(b: seq<Byte>, c: seq<Byte>, i: nat)
    requires 7 + 4 * i <= |c| && c <= b
    ensures Lens(c, i) == Lens(b, i)
  {
    if i > 0 { SameHeaders(b, c, i - 1); }
  }

  lemma TruncatedLayout(b: seq<Byte>, pts: int, pt: Byte, red: seq<Redundant>, primary: seq<Byte>, cut: nat,
                        last: Option<int>)
    requires LaidOut(b, pts, pt, red, primary) && 2 <= cut < 7 + 4 * |red| + |Bodies(red)|
    ensures Extract(last, b[..cut]) == ([], None)
  {
    LaidOutFixed(b, pts, pt, red, primary);
    LaidOutHeaders(b, pts, pt, red, primary);
    var n, c := |red|, b[..cut];
    if 7 + 4 * n <= cut {
      SameHeaders(b, c, n);
      BodiesTotal(red);
    }
  }

  /** A packet with one redundant block. */
  lemma OneRedundant(b: seq<Byte>, offset: nat, len: nat)
    requires RedCount(b) == 1 && 11 + len <= |b| && HeaderField(b, 0) == offset * 1024 + len && len < 1024
    ensures WellFormed(b)
    ensures Blocks(b) == [Block((U32At(b, 2) - offset) % U32, b[11..11 + len]), Block(U32At(b, 2), b[11 + len..])]
  {
    hide HeaderField, U32At;
    SplitField(offset, len);
    assert Offsets(b, 1) == Offsets(b, 0) + [offset] == [offset] && Lens(b, 1) == Lens(b, 0) + [len] == [len];
    assert SumTo([len], 0) == 0 && SumTo([len], 1) == len;
    var pts := U32At(b, 2);
    assert Carve(b, 11, pts, [offset], [len], 1)
        == Carve(b, 11, pts, [offset], [len], 0) + [Block((pts - offset) % U32, b[11..11 + len])];
  }

  /** As it is on the wire: timestamp 256, one frame 2 ticks before it, payload type 111. */
  lemma PacketExample()
    ensures var b := [1, 1, 0, 0, 1, 0, 111, 0, 8, 1, 111, 0xAA, 0xBB];
            WellFormed(b) && Blocks(b) == [Block(254, [0xAA]), Block(256, [0xBB])]
  {
    hide WellFormed, Blocks;
    var b: seq<Byte> := [1, 1, 0, 0, 1, 0, 111, 0, 8, 1, 111, 0xAA, 0xBB];
    OneRedundant(b, 2, 1);
    assert b[11..12] == [0xAA] && b[12..] == [0xBB];
  }
}
