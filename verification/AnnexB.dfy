/**
 The Annex B scanner that reads the H.264 codec string from a keyframe's sequence parameter
 set: a byte loop that recognises three- and four-byte start codes and jumps past each one.
 */
module AnnexB {
  import opened Wrappers

  // ----- The codec string

  function HexDigit(d: nat): (c: char)
    requires d < 16
    ensures '0' <= c <= '9' || 'A' <= c <= 'F'
    ensures forall e: nat | e < 16 && e != d :: "0123456789ABCDEF"[e] != c
  {
    "0123456789ABCDEF"[d]
  }

  /** Upper-case hexadecimal, padded to two digits. */
  function Hex2(n: Byte): string {
    [HexDigit(n / 16), HexDigit(n % 16)]
  }

  function Codec(profile: Byte, constraints: Byte, level: Byte): string {
    "avc1." + (Hex2(profile) + Hex2(constraints) + Hex2(level))
  }

  lemma Hex2Injective(a: Byte, b: Byte)
    ensures Hex2(a) == Hex2(b) ==> a == b
  {
    if Hex2(a) == Hex2(b) {
      assert Hex2(a)[0] == Hex2(b)[0] && Hex2(a)[1] == Hex2(b)[1];
      assert a / 16 == b / 16 && a % 16 == b % 16;
    }
  }

  /** The codec string determines the three bytes it was made from. */
  lemma CodecInjective(p: Byte, c: Byte, l: Byte, p': Byte, c': Byte, l': Byte)
    ensures Codec(p, c, l) == Codec(p', c', l') <==> p == p' && c == c' && l == l'
  {
    var x, y := Codec(p, c, l), Codec(p', c', l');
    assert x[5..7] == Hex2(p) && y[5..7] == Hex2(p');
    assert x[7..9] == Hex2(c) && y[7..9] == Hex2(c');
    assert x[9..11] == Hex2(l) && y[9..11] == Hex2(l');
    Hex2Injective(p, p');
    Hex2Injective(c, c');
    Hex2Injective(l, l');
  }

  function DigitValue(c: char): int {
    if '0' <= c <= '9' then c as int - '0' as int else c as int - 'A' as int + 10
  }

  /** The digits are the number's, high digit first; so the codec string can be read back. */
  lemma Hex2Reads(n: Byte)
    ensures |Hex2(n)| == 2 && 16 * DigitValue(Hex2(n)[0]) + DigitValue(Hex2(n)[1]) == n
  {
    DigitReads(n / 16);
    DigitReads(n % 16);
  }

  lemma DigitReads(d: nat)
    requires d < 16
    ensures DigitValue(HexDigit(d)) == d
  {
  }

  lemma CodecReads(p: Byte, c: Byte, l: Byte)
    ensures var s := Codec(p, c, l);
            && |s| == 11 && s[..5] == "avc1."
            && 16 * DigitValue(s[5]) + DigitValue(s[6]) == p
            && 16 * DigitValue(s[7]) + DigitValue(s[8]) == c
            && 16 * DigitValue(s[9]) + DigitValue(s[10]) == l
  {
    hide HexDigit, DigitValue;
    Hex2Reads(p);
    Hex2Reads(c);
    Hex2Reads(l);
  }

  /** Constrained baseline at level 3.1. */
  lemma CodecExample()
    ensures Codec(0x42, 0xE0, 0x1F) == "avc1.42E01F"
  {
  }

  // ----- What the scan is for

  /** Forbidden bit clear and unit type 7. */
  predicate IsSpsHeader(header: Byte) {
    header < 128 && header % 32 == 7
  }

  /** The reference bits are free. */
  lemma SpsHeaders(header: Byte)
    ensures IsSpsHeader(header) <==> header in [0x07, 0x27, 0x47, 0x67]
  {
    assert header == header / 32 * 32 + header % 32;
  }

  predicate StartCodeAt(b: seq<Byte>, p: nat) {
    p + 2 < |b| && b[p] == 0 && b[p + 1] == 0 && b[p + 2] == 1
  }

  predicate SpsAt(b: seq<Byte>, p: nat) {
    StartCodeAt(b, p) && p + 3 < |b| && IsSpsHeader(b[p + 3])
  }

  /** The first start code from `from` on that a parameter set header follows. */
  function FirstSps(b: seq<Byte>, from: nat): (r: Option<nat>)
    ensures r.Some? ==> from <= r.value && SpsAt(b, r.value) && forall q | from <= q < r.value :: !SpsAt(b, q)
    ensures r.None? ==> forall q | from <= q :: !SpsAt(b, q)
    decreases |b| - from
  {
    if from >= |b| then None
    else if SpsAt(b, from) then Some(from)
    else FirstSps(b, from + 1)
  }

  function SpsCodec(b: seq<Byte>): Option<string> {
    match FirstSps(b, 0)
    case None => None
    case Some(p) => if p + 6 < |b| then Some(Codec(b[p + 4], b[p + 5], b[p + 6])) else None
  }

  lemma FirstIs(b: seq<Byte>, p: nat)
    requires SpsAt(b, p) && NoneBefore(b, p)
    ensures FirstSps(b, 0) == Some(p)
  {
    var r := FirstSps(b, 0);
    if r.Some? {
      assert r.value <= p && p <= r.value;
    }
  }

  ghost predicate NoneBefore(b: seq<Byte>, i: nat) {
    forall q: nat | q < i :: !SpsAt(b, q)
  }

  /** Stepping over a byte where neither kind of start code begins misses nothing. */
  lemma StepMissesNone(b: seq<Byte>, i: nat)
    requires NoneBefore(b, i) && !StartCodeAt(b, i)
    ensures NoneBefore(b, i + 1)
  {
  }

  /** Jumping from the 1 of a start code to the header behind it misses nothing but that header. */
  lemma JumpMissesNone(b: seq<Byte>, p: nat)
    requires NoneBefore(b, p) && StartCodeAt(b, p) && !SpsAt(b, p)
    ensures NoneBefore(b, p + 3)
  {
    assert !StartCodeAt(b, p + 1) && !StartCodeAt(b, p + 2);
  }

  /** parseAvcCodecFromAnnexB. Jumping past a start code of either length misses none. */
  method ParseAvcCodec(b: seq<Byte>) returns (r: Option<string>)
    ensures r == SpsCodec(b)
  {
    hide SpsAt, NoneBefore, Codec;
    var n := |b|;
    if n < 5 {
      ShortHasNoCodec(b);
      return None;
    }
    var i := 0;
    NothingYet(b);
    while i + 3 < n
      invariant 0 <= i <= n && NoneBefore(b, i)
    {
      var startLen := 0;
      if b[i] == 0 && b[i + 1] == 0 && b[i + 2] == 1 {
        startLen := 3;
      } else if i + 4 < n && b[i] == 0 && b[i + 1] == 0 && b[i + 2] == 0 && b[i + 3] == 1 {
        startLen := 4;
        StepMissesNone(b, i);
      } else {
        StepMissesNone(b, i);
        i := i + 1;
        continue;
      }
      var nalStart := i + startLen;
      HeaderDecides(b, nalStart - 3);
      if IsSpsHeader(b[nalStart]) {
        FirstIs(b, nalStart - 3);
        if nalStart + 3 < n {
          return Some(Codec(b[nalStart + 1], b[nalStart + 2], b[nalStart + 3]));
        }
        return None;
      }
      JumpMissesNone(b, nalStart - 3);
      i := nalStart;
    }
    EndHasNone(b, i);
    return None;
  }

  lemma NothingYet(b: seq<Byte>)
    ensures NoneBefore(b, 0)
  {
  }

  lemma HeaderDecides(b: seq<Byte>, p: nat)
    requires StartCodeAt(b, p) && p + 3 < |b|
    ensures SpsAt(b, p) <==> IsSpsHeader(b[p + 3])
  {
  }

  lemma EndHasNone(b: seq<Byte>, i: nat)
    requires NoneBefore(b, i) && i + 3 >= |b|
    ensures FirstSps(b, 0) == None
  {
  }

  lemma ShortHasNoCodec(b: seq<Byte>)
    requires |b| < 5
    ensures SpsCodec(b) == None
  {
  }

  // ----- Streams made of NAL units

  /** One unit with the start code put in front of it. */
  datatype Unit = Unit(long: bool, nal: seq<Byte>)

  /** Emulation prevention keeps start codes out of a unit's own bytes. */
  predicate WellFormed(u: Unit) {
    u.nal != [] && forall q: nat | q + 2 < |u.nal| :: !StartCodeAt(u.nal, q)
  }

  predicate IsSps(u: Unit) {
    u.nal != [] && IsSpsHeader(u.nal[0])
  }

  function Framed(u: Unit): seq<Byte> {
    (if u.long then [0, 0, 0, 1] else [0, 0, 1]) + u.nal
  }

  function Stream(us: seq<Unit>): seq<Byte> {
    if us == [] then [] else Framed(us[0]) + Stream(us[1..])
  }

  /** Where the three-byte tail of the unit's start code begins. */
  function CodeStart(u: Unit): nat {
    if u.long then 1 else 0
  }

  /** Whatever follows a unit, start codes in it lie at its own code or in what follows. */
  lemma UnitHides(u: Unit, rest: seq<Byte>, q: nat)
    requires WellFormed(u) && (rest == [] || (|rest| >= 2 && rest[0] == 0 && rest[1] == 0))
    requires q < |Framed(u)| && q != CodeStart(u)
    ensures !StartCodeAt(Framed(u) + rest, q)
  {
    var b, z := Framed(u) + rest, CodeStart(u) + 3;
    if q >= z && q + 2 < |Framed(u)| {
      assert b[q] == u.nal[q - z] && b[q + 1] == u.nal[q - z + 1] && b[q + 2] == u.nal[q - z + 2];
      assert !StartCodeAt(u.nal, q - z);
    }
  }

  lemma StreamStartsWithZeros(us: seq<Unit>)
    ensures Stream(us) == [] || (|Stream(us)| >= 2 && Stream(us)[0] == 0 && Stream(us)[1] == 0)
  {
  }

  lemma TailShift(head: seq<Byte>, rest: seq<Byte>, q: nat)
    requires q >= |head|
    ensures SpsAt(head + rest, q) == SpsAt(rest, q - |head|)
  {
  }

  /** In a unit followed by others, the unit's own header is the only one to be seen. */
  lemma UnitShows(u: Unit, rest: seq<Byte>, q: nat)
    requires WellFormed(u) && (rest == [] || (|rest| >= 2 && rest[0] == 0 && rest[1] == 0))
    ensures SpsAt(Framed(u) + rest, q) <==>
            if q < |Framed(u)| then q == CodeStart(u) && IsSps(u) else SpsAt(rest, q - |Framed(u)|)
  {
    if q >= |Framed(u)| {
      TailShift(Framed(u), rest, q);
    } else if q != CodeStart(u) {
      UnitHides(u, rest, q);
    } else {
      assert (Framed(u) + rest)[q + 3] == u.nal[0];
    }
  }

  lemma StreamShows(us: seq<Unit>, q: nat)
    requires us != [] && forall u | u in us :: WellFormed(u)
    ensures SpsAt(Stream(us), q) <==>
            if q < |Framed(us[0])| then q == CodeStart(us[0]) && IsSps(us[0])
            else SpsAt(Stream(us[1..]), q - |Framed(us[0])|)
  {
    hide SpsAt, WellFormed, Framed;
    StreamStartsWithZeros(us[1..]);
    UnitShows(us[0], Stream(us[1..]), q);
  }

  lemma DropInside<T>(head: seq<T>, rest: seq<T>, k: nat)
    requires k <= |head|
    ensures (head + rest)[k..] == head[k..] + rest
  {
  }

  lemma HeadBytes(us: seq<Unit>)
    requires us != []
    ensures |Framed(us[0])| > CodeStart(us[0]) + 2
    ensures Stream(us)[CodeStart(us[0]) + 3..] == us[0].nal + Stream(us[1..])
  {
    hide WellFormed, SpsAt;
    var head, rest, k := Framed(us[0]), Stream(us[1..]), CodeStart(us[0]) + 3;
    assert Stream(us) == head + rest;
    assert head[k..] == us[0].nal;
    DropInside(head, rest, k);
  }

  lemma TailBytes(us: seq<Unit>, p: nat)
    requires us != [] && p <= |Stream(us[1..])|
    ensures |Framed(us[0])| + p <= |Stream(us)|
    ensures Stream(us)[|Framed(us[0])| + p..] == Stream(us[1..])[p..]
  {
    hide Framed;
    assert Stream(us)[|Framed(us[0])| + p..] == Stream(us[1..])[p..];
  }

  /** The first parameter set unit of a stream is the first place where the bytes show one. */
  lemma {:induction false} FirstUnit(us: seq<Unit>, k: nat) returns (p: nat)
    requires k < |us| && forall u | u in us :: WellFormed(u)
    requires IsSps(us[k]) && forall j | 0 <= j < k :: !IsSps(us[j])
    ensures FirstSps(Stream(us), 0) == Some(p) && Stream(us)[p + 3..] == us[k].nal + Stream(us[k + 1..])
  {
    hide SpsAt, WellFormed, Framed, Stream, IsSps, StartCodeAt;
    HeadBytes(us);
    if k == 0 {
      p := CodeStart(us[0]);
    } else {
      var below := FirstUnit(us[1..], k - 1);
      p := |Framed(us[0])| + below;
      SpsInside(Stream(us[1..]), below);
      TailBytes(us, below + 3);
      assert us[1..][k..] == us[k + 1..];
    }
    forall q: nat | q <= p ensures SpsAt(Stream(us), q) == (q == p) {
      StreamShows(us, q);
    }
    FirstIs(Stream(us), p);
  }

  lemma SpsInside(b: seq<Byte>, p: nat)
    requires SpsAt(b, p)
    ensures p + 3 < |b|
  {
  }

  lemma {:induction false} NoUnit(us: seq<Unit>)
    requires forall u | u in us :: WellFormed(u) && !IsSps(u)
    ensures FirstSps(Stream(us), 0) == None
  {
    if us != [] {
      NoUnit(us[1..]);
      forall q: nat ensures !SpsAt(Stream(us), q) {
        StreamShows(us, q);
      }
    }
  }

  /**
   On a stream framed from units, with any mix of start codes, the answer is the three bytes after
   the first parameter set's header: its profile, constraint and level, unless it is cut short,
   when the scanner reads on into what follows, or gives up if that ends too.
   */
  lemma StreamCodec(us: seq<Unit>, k: nat)
    requires k < |us| && forall u | u in us :: WellFormed(u)
    requires IsSps(us[k]) && forall j | 0 <= j < k :: !IsSps(us[j])
    ensures var tail, nal := us[k].nal + Stream(us[k + 1..]), us[k].nal;
            && SpsCodec(Stream(us)) == (if |tail| >= 4 then Some(Codec(tail[1], tail[2], tail[3])) else None)
            && (|nal| >= 4 ==> SpsCodec(Stream(us)) == Some(Codec(nal[1], nal[2], nal[3])))
  {
    hide Stream, Codec, WellFormed;
    var p := FirstUnit(us, k);
    var tail := us[k].nal + Stream(us[k + 1..]);
    assert tail == Stream(us)[p + 3..];
    assert |tail| == |Stream(us)| - (p + 3);
    if |tail| >= 4 {
      assert tail[1] == Stream(us)[p + 4] && tail[2] == Stream(us)[p + 5] && tail[3] == Stream(us)[p + 6];
    }
  }

  lemma FirstSpsUnit(us: seq<Unit>, from: nat) returns (k: nat)
    requires exists u :: u in us && IsSps(u)
    requires from < |us| && forall j | 0 <= j < from :: !IsSps(us[j])
    ensures k < |us| && IsSps(us[k]) && forall j | 0 <= j < k :: !IsSps(us[j])
    decreases |us| - from
  {
    if IsSps(us[from]) {
      k := from;
    } else {
      k := FirstSpsUnit(us, from + 1);
    }
  }

  /** And nothing is found exactly when no unit of the stream is a parameter set. */
  lemma StreamWithoutSps(us: seq<Unit>)
    requires forall u | u in us :: WellFormed(u)
    ensures FirstSps(Stream(us), 0) == None <==> forall u | u in us :: !IsSps(u)
  {
    if forall u | u in us :: !IsSps(u) {
      NoUnit(us);
    } else {
      var k := FirstSpsUnit(us, 0);
      var p := FirstUnit(us, k);
    }
  }
}
