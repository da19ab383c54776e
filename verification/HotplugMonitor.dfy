/**
 The fake udev monitor: inotify reads fill a buffer with many variable-length records, one
 device is dispensed per call, and an eventfd tells poll()ing clients that one is still buffered.
 */
module HotplugMonitor {
  import opened Wrappers
  import opened Decimal
  import opened DeviceNames

  const HEADER: nat := 16                 // sizeof(struct inotify_event)
  const EVBUF_SIZE: nat := 4096
  const IN_CREATE: nat := 0x100
  const IN_DELETE: nat := 0x200

  datatype Action = Add | Remove
  datatype Device = Device(node: Node, action: Action)

  /** The fields of one inotify record that matter: mask, declared name length, name. */
  datatype Record = Record(mask: nat, len: nat, name: string)

  // ----- The records of a buffer

  function U32At(b: seq<Byte>, i: nat): nat
    requires i + 4 <= |b|
  {
    b[i] as int + b[i + 1] as int * 0x100 + b[i + 2] as int * 0x1_0000 + b[i + 3] as int * 0x100_0000
  }

  /** A NUL-terminated name inside its padded field. */
  function CString(b: seq<Byte>): string {
    if b == [] || b[0] == 0 then "" else [b[0] as char] + CString(b[1..])
  }

  predicate WholeRecordAt(b: seq<Byte>, off: nat) {
    off + HEADER <= |b| && off + HEADER + U32At(b, off + 12) <= |b|
  }

  function RecordAt(b: seq<Byte>, off: nat): Record
    requires WholeRecordAt(b, off)
  {
    var len := U32At(b, off + 12);
    Record(U32At(b, off + 4), len, CString(b[off + HEADER..off + HEADER + len]))
  }

  function NextOffset(b: seq<Byte>, off: nat): nat
    requires WholeRecordAt(b, off)
  {
    off + HEADER + U32At(b, off + 12)
  }

  /** The whole records from `off` on; a trailing partial record is not one. */
  function Records(b: seq<Byte>, off: nat): seq<Record>
    decreases |b| - off
  {
    if !WholeRecordAt(b, off) then [] else [RecordAt(b, off)] + Records(b, NextOffset(b, off))
  }

  // ----- Which records become devices

  predicate Bit(mask: nat, bit: nat)
    requires bit > 0
  {
    mask / bit % 2 == 1
  }

  /** The device a record announces to a monitor with this subsystem filter, if any. */
  function Announced(pads: nat, filter: string, r: Record): Option<Device> {
    if !(Bit(r.mask, IN_CREATE) || Bit(r.mask, IN_DELETE)) || r.len == 0 then None
    else
      var node := NodeOfSocket(pads, r.name);
      if node.None? || (filter != "" && filter != "input") then None
      else Some(Device(node.value, if Bit(r.mask, IN_CREATE) then Add else Remove))
  }

  function Devices(pads: nat, filter: string, rs: seq<Record>): seq<Device> {
    if rs == [] then []
    else (match Announced(pads, filter, rs[0]) case None => [] case Some(d) => [d]) + Devices(pads, filter, rs[1..])
  }

  /** The devices of a buffer from `off` on. */
  function DevicesFrom(pads: nat, filter: string, b: seq<Byte>, off: nat): seq<Device> {
    Devices(pads, filter, Records(b, off))
  }

  lemma DevicesStep(pads: nat, filter: string, b: seq<Byte>, off: nat)
    ensures !WholeRecordAt(b, off) ==> DevicesFrom(pads, filter, b, off) == []
    ensures WholeRecordAt(b, off) ==>
              DevicesFrom(pads, filter, b, off) ==
              (match Announced(pads, filter, RecordAt(b, off)) case None => [] case Some(d) => [d])
              + DevicesFrom(pads, filter, b, NextOffset(b, off))
  {
    if WholeRecordAt(b, off) {
      assert Records(b, off)[1..] == Records(b, NextOffset(b, off));
    }
  }

  /** The devices of the reads still to come, each read parsed on its own. */
  function DevicesOfReads(pads: nat, filter: string, chunks: seq<seq<Byte>>): seq<Device> {
    if chunks == [] then []
    else DevicesFrom(pads, filter, chunks[0], 0) + DevicesOfReads(pads, filter, chunks[1..])
  }

  // ----- What the kernel writes, and that reading it inverts that

  /** Whose socket it was, or a name that is no pad's. */
  datatype Subject = PadSocket(node: Node) | Foreign(name: string)

  /**
   Something that happened in the watched directory: created, deleted or neither, with the record's
   other mask bits, watch descriptor and cookie, and the zero bytes its name is padded with.
   */
  datatype Happening = Happening(created: bool, deleted: bool, subject: Subject,
                                 other: nat, wd: seq<Byte>, cookie: seq<Byte>, padding: nat)

  function NameOf(subject: Subject): string
    requires subject.PadSocket? ==> HasDevnode(subject.node)
  {
    match subject
    case PadSocket(node) => SocketName(node)
    case Foreign(name) => name
  }

  predicate NameOk(name: string) {
    forall i | 0 <= i < |name| :: 0 < name[i] as int < 256
  }

  function MaskOf(h: Happening): nat {
    h.other + (if h.created then 0x100 else 0) + (if h.deleted then 0x200 else 0)
  }

  /** The other bits leave bits 8 and 9 free, the name ends in a zero byte, and all fits its fields. */
  ghost predicate Plausible(h: Happening) {
    && |h.wd| == 4 && |h.cookie| == 4 && h.padding > 0
    && h.other % 0x400 < 0x100 && MaskOf(h) < 0x1_0000_0000
    && (match h.subject
        case PadSocket(node) => HasDevnode(node)
        case Foreign(name) => NameOk(name) && forall node: Node | HasDevnode(node) :: SocketName(node) != name)
    && |NameOf(h.subject)| + h.padding < 0x1_0000_0000
  }

  function LittleEndian(n: nat): (b: seq<Byte>)
    requires n < 0x1_0000_0000
    ensures |b| == 4
  {
    [n % 0x100, n / 0x100 % 0x100, n / 0x1_0000 % 0x100, n / 0x100_0000]
  }

  function NameBytes(name: string): (b: seq<Byte>)
    requires NameOk(name)
    ensures |b| == |name|
  {
    seq(|name|, i requires 0 <= i < |name| => name[i] as int)
  }

  function Zeros(n: nat): (b: seq<Byte>)
    ensures |b| == n
  {
    seq(n, _ => 0)
  }

  lemma SocketNameOk(node: Node)
    requires HasDevnode(node)
    ensures NameOk(SocketName(node))
  {
    var number := Dec(Number(node));
    assert forall i | 0 <= i < |number| :: IsDigit(number[i]);
    assert SocketName(node) == "selkies_" + (((if node.kind.Js? then "js" else "event") + number) + ".sock");
  }

  lemma NameIsOk(h: Happening)
    requires Plausible(h)
    ensures NameOk(NameOf(h.subject))
  {
    if h.subject.PadSocket? {
      SocketNameOk(h.subject.node);
    }
  }

  function NameField(h: Happening): (b: seq<Byte>)
    requires Plausible(h)
    ensures |b| == |NameOf(h.subject)| + h.padding
  {
    NameIsOk(h);
    NameBytes(NameOf(h.subject)) + Zeros(h.padding)
  }

  /** One inotify record: watch descriptor, mask, cookie, name length, name. */
  function RecordBytes(h: Happening): (b: seq<Byte>)
    requires Plausible(h)
  {
    h.wd + (LittleEndian(MaskOf(h)) + (h.cookie + (LittleEndian(|NameField(h)|) + NameField(h))))
  }

  ghost predicate AllPlausible(hs: seq<Happening>) {
    forall k | 0 <= k < |hs| :: Plausible(hs[k])
  }

  /** The records the kernel hands over in one read. */
  function LaidOut(hs: seq<Happening>): seq<Byte>
    requires AllPlausible(hs)
  {
    if hs == [] then [] else RecordBytes(hs[0]) + LaidOut(hs[1..])
  }

  /** What a client should hear of: pads coming and going, with an input filter or none. */
  function Expected(pads: nat, filter: string, hs: seq<Happening>): seq<Device> {
    if hs == [] then [] else ExpectedOf(pads, filter, hs[0]) + Expected(pads, filter, hs[1..])
  }

  function ExpectedOf(pads: nat, filter: string, h: Happening): seq<Device> {
    if filter in ["", "input"] && h.subject.PadSocket? && h.subject.node.pad < pads && (h.created || h.deleted)
    then [Device(h.subject.node, if h.created then Add else Remove)] else []
  }

  lemma {:induction false} CStringReads(name: string, padding: nat)
    requires NameOk(name) && padding > 0
    ensures CString(NameBytes(name) + Zeros(padding)) == name
    decreases |name|
  {
    var b := NameBytes(name) + Zeros(padding);
    if name == "" {
      assert b[0] == Zeros(padding)[0] == 0;
    } else {
      assert b[0] == name[0] as int;
      assert b[1..] == NameBytes(name[1..]) + Zeros(padding);
      CStringReads(name[1..], padding);
      assert name == [name[0]] + name[1..];
    }
  }

  lemma Leading<T>(a: seq<T>, s: seq<T>, rest: seq<T>)
    ensures ((a + s) + rest)[..|a|] == a && ((a + s) + rest)[|a|..] == s + rest
  {
  }

  lemma FiveParts<T>(a: seq<T>, b: seq<T>, c: seq<T>, d: seq<T>, e: seq<T>, rest: seq<T>)
    requires |a| == |b| == |c| == |d| == 4
    ensures var s := (a + (b + (c + (d + e)))) + rest;
            && |s| == 16 + |e| + |rest| && s[4..8] == b && s[12..16] == d && s[16..16 + |e|] == e
            && s[16 + |e|..] == rest
  {
    var s := (a + (b + (c + (d + e)))) + rest;
    Leading(a, b + (c + (d + e)), rest);
    Leading(b, c + (d + e), rest);
    Leading(c, d + e, rest);
    Leading(d, e, rest);
    assert s[4..8] == s[4..][..4] && s[8..] == s[4..][4..];
    assert s[12..] == s[8..][4..] && s[12..16] == s[12..][..4] && s[16..] == s[12..][4..];
    assert s[16..] == e + rest && s[16..16 + |e|] == s[16..][..|e|] && s[16 + |e|..] == s[16..][|e|..];
  }

  lemma LittleEndianReads(b: seq<Byte>, i: nat, n: nat)
    requires n < 0x1_0000_0000 && i + 4 <= |b| && b[i..i + 4] == LittleEndian(n)
    ensures U32At(b, i) == n
  {
    var w := b[i..i + 4];
    assert w[0] == b[i] && w[1] == b[i + 1] && w[2] == b[i + 2] && w[3] == b[i + 3];
    var l := LittleEndian(n);
    assert b[i] == l[0] && b[i + 1] == l[1] && b[i + 2] == l[2] && b[i + 3] == l[3];
    FourDigits(n);
    assert U32At(b, i) == l[0] as int + l[1] as int * 0x100 + l[2] as int * 0x1_0000 + l[3] as int * 0x100_0000;
  }

  lemma FourDigits(n: nat)
    ensures n % 0x100 + n / 0x100 % 0x100 * 0x100 + n / 0x1_0000 % 0x100 * 0x1_0000 + n / 0x100_0000 * 0x100_0000 == n
  {
    var h := n / 0x100;
    var g := h / 0x100;
    assert n == h * 0x100 + n % 0x100 && h == g * 0x100 + h % 0x100 && g == g / 0x100 * 0x100 + g % 0x100;
    assert g == n / 0x1_0000 && g / 0x100 == n / 0x100_0000;
  }

  /** The first record of a read is read as what happened first. */
  lemma FirstRecord(h: Happening, rest: seq<Byte>)
    requires Plausible(h)
    ensures var b := RecordBytes(h) + rest;
            && WholeRecordAt(b, 0) && b[NextOffset(b, 0)..] == rest && NextOffset(b, 0) == |RecordBytes(h)|
            && RecordAt(b, 0) == Record(MaskOf(h), |NameField(h)|, NameOf(h.subject))
  {
    hide Plausible, LittleEndian, MaskOf, CString;
    FieldsFit(h);
    var mask, len := LittleEndian(MaskOf(h)), LittleEndian(|NameField(h)|);
    var b := RecordBytes(h) + rest;
    FiveParts(h.wd, mask, h.cookie, len, NameField(h), rest);
    LittleEndianReads(b, 4, MaskOf(h));
    LittleEndianReads(b, 12, |NameField(h)|);
    NameIsOk(h);
    CStringReads(NameOf(h.subject), h.padding);
  }

  lemma FieldsFit(h: Happening)
    requires Plausible(h)
    ensures |h.wd| == 4 && |h.cookie| == 4 && MaskOf(h) < 0x1_0000_0000 && h.padding > 0
    ensures 0 < |NameField(h)| < 0x1_0000_0000
    ensures h.subject.PadSocket? ==> HasDevnode(h.subject.node)
  {
  }

  lemma RecordShift(a: seq<Byte>, b: seq<Byte>, off: nat)
    ensures WholeRecordAt(a + b, |a| + off) == WholeRecordAt(b, off)
    ensures WholeRecordAt(b, off) ==>
              && RecordAt(a + b, |a| + off) == RecordAt(b, off)
              && NextOffset(a + b, |a| + off) == |a| + NextOffset(b, off)
              && off < NextOffset(b, off) <= |b|
  {
    hide CString;
    var s := a + b;
    if off + HEADER <= |b| {
      U32Shift(a, b, off + 4);
      U32Shift(a, b, off + 12);
      var len := U32At(b, off + 12);
      if off + HEADER + len <= |b| {
        SliceShift(a, b, off + HEADER, off + HEADER + len);
      }
    }
  }

  lemma U32Shift(a: seq<Byte>, b: seq<Byte>, i: nat)
    requires i + 4 <= |b|
    ensures U32At(a + b, |a| + i) == U32At(b, i)
  {
  }

  lemma SliceShift<T>(a: seq<T>, b: seq<T>, i: nat, j: nat)
    requires i <= j <= |b|
    ensures (a + b)[|a| + i..|a| + j] == b[i..j]
  {
  }

  lemma {:induction false} RecordsShift(a: seq<Byte>, b: seq<Byte>, off: nat)
    ensures Records(a + b, |a| + off) == Records(b, off)
    decreases |b| - off
  {
    hide WholeRecordAt, RecordAt, NextOffset;
    RecordShift(a, b, off);
    if WholeRecordAt(b, off) {
      RecordsShift(a, b, NextOffset(b, off));
    }
  }

  lemma QuotientIs(n: nat, d: nat, q: nat, r: nat)
    requires n == d * q + r && r < d
    ensures n / d == q
  {
    if n / d < q {
      MulLess(d, n / d + 1, q);
    } else if n / d > q {
      MulLess(d, q + 1, n / d);
    }
  }

  lemma MulLess(d: nat, a: nat, b: nat)
    requires a <= b
    ensures d * a <= d * b
  {
  }

  lemma TwoBits(q: nat, r: nat, c: nat, d: nat)
    requires r < 0x100 && c < 2 && d < 2
    ensures (0x400 * q + r + 0x100 * c + 0x200 * d) / 0x100 % 2 == c
    ensures (0x400 * q + r + 0x100 * c + 0x200 * d) / 0x200 % 2 == d
  {
    var m := 0x400 * q + r + 0x100 * c + 0x200 * d;
    QuotientIs(m, 0x100, 2 * (2 * q + d) + c, r);
    QuotientIs(m, 0x200, 2 * q + d, 0x100 * c + r);
    LowBit(2 * q + d, c);
    LowBit(q, d);
  }

  lemma LowBit(a: nat, b: nat)
    requires b < 2
    ensures (2 * a + b) % 2 == b
  {
  }

  lemma MaskBits(h: Happening)
    requires h.other % 0x400 < 0x100
    ensures Bit(MaskOf(h), IN_CREATE) == h.created && Bit(MaskOf(h), IN_DELETE) == h.deleted
  {
    var q, r := h.other / 0x400, h.other % 0x400;
    var c, d := if h.created then 1 else 0, if h.deleted then 1 else 0;
    Euclid(h.other);
    TwoBits(q, r, c, d);
    MaskIs(h, q, r, c, d);
  }

  lemma Euclid(n: nat)
    ensures n == 0x400 * (n / 0x400) + n % 0x400
  {
  }

  lemma MaskIs(h: Happening, q: nat, r: nat, c: nat, d: nat)
    requires h.other == 0x400 * q + r
    requires c == (if h.created then 1 else 0) && d == if h.deleted then 1 else 0
    ensures MaskOf(h) == 0x400 * q + r + 0x100 * c + 0x200 * d
  {
  }

  /** A record announces what a client should hear of it. */
  lemma AnnouncedIsExpected(pads: nat, filter: string, h: Happening)
    requires Plausible(h)
    ensures ExpectedOf(pads, filter, h)
         == match Announced(pads, filter, Record(MaskOf(h), |NameField(h)|, NameOf(h.subject)))
            case None => []
            case Some(d) => [d]
  {
    hide Bit, MaskOf, NameField, SocketName, NodeOfSocket;
    FieldsFit(h);
    MaskBits(h);
    var found := NodeOfSocket(pads, NameOf(h.subject));
    if h.subject.PadSocket? {
      if h.subject.node.pad < pads {
        NodeOfSocketInverts(pads, h.subject.node);
      } else if found.Some? {
        SocketNameInjective(found.value, h.subject.node);
      }
    }
  }

  /** Reading inverts writing: the records laid out announce exactly what happened, in order. */
  lemma {:induction false} ReadsWhatHappened(pads: nat, filter: string, hs: seq<Happening>)
    requires AllPlausible(hs)
    ensures DevicesFrom(pads, filter, LaidOut(hs), 0) == Expected(pads, filter, hs)
    decreases |hs|
  {
    hide Plausible, RecordBytes, Announced, Records, ExpectedOf, WholeRecordAt, RecordAt, NextOffset;
    DevicesStep(pads, filter, LaidOut(hs), 0);
    if hs == [] {
      NothingWhole();
    } else {
      assert Plausible(hs[0]);
      var first, rest := RecordBytes(hs[0]), LaidOut(hs[1..]);
      FirstRecord(hs[0], rest);
      AnnouncedIsExpected(pads, filter, hs[0]);
      RecordsShift(first, rest, 0);
      ReadsWhatHappened(pads, filter, hs[1..]);
    }
  }

  lemma NothingWhole()
    ensures !WholeRecordAt([], 0)
  {
  }

  function Reads(hss: seq<seq<Happening>>): seq<seq<Byte>>
    requires forall k | 0 <= k < |hss| :: AllPlausible(hss[k])
  {
    if hss == [] then [] else [LaidOut(hss[0])] + Reads(hss[1..])
  }

  lemma {:induction false} ExpectedAppend(pads: nat, filter: string, a: seq<Happening>, b: seq<Happening>)
    ensures Expected(pads, filter, a + b) == Expected(pads, filter, a) + Expected(pads, filter, b)
    decreases |a|
  {
    hide ExpectedOf;
    if a == [] {
      assert a + b == b;
    } else {
      assert (a + b)[0] == a[0] && (a + b)[1..] == a[1..] + b;
      ExpectedAppend(pads, filter, a[1..], b);
      Regroup(ExpectedOf(pads, filter, a[0]), Expected(pads, filter, a[1..]), Expected(pads, filter, b));
    }
  }

  lemma {:induction false} ReadsAllThatHappened(pads: nat, filter: string, hss: seq<seq<Happening>>)
    requires forall k | 0 <= k < |hss| :: AllPlausible(hss[k])
    ensures DevicesOfReads(pads, filter, Reads(hss)) == Expected(pads, filter, Flatten(hss))
    decreases |hss|
  {
    hide AllPlausible, LaidOut, DevicesFrom;
    if hss != [] {
      ReadsWhatHappened(pads, filter, hss[0]);
      ReadsAllThatHappened(pads, filter, hss[1..]);
      ExpectedAppend(pads, filter, hss[0], Flatten(hss[1..]));
      assert Reads(hss)[0] == LaidOut(hss[0]) && Reads(hss)[1..] == Reads(hss[1..]);
    }
  }

  lemma {:induction false} ReadsFit(hss: seq<seq<Happening>>, k: nat)
    requires forall j | 0 <= j < |hss| :: AllPlausible(hss[j])
    requires k < |hss|
    ensures |Reads(hss)| == |hss| && Reads(hss)[k] == LaidOut(hss[k])
    decreases |hss|
  {
    hide AllPlausible, LaidOut;
    if k > 0 {
      ReadsFit(hss[1..], k - 1);
    } else if |hss| > 1 {
      ReadsFit(hss[1..], 0);
    }
  }

  /** How the kernel answers eventfd operations other than "nothing to read". */
  datatype EventfdIo = Works | Fails

  const FILTER_ROOM: nat := 63

  function FilterAfter(filter: string, subsystem: Option<string>): string {
    if subsystem.None? then filter else subsystem.value[..Min(FILTER_ROOM, |subsystem.value|)]
  }

  class Monitor {
    const pads: nat
    const inotifyFd: int
    const evbufEfd: int
    var filterSubsystem: string
    const evbuf: array<Byte>
    var evbufLen: nat
    var evbufOff: nat
    var efdArmed: bool

    var efdCount: nat                 // the kernel's eventfd counter
    var chunks: seq<seq<Byte>>         // what read(inotify_fd) will return; [] is EAGAIN, EOF or an error

    ghost predicate Valid()
      reads this, evbuf
    {
      && evbuf.Length == EVBUF_SIZE
      && evbufOff <= evbufLen <= EVBUF_SIZE
      && (forall k :: 0 <= k < |chunks| ==> |chunks[k]| <= EVBUF_SIZE)
      && (efdArmed <==> efdCount > 0)
    }

    /** Devices the buffer still holds. */
    ghost function Buffered(): seq<Device>
      requires Valid()
      reads this, evbuf
    {
      DevicesFrom(pads, filterSubsystem, evbuf[..evbufLen], evbufOff)
    }

    /** Everything still to be dispensed, buffered or not yet read. */
    ghost function Remaining(): seq<Device>
      requires Valid()
      reads this, evbuf
    {
      Buffered() + DevicesOfReads(pads, filterSubsystem, chunks)
    }

    constructor (pads: nat, inotifyFd: int, evbufEfd: int, chunks: seq<seq<Byte>>)
      requires forall k :: 0 <= k < |chunks| ==> |chunks[k]| <= EVBUF_SIZE
      ensures Valid() && fresh(this) && fresh(evbuf)
      ensures Buffered() == [] && Remaining() == DevicesOfReads(pads, "", chunks)
      ensures this.pads == pads && filterSubsystem == "" && this.chunks == chunks
      ensures this.inotifyFd == inotifyFd && this.evbufEfd == evbufEfd && evbufLen == 0
    {
      this.pads, this.inotifyFd, this.evbufEfd := pads, inotifyFd, evbufEfd;
      filterSubsystem, evbufLen, evbufOff, efdArmed, efdCount := "", 0, 0, false, 0;
      this.chunks := chunks;
      evbuf := new Byte[EVBUF_SIZE];
    }

    /** udev_monitor_filter_add_match_subsystem_devtype; the name is kept in a fixed buffer. */
    method FilterAddMatchSubsystem(subsystem: Option<string>)
      requires Valid()
      modifies this`filterSubsystem
      ensures Valid() && filterSubsystem == FilterAfter(old(filterSubsystem), subsystem)
    {
      if subsystem.Some? {
        filterSubsystem := subsystem.value[..Min(FILTER_ROOM, |subsystem.value|)];
      }
    }

    method LoadU32(i: nat) returns (v: nat)
      requires Valid() && i + 4 <= evbufLen
      ensures v == U32At(evbuf[..evbufLen], i)
    {
      v := evbuf[i] as int + evbuf[i + 1] as int * 0x100
        + evbuf[i + 2] as int * 0x1_0000 + evbuf[i + 3] as int * 0x100_0000;
    }

    /** The record at `off`, or None when what is left is too short to be one. */
    method LoadRecord(off: nat) returns (r: Option<(Record, nat)>)
      requires Valid()
      ensures r == if WholeRecordAt(evbuf[..evbufLen], off)
                   then Some((RecordAt(evbuf[..evbufLen], off), NextOffset(evbuf[..evbufLen], off))) else None
    {
      if off + HEADER > evbufLen {
        return None;
      }
      var len := LoadU32(off + 12);
      if off + HEADER + len > evbufLen {
        return None;
      }
      var mask := LoadU32(off + 4);
      assert evbuf[..evbufLen][off + HEADER..off + HEADER + len] == evbuf[off + HEADER..off + HEADER + len];
      return Some((Record(mask, len, CString(evbuf[off + HEADER..off + HEADER + len])), off + HEADER + len));
    }

    /** evbuf_has_matching_record: the scan-ahead agrees with what dispensing would yield. */
    method HasMatchingRecord() returns (found: bool)
      requires Valid()
      ensures found <==> Buffered() != []
    {
      var off := evbufOff;
      while true
        invariant DevicesFrom(pads, filterSubsystem, evbuf[..evbufLen], off) == Buffered()
        decreases evbufLen - off
      {
        DevicesStep(pads, filterSubsystem, evbuf[..evbufLen], off);
        var rec := LoadRecord(off);
        if rec.None? {
          return false;
        }
        off := rec.value.1;
        var r := rec.value.0;
        if !(Bit(r.mask, IN_CREATE) || Bit(r.mask, IN_DELETE)) || r.len == 0 {
          continue;
        }
        var node := FindBySocketName(pads, r.name);
        if node.None? {
          continue;
        }
        if filterSubsystem != "" && filterSubsystem != "input" {
          continue;
        }
        return true;
      }
    }

    /** monitor_sync_readable: arm or drain the eventfd to match the buffer. */
    method SyncReadable(io: EventfdIo)
      requires Valid()
      modifies this`efdArmed, this`efdCount
      ensures Valid()
      ensures evbufEfd >= 0 && io == Works ==> (efdArmed <==> Buffered() != [])
      ensures evbufEfd < 0 ==> efdArmed == old(efdArmed)
    {
      if evbufEfd < 0 {
        return;
      }
      var want := HasMatchingRecord();
      if want && !efdArmed {
        if io == Works {
          efdCount := efdCount + 1;
          efdArmed := true;
        }
      } else if !want && efdArmed {
        // reading a zero counter is EAGAIN, which also counts as drained
        if io == Works || efdCount == 0 {
          efdCount := 0;
          efdArmed := false;
        }
      }
    }

    /** One read of the inotify fd into the buffer; false when nothing came. */
    method Refill() returns (got: bool)
      requires Valid() && Buffered() == []
      modifies this`chunks, this`evbufLen, this`evbufOff, evbuf
      ensures Valid() && Remaining() == old(Remaining())
      ensures !got ==> Buffered() == [] && |chunks| <= |old(chunks)| && (old(chunks) != [] ==> |chunks| < |old(chunks)|)
      ensures got ==> |chunks| < |old(chunks)| && evbufOff == 0
    {
      if chunks == [] {
        return false;
      }
      var chunk := chunks[0];
      chunks := chunks[1..];
      if chunk == [] {
        assert DevicesFrom(pads, filterSubsystem, chunk, 0) == [];
        return false;
      }
      forall k | 0 <= k < |chunk| {
        evbuf[k] := chunk[k];
      }
      evbufLen, evbufOff := |chunk|, 0;
      assert evbuf[..evbufLen] == chunk;
      return true;
    }

    /**
     monitor_dispense_device: the next announced device, oldest first. A device comes out without
     a read exactly when the buffer holds one; nothing is skipped, repeated or reordered.
     */
    method Dispense() returns (d: Option<Device>)
      requires Valid()
      modifies this`chunks, this`evbufLen, this`evbufOff, evbuf
      ensures Valid()
      ensures d.Some? ==> old(Remaining()) == [d.value] + Remaining()
      ensures d.None? ==> Remaining() == old(Remaining()) && Buffered() == []
      ensures |chunks| <= |old(chunks)| && (d.None? && old(chunks) != [] ==> |chunks| < |old(chunks)|)
      ensures (d.Some? && chunks == old(chunks)) <==> old(Buffered()) != []
    {
      while true
        invariant Valid() && Remaining() == old(Remaining())
        invariant chunks == old(chunks) ==> Buffered() == old(Buffered())
        invariant chunks != old(chunks) ==> |chunks| < |old(chunks)| && old(Buffered()) == []
        decreases |chunks|, evbufLen - evbufOff
      {
        if evbufOff + HEADER > evbufLen {
          DevicesStep(pads, filterSubsystem, evbuf[..evbufLen], evbufOff);
          var got := Refill();
          if !got {
            return None;
          }
          if evbufOff + HEADER > evbufLen {
            DevicesStep(pads, filterSubsystem, evbuf[..evbufLen], evbufOff);
            return None;
          }
        }
        d := TakeRecord();
        if d.Some? {
          return d;
        }
      }
    }

    /** Consume one buffered record, or the trailing partial one; the device it announces, if any. */
    method TakeRecord() returns (d: Option<Device>)
      requires Valid() && evbufOff + HEADER <= evbufLen
      modifies this`evbufOff
      ensures Valid() && old(evbufOff) < evbufOff
      ensures d.Some? ==> old(Buffered()) == [d.value] + Buffered() && old(Remaining()) == [d.value] + Remaining()
      ensures d.None? ==> Buffered() == old(Buffered()) && Remaining() == old(Remaining())
    {
      ghost var b := evbuf[..evbufLen];
      DevicesStep(pads, filterSubsystem, b, evbufOff);
      var rec := LoadRecord(evbufOff);
      if rec.None? {
        evbufOff := evbufLen; // drop the trailing partial record, force a refill
        DevicesStep(pads, filterSubsystem, b, evbufOff);
        return None;
      }
      evbufOff := rec.value.1;
      d := DeviceFor(rec.value.0);
      if d.Some? {
        Regroup([d.value], Buffered(), DevicesOfReads(pads, filterSubsystem, chunks));
      }
    }

    /** The part of the dispensing loop that turns one record into a device, or skips it. */
    method DeviceFor(r: Record) returns (d: Option<Device>)
      ensures d == Announced(pads, filterSubsystem, r)
    {
      var action := if Bit(r.mask, IN_CREATE) then Some(Add) else if Bit(r.mask, IN_DELETE) then Some(Remove) else None;
      if action.None? || r.len == 0 {
        return None;
      }
      var node := FindBySocketName(pads, r.name);
      if node.None? {
        return None;
      }
      var found := FindBySyspath(pads, Syspath(node.value));
      if found.None? {
        return None;
      }
      if filterSubsystem != "" && filterSubsystem != "input" {
        return None;
      }
      return Some(Device(found.value, action.value));
    }

    /** udev_monitor_receive_device: dispense, then make the eventfd tell the truth about the rest. */
    method Receive(io: EventfdIo) returns (d: Option<Device>)
      requires Valid()
      modifies this`chunks, this`evbufLen, this`evbufOff, this`efdArmed, this`efdCount, evbuf
      ensures Valid()
      ensures inotifyFd < 0 ==> d.None? && Remaining() == old(Remaining())
      ensures d.Some? ==> old(Remaining()) == [d.value] + Remaining()
      ensures d.None? ==> Remaining() == old(Remaining())
      ensures |chunks| <= |old(chunks)|
      ensures inotifyFd >= 0 && d.None? ==> Buffered() == [] && (old(chunks) != [] ==> |chunks| < |old(chunks)|)
      ensures inotifyFd >= 0 && evbufEfd >= 0 && io == Works ==> (efdCount > 0 <==> Buffered() != [])
    {
      if inotifyFd < 0 {
        return None;
      }
      d := Dispense();
      SyncReadable(io);
    }

    /**
     Receiving until nothing is left: over any chunking of the kernel's chunks, the devices
     received are exactly the announcements in the whole records read, in order, each once.
     */
    method ReceiveAll(io: EventfdIo) returns (ds: seq<Device>)
      requires Valid() && inotifyFd >= 0
      modifies this`chunks, this`evbufLen, this`evbufOff, this`efdArmed, this`efdCount, evbuf
      ensures Valid() && Remaining() == []
      ensures ds == old(Remaining())
      ensures evbufEfd >= 0 && io == Works ==> efdCount == 0
    {
      ds := [];
      while true
        invariant Valid()
        invariant ds + Remaining() == old(Remaining())
        decreases |Remaining()| + |chunks|
      {
        ghost var before := ds;
        var d := Receive(io);
        if d.None? {
          if chunks == [] {
            return;
          }
        } else {
          ds := ds + [d.value];
          Regroup(before, [d.value], Remaining());
        }
      }
    }
  }

  /**
   A monitor's whole life: set up, perhaps filtered, and read until nothing is left. However what
   happened is spread over the kernel's reads, the client receives exactly the pads' nodes with Add
   for each one created and Remove for each one deleted, in order, each once.
   */
  method WatchPads(pads: nat, inotifyFd: nat, evbufEfd: int, hss: seq<seq<Happening>>,
                   subsystem: Option<string>, io: EventfdIo)
    returns (ds: seq<Device>)
    requires forall k | 0 <= k < |hss| :: AllPlausible(hss[k]) && |LaidOut(hss[k])| <= EVBUF_SIZE
    ensures ds == Expected(pads, FilterAfter("", subsystem), Flatten(hss))
  {
    hide AllPlausible, LaidOut, DevicesFrom;
    forall k | 0 <= k < |Reads(hss)| ensures |Reads(hss)[k]| <= EVBUF_SIZE {
      ReadsLength(hss);
      ReadsFit(hss, k);
    }
    var m := new Monitor(pads, inotifyFd, evbufEfd, Reads(hss));
    NothingBuffered(m);
    m.FilterAddMatchSubsystem(subsystem);
    NothingBuffered(m);
    ReadsAllThatHappened(pads, m.filterSubsystem, hss);
    ds := m.ReceiveAll(io);
  }

  lemma {:induction false} ReadsLength(hss: seq<seq<Happening>>)
    requires forall j | 0 <= j < |hss| :: AllPlausible(hss[j])
    ensures |Reads(hss)| == |hss|
  {
    if hss != [] {
      ReadsLength(hss[1..]);
    }
  }

  lemma NothingBuffered(m: Monitor)
    requires m.Valid() && m.evbufLen == 0
    ensures m.Remaining() == DevicesOfReads(m.pads, m.filterSubsystem, m.chunks)
  {
    DevicesStep(m.pads, m.filterSubsystem, m.evbuf[..0], m.evbufOff);
  }
}
