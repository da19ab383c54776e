/**
 The virtual gamepads' printed names: syspaths, device nodes and socket names, the table
 lookups keyed by them, and the device numbers the interposer forges from them.
 Any number of pads is allowed, where the source has four.
 */
module DeviceNames {
  import opened Wrappers
  import opened Decimal

  const INT_MAX: int := 0x7FFF_FFFF
  const EVENT_BASE: nat := 1000

  datatype NodeType = Js | Event | InputParent | UsbParent

  /** One node of a virtual gamepad. */
  datatype Node = Node(pad: nat, kind: NodeType)

  function InputParentPath(i: nat): string {
    "/sys/devices/virtual/selkies_pad" + Dec(i) + "/input/input" + Dec(i + 10)
  }

  function Sysname(node: Node): string {
    match node.kind
    case Js => "js" + Dec(node.pad)
    case Event => "event" + Dec(EVENT_BASE + node.pad)
    case InputParent => "selkies_pad" + Dec(node.pad)
    case UsbParent => "selkies_usb_ctrl" + Dec(node.pad) + "_dev"
  }

  function Syspath(node: Node): string {
    match node.kind
    case Js => InputParentPath(node.pad) + "/" + Sysname(node)
    case Event => InputParentPath(node.pad) + "/" + Sysname(node)
    case InputParent => InputParentPath(node.pad)
    case UsbParent => "/sys/devices/virtual/usb/" + Sysname(node)
  }

  predicate HasDevnode(node: Node) {
    node.kind.Js? || node.kind.Event?
  }

  function Devnode(node: Node): string
    requires HasDevnode(node)
  {
    "/dev/input/" + Sysname(node)
  }

  function SocketName(node: Node): string
    requires HasDevnode(node)
  {
    "selkies_" + (Sysname(node) + ".sock")
  }

  // ----- No two nodes share a name

  /** What follows the pad number in the syspaths below "selkies_pad". */
  function Below(node: Node): (s: string)
    requires !node.kind.UsbParent?
    ensures StopsDigits(s)
  {
    "/input/input" + Dec(node.pad + 10) + if node.kind.InputParent? then "" else "/" + Sysname(node)
  }

  lemma SyspathParts(node: Node)
    requires !node.kind.UsbParent?
    ensures Syspath(node) == "/sys/devices/virtual/selkies_pad" + (Dec(node.pad) + Below(node))
  {
  }

  lemma UsbPathParts(node: Node)
    requires node.kind.UsbParent?
    ensures Syspath(node) == "/sys/devices/virtual/usb/selkies_usb_ctrl" + (Dec(node.pad) + "_dev")
  {
  }

  lemma PrefixCancels(p: string, a: string, b: string)
    requires p + a == p + b
    ensures a == b
  {
    assert (p + a)[|p|..] == a && (p + b)[|p|..] == b;
  }

  lemma SamePadSameKind(a: Node, b: Node)
    requires a.pad == b.pad && !a.kind.UsbParent? && !b.kind.UsbParent? && Below(a) == Below(b)
    ensures a.kind == b.kind
  {
    var p := "/input/input" + Dec(a.pad + 10);
    var x := if a.kind.InputParent? then "" else "/" + Sysname(a);
    var y := if b.kind.InputParent? then "" else "/" + Sysname(b);
    PrefixCancels(p, x, y);
    if x != "" {
      assert x[1] == Sysname(a)[0] && y[1] == Sysname(b)[0];
    }
  }

  lemma UsbPathDiffers(usb: Node, other: Node)
    requires usb.kind.UsbParent? && !other.kind.UsbParent?
    ensures Syspath(usb) != Syspath(other)
  {
    UsbPathParts(usb);
    SyspathParts(other);
    assert Syspath(usb)[21] == 'u' && Syspath(other)[21] == 's';
  }

  /** All printed syspaths are pairwise distinct, over any number of pads. */
  lemma SyspathInjective(a: Node, b: Node)
    requires Syspath(a) == Syspath(b)
    ensures a == b
  {
    if a.kind.UsbParent? && b.kind.UsbParent? {
      UsbPathParts(a);
      UsbPathParts(b);
      PrefixCancels("/sys/devices/virtual/usb/selkies_usb_ctrl", Dec(a.pad) + "_dev", Dec(b.pad) + "_dev");
      DigitRunUnique(Dec(a.pad), "_dev", Dec(b.pad), "_dev");
      DecInjective(a.pad, b.pad);
    } else if a.kind.UsbParent? || b.kind.UsbParent? {
      var usb, other := if a.kind.UsbParent? then a else b, if a.kind.UsbParent? then b else a;
      UsbPathDiffers(usb, other);
    } else {
      SyspathParts(a);
      SyspathParts(b);
      PrefixCancels("/sys/devices/virtual/selkies_pad", Dec(a.pad) + Below(a), Dec(b.pad) + Below(b));
      DigitRunUnique(Dec(a.pad), Below(a), Dec(b.pad), Below(b));
      DecInjective(a.pad, b.pad);
      SamePadSameKind(a, b);
    }
  }

  /** Socket names are distinct too. */
  lemma SocketNameInjective(a: Node, b: Node)
    requires HasDevnode(a) && HasDevnode(b) && SocketName(a) == SocketName(b)
    ensures a == b
  {
    PrefixCancels("selkies_", Sysname(a) + ".sock", Sysname(b) + ".sock");
    assert (Sysname(a) + ".sock")[0] == (if a.kind.Js? then 'j' else 'e');
    assert (Sysname(b) + ".sock")[0] == (if b.kind.Js? then 'j' else 'e');
    var p := if a.kind.Js? then "js" else "event";
    NumberedUnique(p, Number(a), Number(b));
  }

  function Number(node: Node): nat {
    if node.kind.Event? then EVENT_BASE + node.pad else node.pad
  }

  lemma NumberedUnique(p: string, x: nat, y: nat)
    requires (p + Dec(x)) + ".sock" == (p + Dec(y)) + ".sock"
    ensures x == y
  {
    Regroup(p, Dec(x), ".sock");
    Regroup(p, Dec(y), ".sock");
    PrefixCancels(p, Dec(x) + ".sock", Dec(y) + ".sock");
    DigitRunUnique(Dec(x), ".sock", Dec(y), ".sock");
    DecInjective(x, y);
  }

  /** With int-sized event numbers no name is cut by the fixed buffers it is printed into. */
  lemma NothingIsTruncated(node: Node)
    requires EVENT_BASE + node.pad <= INT_MAX
    ensures |Syspath(node)| < 256 && |Sysname(node)| < 64
    ensures HasDevnode(node) ==> |Devnode(node)| < 64 && |SocketName(node)| < 96
  {
    assert Pow10(10) == 100_0000_0000 by {
      assert Pow10(5) == 10_0000;
      assert Pow10(10) == 10 * (10 * (10 * (10 * (10 * Pow10(5)))));
    }
    DecLength(node.pad, 10);
    DecLength(node.pad + 10, 10);
    DecLength(EVENT_BASE + node.pad, 10);
  }

  // ----- The lookups

  /** find_virtual_def_by_syspath over n pads: it inverts the printing of every node. */
  method FindBySyspath(n: nat, syspath: string) returns (r: Option<Node>)
    ensures r.Some? ==> r.value.pad < n && Syspath(r.value) == syspath
    ensures r.None? ==> forall node: Node :: node.pad < n ==> Syspath(node) != syspath
    ensures forall node: Node :: node.pad < n && Syspath(node) == syspath ==> r == Some(node)
  {
    hide Syspath;
    var i := 0;
    while i < n
      invariant 0 <= i <= n
      invariant forall node: Node :: node.pad < i ==> Syspath(node) != syspath
    {
      var kinds := [Js, Event, InputParent, UsbParent];
      var k := 0;
      while k < 4
        invariant 0 <= k <= 4
        invariant forall j :: 0 <= j < k ==> Syspath(Node(i, kinds[j])) != syspath
      {
        if Syspath(Node(i, kinds[k])) == syspath {
          forall node: Node | node.pad < n && Syspath(node) == syspath ensures node == Node(i, kinds[k]) {
            SyspathInjective(node, Node(i, kinds[k]));
          }
          return Some(Node(i, kinds[k]));
        }
        k := k + 1;
      }
      forall node: Node | node.pad == i ensures Syspath(node) != syspath {
        assert exists j :: 0 <= j < 4 && kinds[j] == node.kind by {
          assert kinds[0] == Js && kinds[1] == Event && kinds[2] == InputParent && kinds[3] == UsbParent;
        }
      }
      i := i + 1;
    }
    return None;
  }

  /** The node a socket name stands for among the first n pads. */
  function NodeOfSocket(n: nat, name: string): (r: Option<Node>)
    ensures r.Some? ==> r.value.pad < n && HasDevnode(r.value) && SocketName(r.value) == name
  {
    if n == 0 then None
    else if SocketName(Node(n - 1, Js)) == name then Some(Node(n - 1, Js))
    else if SocketName(Node(n - 1, Event)) == name then Some(Node(n - 1, Event))
    else NodeOfSocket(n - 1, name)
  }

  lemma {:induction false} NoNodeOfSocket(n: nat, name: string, node: Node)
    requires NodeOfSocket(n, name).None? && node.pad < n && HasDevnode(node)
    ensures SocketName(node) != name
  {
    hide SocketName;
    if node.pad < n - 1 {
      NoNodeOfSocket(n - 1, name, node);
    }
  }

  lemma NodeOfSocketInverts(n: nat, node: Node)
    requires node.pad < n && HasDevnode(node)
    ensures NodeOfSocket(n, SocketName(node)) == Some(node)
  {
    hide SocketName;
    if NodeOfSocket(n, SocketName(node)).None? {
      NoNodeOfSocket(n, SocketName(node), node);
    }
    var r := NodeOfSocket(n, SocketName(node));
    SocketNameInjective(r.value, node);
  }

  /** find_node_by_socket_name: scans upward and finds the same node. */
  method FindBySocketName(n: nat, name: string) returns (r: Option<Node>)
    ensures r == NodeOfSocket(n, name)
  {
    hide SocketName;
    var i := 0;
    while i < n
      invariant 0 <= i <= n
      invariant forall node: Node :: node.pad < i && HasDevnode(node) ==> SocketName(node) != name
    {
      if SocketName(Node(i, Js)) == name {
        NodeOfSocketInverts(n, Node(i, Js));
        return Some(Node(i, Js));
      }
      if SocketName(Node(i, Event)) == name {
        NodeOfSocketInverts(n, Node(i, Event));
        return Some(Node(i, Event));
      }
      i := i + 1;
    }
    return None;
  }

  // ----- Parents

  /** udev_device_get_parent: the parent's syspath is looked up again and must have the expected type. */
  method GetParent(n: nat, node: Node) returns (r: Option<Node>)
    requires node.pad < n
    ensures r == match node.kind
                 case Js => Some(Node(node.pad, InputParent))
                 case Event => Some(Node(node.pad, InputParent))
                 case InputParent => Some(Node(node.pad, UsbParent))
                 case UsbParent => None
  {
    if node.kind.UsbParent? {
      return None;
    }
    var expected := if node.kind.InputParent? then UsbParent else InputParent;
    var found := FindBySyspath(n, Syspath(Node(node.pad, expected)));
    if found.Some? && found.value.kind == expected {
      return found;
    }
    return None;
  }

  /** Every node reaches its pad's USB node in at most two parent steps, which has no parent. */
  method ReachUsb(n: nat, node: Node) returns (steps: nat, top: Node)
    requires node.pad < n
    ensures steps <= 2 && top == Node(node.pad, UsbParent)
    ensures steps == 0 <==> node.kind.UsbParent?
  {
    steps, top := 0, node;
    var next := GetParent(n, node);
    while next.Some?
      invariant top.pad == node.pad && steps <= 2
      invariant next == match top.kind
                        case Js => Some(Node(top.pad, InputParent))
                        case Event => Some(Node(top.pad, InputParent))
                        case InputParent => Some(Node(top.pad, UsbParent))
                        case UsbParent => None
      invariant top.kind.InputParent? ==> steps <= 1
      invariant HasDevnode(top) ==> steps == 0
      invariant steps == 0 ==> top == node
      invariant steps > 0 ==> !node.kind.UsbParent?
      decreases 2 - steps
    {
      top := next.value;
      next := GetParent(n, top);
      steps := steps + 1;
    }
  }

  // ----- Forged device numbers

  /** The number a path ends in after `prefix`, or -1. */
  function IndexAfter(path: string, prefix: string): int {
    if prefix <= path && |prefix| < |path| && AllDigits(path[|prefix|..]) && Value(path[|prefix|..]) <= INT_MAX
    then Value(path[|prefix|..]) else -1
  }

  /** dev_index_after, with the overflow test made before each multiplication. */
  method DevIndexAfter(path: string, prefix: string) returns (index: int)
    ensures index == IndexAfter(path, prefix)
    ensures -1 <= index <= INT_MAX
  {
    if !(prefix <= path) {
      return -1;
    }
    var digits := path[|prefix|..];
    if digits == "" {
      return -1;
    }
    index := 0;
    var c := 0;
    while c < |digits|
      invariant 0 <= c <= |digits|
      invariant AllDigits(digits[..c]) && index == Value(digits[..c]) && 0 <= index <= INT_MAX
    {
      if !IsDigit(digits[c]) {
        return -1;
      }
      assert digits[..c + 1][..c] == digits[..c];
      if index > (INT_MAX - DigitValue(digits[c])) / 10 {
        if AllDigits(digits) {
          ValuePrefix(digits, c + 1);
        }
        return -1;
      }
      index := index * 10 + DigitValue(digits[c]);
      c := c + 1;
    }
    assert digits[..|digits|] == digits;
  }

  /** Printing a number after the prefix and reading it back gives the number, up to INT_MAX. */
  lemma IndexAfterInverts(prefix: string, n: nat)
    ensures IndexAfter(prefix + Dec(n), prefix) == if n <= INT_MAX then n else -1
  {
    assert (prefix + Dec(n))[|prefix|..] == Dec(n);
    assert prefix <= prefix + Dec(n);
    ValueOfDec(n);
  }

  function Zeros(k: nat): string {
    if k == 0 then "" else Zeros(k - 1) + "0"
  }

  /** Every run of digits is a number printed, perhaps after zeros. */
  lemma {:induction false} DigitsAreANumber(d: string) returns (k: nat)
    requires AllDigits(d) && d != ""
    ensures d == Zeros(k) + Dec(Value(d))
    decreases |d|
  {
    var n := |d| - 1;
    DigitOf(d[n]);
    if n == 0 {
      k := 0;
      assert d[..0] == "";
      assert d == [d[0]] == Dec(Value(d));
    } else {
      var before := DigitsAreANumber(d[..n]);
      var v := Value(d[..n]);
      assert d == d[..n] + [d[n]];
      if v == 0 {
        k := before + 1;
        assert Dec(0) == "0" && d[..n] == Zeros(k);
      } else {
        k := before;
        assert Dec(Value(d)) == Dec(v) + [d[n]];
        Regroup(Zeros(k), Dec(v), [d[n]]);
      }
    }
  }

  lemma DigitOf(c: char)
    requires IsDigit(c)
    ensures Digit(DigitValue(c)) == c
  {
  }

  lemma {:induction false} ZerosAddNothing(k: nat, n: nat)
    ensures AllDigits(Zeros(k)) && AllDigits(Zeros(k) + Dec(n)) && Value(Zeros(k) + Dec(n)) == n
    decreases k, n
  {
    AllZeros(k);
    var d := Zeros(k) + Dec(n);
    if n < 10 {
      assert d[..|d| - 1] == Zeros(k);
    } else {
      ZerosAddNothing(k, n / 10);
      assert d[..|d| - 1] == Zeros(k) + Dec(n / 10);
    }
  }

  lemma {:induction false} AllZeros(k: nat)
    ensures AllDigits(Zeros(k)) && Value(Zeros(k)) == 0
  {
    if k > 0 {
      AllZeros(k - 1);
      assert Zeros(k)[..|Zeros(k)| - 1] == Zeros(k - 1);
    }
  }

  /** A path has an index exactly if it is the prefix, zeros if any, and a number up to INT_MAX. */
  lemma IndexAfterExactly(path: string, prefix: string, n: nat)
    ensures IndexAfter(path, prefix) == n <==>
            n <= INT_MAX && exists k: nat :: path == prefix + (Zeros(k) + Dec(n))
  {
    if IndexAfter(path, prefix) == n {
      var k := DigitsAreANumber(path[|prefix|..]);
      assert path == prefix + path[|prefix|..];
    }
    if n <= INT_MAX && exists k: nat :: path == prefix + (Zeros(k) + Dec(n)) {
      var k: nat :| path == prefix + (Zeros(k) + Dec(n));
      ZerosAddNothing(k, n);
      assert path[|prefix|..] == Zeros(k) + Dec(n);
    }
  }

  /** The minor number forged into st_rdev for a path. */
  function ForgedMinor(path: string): int {
    var event := IndexAfter(path, "/dev/input/event");
    var n := if event < 0 then IndexAfter(path, "/dev/input/js") else event;
    if n < 0 then 9999 else n
  }

  lemma ForgedMinorOfNode(node: Node)
    requires HasDevnode(node) && EVENT_BASE + node.pad <= INT_MAX
    ensures ForgedMinor(Devnode(node)) == if node.kind.Js? then node.pad else EVENT_BASE + node.pad
  {
    if node.kind.Js? {
      assert Devnode(node) == "/dev/input/js" + Dec(node.pad);
      assert Devnode(node)[11] == 'j';
      IndexAfterInverts("/dev/input/js", node.pad);
    } else {
      assert Devnode(node) == "/dev/input/event" + Dec(EVENT_BASE + node.pad);
      IndexAfterInverts("/dev/input/event", EVENT_BASE + node.pad);
    }
  }

  /** Any path that starts like neither kind of node shares one number. */
  lemma OtherMinor(path: string)
    requires !("/dev/input/event" <= path) && !("/dev/input/js" <= path)
    ensures ForgedMinor(path) == 9999
  {
  }

  ghost predicate MinorsDistinct(n: nat) {
    forall a: Node, b: Node | a.pad < n && b.pad < n && HasDevnode(a) && HasDevnode(b) ::
      ForgedMinor(Devnode(a)) == ForgedMinor(Devnode(b)) ==> a == b
  }

  /** The forged numbers of all device nodes differ exactly as long as there are at most 1000 pads. */
  lemma MinorsDistinctUpTo1000(n: nat)
    requires EVENT_BASE + n <= INT_MAX
    ensures MinorsDistinct(n) <==> n <= EVENT_BASE
  {
    if n <= EVENT_BASE {
      forall a: Node, b: Node | a.pad < n && b.pad < n && HasDevnode(a) && HasDevnode(b)
        && ForgedMinor(Devnode(a)) == ForgedMinor(Devnode(b)) ensures a == b
      {
        ForgedMinorOfNode(a);
        ForgedMinorOfNode(b);
      }
    } else {
      var a, b := Node(EVENT_BASE, Js), Node(0, Event);
      ForgedMinorOfNode(a);
      ForgedMinorOfNode(b);
    }
  }

  // ----- Agreement with the interposer's fixed tables

  /** The interposer's compiled-in device paths, slot by slot. */
  const DEVICE_PATHS: seq<string> := [
    "/dev/input/js0", "/dev/input/js1", "/dev/input/js2", "/dev/input/js3",
    "/dev/input/event1000", "/dev/input/event1001", "/dev/input/event1002", "/dev/input/event1003"]

  /** And the basenames of the sockets it connects to. */
  const SOCKETS: seq<string> := [
    "selkies_js0.sock", "selkies_js1.sock", "selkies_js2.sock", "selkies_js3.sock",
    "selkies_event1000.sock", "selkies_event1001.sock", "selkies_event1002.sock", "selkies_event1003.sock"]

  function SlotNode(i: nat): Node {
    if i < 4 then Node(i, Js) else Node(i - 4, Event)
  }

  lemma DecSmall(i: nat)
    requires i < 4
    ensures Dec(i) == [['0', '1', '2', '3'][i]]
    ensures Dec(EVENT_BASE + i) == ['1', '0', '0', ['0', '1', '2', '3'][i]]
  {
    assert Dec(1) == "1" && Dec(10) == Dec(1) + "0" == "10" && Dec(100) == Dec(10) + "0" == "100";
    assert (EVENT_BASE + i) / 10 == 100 && (EVENT_BASE + i) % 10 == i;
    assert Dec(EVENT_BASE + i) == Dec(100) + [Digit(i)] && Dec(i) == [Digit(i)];
    assert Digit(i) == ['0', '1', '2', '3'][i];
  }

  lemma DecTens(i: nat)
    requires i < 4
    ensures Dec(i + 10) == ['1', ['0', '1', '2', '3'][i]]
  {
    DecSmall(i);
    assert Dec(1) == "1" && (i + 10) / 10 == 1 && (i + 10) % 10 == i;
    assert Digit(i) == ['0', '1', '2', '3'][i];
  }

  /** The sysfs paths of the source's four pads. */
  lemma PadPaths(i: nat)
    requires i < 4
    ensures var (d, pad) := (['0', '1', '2', '3'][i], "/sys/devices/virtual/selkies_pad");
            && Syspath(Node(i, InputParent)) == pad + ([d] + "/input/input1" + [d])
            && Syspath(Node(i, Js)) == Syspath(Node(i, InputParent)) + "/" + ("js" + [d])
            && Syspath(Node(i, Event)) == Syspath(Node(i, InputParent)) + "/" + ("event100" + [d])
            && Syspath(Node(i, UsbParent)) == "/sys/devices/virtual/usb/" + ("selkies_usb_ctrl" + [d] + "_dev")
  {
    hide Dec;
    DecSmall(i);
    DecTens(i);
    var d := ['0', '1', '2', '3'][i];
    assert Dec(i) == [d] && Dec(i + 10) == "1" + [d] && Dec(EVENT_BASE + i) == "100" + [d];
    assert Syspath(Node(i, InputParent)) == "/sys/devices/virtual/selkies_pad" + [d] + "/input/input" + ("1" + [d]);
    assert Sysname(Node(i, Event)) == "event" + ("100" + [d]) == "event100" + [d];
  }

  lemma DevicePathOfSlot(i: nat)
    requires i < 8
    ensures DEVICE_PATHS[i] == Devnode(SlotNode(i))
  {
    hide Dec;
    DecSmall(if i < 4 then i else i - 4);
  }

  lemma JsSocket(i: nat)
    requires i < 4
    ensures SOCKETS[i] == SocketName(Node(i, Js))
  {
    hide Dec;
    DecSmall(i);
  }

  lemma EventSocket(i: nat)
    requires i < 4
    ensures SOCKETS[4 + i] == SocketName(Node(i, Event))
  {
    hide Dec;
    DecSmall(i);
  }

  lemma SocketOfSlot(i: nat)
    requires i < 8
    ensures SOCKETS[i] == SocketName(SlotNode(i))
  {
    hide Dec, SocketName;
    if i < 4 {
      JsSocket(i);
    } else {
      EventSocket(i - 4);
    }
  }

  /**
   The interposer library and the fake udev library, which share no code, agree: every slot's
   device path is that node's devnode, and its socket is the one the monitor maps to that node.
   */
  lemma LibrariesAgree(i: nat)
    requires i < 8
    ensures DEVICE_PATHS[i] == Devnode(SlotNode(i))
    ensures NodeOfSocket(4, SOCKETS[i]) == Some(SlotNode(i))
  {
    DevicePathOfSlot(i);
    SocketOfSlot(i);
    NodeOfSocketInverts(4, SlotNode(i));
  }
}
