/**
 udev enumeration: property filters kept in a linked list, and the scan that builds the linked
 list of matching syspaths. Pattern matching (fnmatch) is any relation between strings.
 */
module Enumerate {
  import opened Wrappers
  import opened Decimal
  import opened DeviceNames

  // ----- Properties and filters

  datatype Property = Property(name: string, value: string)

  /** A required property; without a value any value will do. */
  datatype Filter = Filter(name: string, value: Option<string>)

  /** The property table of a node; USB parents have none. */
  function Properties(node: Node): seq<Property> {
    match node.kind
    case Js => [
      Property("DEVNAME", Devnode(node)), Property("ID_INPUT_JOYSTICK", "1"), Property("ID_INPUT", "1")]
    case Event => [
      Property("DEVNAME", Devnode(node)), Property("ID_INPUT_EVENT_JOYSTICK", "1"),
      Property("ID_INPUT_JOYSTICK", "1"), Property("ID_INPUT_GAMEPAD", "1"), Property("ID_INPUT", "1")]
    case InputParent => [
      Property("ID_INPUT", "1"), Property("ID_INPUT_JOYSTICK", "1"),
      Property("DEVPATH", InputParentPath(node.pad)[4..])]
    case UsbParent => []
  }

  /** The value under a key in a property table: the first entry with that name. */
  function ValueIn(ps: seq<Property>, key: string): (r: Option<string>)
    ensures r.None? <==> forall p | p in ps :: p.name != key
    ensures r.Some? ==> Property(key, r.value) in ps
  {
    if ps == [] then None
    else if ps[0].name == key then Some(ps[0].value)
    else ValueIn(ps[1..], key)
  }

  function PropertyValue(node: Node, key: string): Option<string> {
    ValueIn(Properties(node), key)
  }

  /** udev_device_get_property_value. */
  method GetPropertyValue(node: Node, key: string) returns (r: Option<string>)
    ensures r == PropertyValue(node, key)
  {
    var props := Properties(node);
    var i := 0;
    while i < |props|
      invariant 0 <= i <= |props| && ValueIn(props, key) == ValueIn(props[i..], key)
    {
      if props[i].name == key {
        return Some(props[i].value);
      }
      i := i + 1;
    }
    return None;
  }

  lemma NamesDistinct(node: Node, i: nat, j: nat)
    requires i < |Properties(node)| && j < |Properties(node)|
    requires Properties(node)[i].name == Properties(node)[j].name
    ensures i == j
  {
    hide Devnode, InputParentPath;
    ghost var a, b, c, d := "ID_INPUT", "ID_INPUT_JOYSTICK", "ID_INPUT_EVENT_JOYSTICK", "ID_INPUT_GAMEPAD";
    assert |a| == 8 && |b| == 17 && |c| == 23 && |d| == 16 && |"DEVNAME"| == 7 && |"DEVPATH"| == 7;
  }

  /** The keys differ. */
  lemma KeysDiffer()
    ensures |"ID_INPUT"| == 8 && |"ID_INPUT_JOYSTICK"| == 17 && |"ID_INPUT_EVENT_JOYSTICK"| == 23
    ensures |"ID_INPUT_GAMEPAD"| == 16 && |"DEVNAME"| == 7 && |"DEVPATH"| == 7 && "DEVNAME" != "DEVPATH"
  {
    assert "DEVNAME"[3] != "DEVPATH"[3];
  }

  /** Properties that mark what kind of input a node is. */
  lemma InputProperties(node: Node)
    ensures PropertyValue(node, "ID_INPUT") == if node.kind.UsbParent? then None else Some("1")
    ensures PropertyValue(node, "ID_INPUT_JOYSTICK") == if node.kind.UsbParent? then None else Some("1")
  {
    hide Devnode, InputParentPath, ValueIn;
    KeysDiffer();
    LookUps(Properties(node), "ID_INPUT");
    LookUps(Properties(node), "ID_INPUT_JOYSTICK");
  }

  lemma EventProperties(node: Node)
    ensures PropertyValue(node, "ID_INPUT_EVENT_JOYSTICK") == if node.kind.Event? then Some("1") else None
    ensures PropertyValue(node, "ID_INPUT_GAMEPAD") == if node.kind.Event? then Some("1") else None
  {
    hide Devnode, InputParentPath, ValueIn;
    KeysDiffer();
    LookUps(Properties(node), "ID_INPUT_EVENT_JOYSTICK");
    LookUps(Properties(node), "ID_INPUT_GAMEPAD");
  }

  /** Device nodes name themselves, input parents their path below /sys. */
  lemma NamingProperties(node: Node)
    ensures PropertyValue(node, "DEVNAME") == if HasDevnode(node) then Some(Devnode(node)) else None
    ensures PropertyValue(node, "DEVPATH").Some? <==> node.kind.InputParent?
    ensures node.kind.InputParent? ==> "/sys" + PropertyValue(node, "DEVPATH").value == Syspath(node)
  {
    hide Devnode, ValueIn, Dec;
    KeysDiffer();
    LookUps(Properties(node), "DEVNAME");
    LookUps(Properties(node), "DEVPATH");
    assert InputParentPath(node.pad)[..4] == "/sys";
    assert InputParentPath(node.pad) == InputParentPath(node.pad)[..4] + InputParentPath(node.pad)[4..];
  }

  /** And there are no others. */
  lemma NoOtherProperties(node: Node, key: string)
    requires PropertyValue(node, key).Some?
    ensures key in ["ID_INPUT", "ID_INPUT_JOYSTICK", "ID_INPUT_EVENT_JOYSTICK", "ID_INPUT_GAMEPAD",
                    "DEVNAME", "DEVPATH"]
  {
    hide Devnode, InputParentPath;
  }

  /** Looking a key up in a table of up to five entries. */
  lemma LookUps(ps: seq<Property>, key: string)
    requires |ps| <= 5
    ensures ValueIn(ps, key) ==
            if |ps| > 0 && ps[0].name == key then Some(ps[0].value)
            else if |ps| > 1 && ps[1].name == key then Some(ps[1].value)
            else if |ps| > 2 && ps[2].name == key then Some(ps[2].value)
            else if |ps| > 3 && ps[3].name == key then Some(ps[3].value)
            else if |ps| > 4 && ps[4].name == key then Some(ps[4].value)
            else None
  {
    if |ps| > 1 {
      LookUps(ps[1..], key);
    }
  }

  predicate Satisfies(node: Node, f: Filter) {
    var v := PropertyValue(node, f.name);
    v.Some? && (f.value.None? || v == f.value)
  }

  predicate SatisfiesAll(node: Node, fs: seq<Filter>) {
    forall f | f in fs :: Satisfies(node, f)
  }

  predicate EntryAnswers(p: Property, f: Filter) {
    p.name == f.name && (f.value.None? || p.value == f.value.value)
  }

  /** Looking for any entry that answers a filter comes to the same as looking the key up. */
  lemma AnyEntryIsTheValue(node: Node, f: Filter)
    ensures Satisfies(node, f) <==> exists p :: p in Properties(node) && EntryAnswers(p, f)
  {
    var props, v := Properties(node), PropertyValue(node, f.name);
    if v.Some? {
      var value := Property(f.name, v.value);
      assert value in props;
      forall p | p in props && p.name == f.name ensures p == value {
        var i :| 0 <= i < |props| && props[i] == p;
        var j :| 0 <= j < |props| && props[j] == value;
        NamesDistinct(node, i, j);
      }
      assert Satisfies(node, f) ==> EntryAnswers(value, f);
    }
  }

  // ----- Linked lists

  class ListEntry {
    const name: string
    const value: Option<string>
    var next: ListEntry?

    constructor (name: string, value: Option<string>, next: ListEntry?)
      ensures this.name == name && this.value == value && this.next == next
    {
      this.name, this.value, this.next := name, value, next;
    }
  }

  function At(nodes: seq<ListEntry>, i: nat): ListEntry? {
    if i < |nodes| then nodes[i] else null
  }

  /** The entries reached from head by next pointers, in order, are exactly these. */
  ghost predicate Linked(head: ListEntry?, nodes: seq<ListEntry>)
    reads nodes
  {
    && head == At(nodes, 0)
    && forall i | 0 <= i < |nodes| :: nodes[i].next == At(nodes, i + 1)
  }

  function Names(nodes: seq<ListEntry>): seq<string> {
    seq(|nodes|, i requires 0 <= i < |nodes| => nodes[i].name)
  }

  function Filters(nodes: seq<ListEntry>): seq<Filter> {
    seq(|nodes|, i requires 0 <= i < |nodes| => Filter(nodes[i].name, nodes[i].value))
  }

  lemma UsbSatisfiesNothing(node: Node, f: Filter)
    requires node.kind.UsbParent?
    ensures !Satisfies(node, f)
  {
  }

  /** device_matches_all_property_filters: every filter answered by some entry of the node's table. */
  method MatchesAllFilters(node: Node, filters: ListEntry?, ghost nodes: seq<ListEntry>) returns (r: bool)
    requires Linked(filters, nodes)
    ensures r <==> SatisfiesAll(node, Filters(nodes))
  {
    hide Properties, PropertyValue, Satisfies, EntryAnswers;
    if filters == null {
      return true;
    }
    if node.kind.UsbParent? {
      UsbSatisfiesNothing(node, Filters(nodes)[0]);
      return false;
    }
    var props := Properties(node);
    var filter := filters;
    ghost var k := 0;
    while filter != null
      invariant 0 <= k <= |nodes| && filter == At(nodes, k)
      invariant forall j | 0 <= j < k :: Satisfies(node, Filters(nodes)[j])
      decreases |nodes| - k
    {
      var f := Filter(filter.name, filter.value);
      var matched := HasEntry(props, f);
      AnyEntryIsTheValue(node, f);
      assert Filters(nodes)[k] == f;
      if !matched {
        return false;
      }
      filter := filter.next;
      k := k + 1;
    }
    return true;
  }

  method HasEntry(props: seq<Property>, f: Filter) returns (matched: bool)
    ensures matched <==> exists p :: p in props && EntryAnswers(p, f)
  {
    matched := false;
    var i := 0;
    while i < |props|
      invariant 0 <= i <= |props| && !matched
      invariant forall p | p in props[..i] :: !EntryAnswers(p, f)
    {
      if EntryAnswers(props[i], f) {
        matched := true;
        assert props[i] in props;
        return;
      }
      i := i + 1;
    }
  }

  // ----- What a scan finds

  function Rank(node: Node): nat {
    3 * node.pad + match node.kind case Js => 0 case Event => 1 case _ => 2
  }

  /** Generic scans list the two device nodes of a pad; a pattern may also name its input parent. */
  predicate Selected(node: Node, pattern: string, fs: seq<Filter>, fnmatch: (string, string) -> bool) {
    && !node.kind.UsbParent?
    && (if pattern == "" then HasDevnode(node) else fnmatch(pattern, Sysname(node)))
    && SatisfiesAll(node, fs)
  }

  function Pick(node: Node, pattern: string, fs: seq<Filter>, fnmatch: (string, string) -> bool): seq<Node> {
    if Selected(node, pattern, fs, fnmatch) then [node] else []
  }

  function PickPad(pad: nat, pattern: string, fs: seq<Filter>, fnmatch: (string, string) -> bool): seq<Node> {
    Pick(Node(pad, Js), pattern, fs, fnmatch) + Pick(Node(pad, Event), pattern, fs, fnmatch)
    + Pick(Node(pad, InputParent), pattern, fs, fnmatch)
  }

  /** The nodes a scan over n pads lists, in the order it visits them. */
  function Found(n: nat, pattern: string, fs: seq<Filter>, fnmatch: (string, string) -> bool): seq<Node> {
    if n == 0 then [] else Found(n - 1, pattern, fs, fnmatch) + PickPad(n - 1, pattern, fs, fnmatch)
  }

  function Syspaths(nodes: seq<Node>): seq<string> {
    seq(|nodes|, i requires 0 <= i < |nodes| => Syspath(nodes[i]))
  }

  ghost predicate Ascending(nodes: seq<Node>) {
    forall i, j | 0 <= i < j < |nodes| :: Rank(nodes[i]) < Rank(nodes[j])
  }

  /**
   Exactly the selected nodes of the first n pads are found, each once, pad by pad, joystick
   before event before parent.
   */
  lemma {:induction false} FoundIsSelected(n: nat, pattern: string, fs: seq<Filter>, fnmatch: (string, string) -> bool)
    ensures forall node: Node ::
      node in Found(n, pattern, fs, fnmatch) <==> node.pad < n && Selected(node, pattern, fs, fnmatch)
    ensures Ascending(Found(n, pattern, fs, fnmatch))
  {
    hide Selected, PickPad, Ascending, Rank;
    if n == 0 {
      assert Found(n, pattern, fs, fnmatch) == [] + [];
      AscendingAppend([], [], 0);
    } else {
      FoundIsSelected(n - 1, pattern, fs, fnmatch);
      PadIsSelected(n - 1, pattern, fs, fnmatch);
      AscendingAppend(Found(n - 1, pattern, fs, fnmatch), PickPad(n - 1, pattern, fs, fnmatch), n - 1);
    }
  }

  lemma AscendingAppend(a: seq<Node>, b: seq<Node>, pad: nat)
    requires a == [] || Ascending(a)
    requires b == [] || Ascending(b)
    requires (forall x | x in a :: x.pad < pad) && forall x | x in b :: x.pad == pad
    ensures Ascending(a + b)
  {
    forall i, j | 0 <= i < j < |a + b| ensures Rank((a + b)[i]) < Rank((a + b)[j]) {
      if i < |a| <= j {
        assert a[i] in a && b[j - |a|] in b;
      }
    }
  }

  lemma PadIsSelected(pad: nat, pattern: string, fs: seq<Filter>, fnmatch: (string, string) -> bool)
    ensures forall node: Node ::
      node in PickPad(pad, pattern, fs, fnmatch) <==> node.pad == pad && Selected(node, pattern, fs, fnmatch)
    ensures Ascending(PickPad(pad, pattern, fs, fnmatch))
  {
    hide SatisfiesAll;
    forall node: Node | node.pad == pad && Selected(node, pattern, fs, fnmatch)
      ensures node in PickPad(pad, pattern, fs, fnmatch)
    {
      assert node in Pick(node, pattern, fs, fnmatch);
    }
  }

  lemma SamePick(node: Node, pattern: string, fs: seq<Filter>, gs: seq<Filter>, fnmatch: (string, string) -> bool)
    requires forall f :: f in fs <==> f in gs
    ensures Pick(node, pattern, fs, fnmatch) == Pick(node, pattern, gs, fnmatch)
  {
    hide Satisfies;
    assert SatisfiesAll(node, fs) == SatisfiesAll(node, gs);
  }

  /** Filters select as a set: neither their order nor repetition matters. */
  lemma {:induction false} FilterOrderIrrelevant(n: nat, pattern: string, fs: seq<Filter>, gs: seq<Filter>,
      fnmatch: (string, string) -> bool)
    requires forall f :: f in fs <==> f in gs
    ensures Found(n, pattern, fs, fnmatch) == Found(n, pattern, gs, fnmatch)
  {
    hide Pick;
    if n > 0 {
      FilterOrderIrrelevant(n - 1, pattern, fs, gs, fnmatch);
      SamePick(Node(n - 1, Js), pattern, fs, gs, fnmatch);
      SamePick(Node(n - 1, Event), pattern, fs, gs, fnmatch);
      SamePick(Node(n - 1, InputParent), pattern, fs, gs, fnmatch);
    }
  }

  lemma DevnodeInjective(a: Node, b: Node)
    requires HasDevnode(a) && HasDevnode(b) && Devnode(a) == Devnode(b)
    ensures a == b
  {
    PrefixCancels("/dev/input/", Sysname(a), Sysname(b));
    SocketNameInjective(a, b);
  }

  lemma DevnameSatisfied(node: Node, m: Node)
    requires HasDevnode(m)
    ensures Satisfies(node, Filter("DEVNAME", Some(Devnode(m)))) <==> node == m
  {
    hide Devnode;
    assert PropertyValue(node, "DEVNAME") == if HasDevnode(node) then Some(Devnode(node)) else None;
    if HasDevnode(node) && Devnode(node) == Devnode(m) {
      DevnodeInjective(node, m);
    }
  }

  lemma SatisfiesOne(node: Node, f: Filter)
    ensures SatisfiesAll(node, [f]) <==> Satisfies(node, f)
  {
  }

  /** Asking for a device by its DEVNAME finds that device and nothing else. */
  lemma DevnameSelectsOne(n: nat, m: Node, fnmatch: (string, string) -> bool)
    requires HasDevnode(m) && m.pad < n
    ensures Found(n, "", [Filter("DEVNAME", Some(Devnode(m)))], fnmatch) == [m]
  {
    hide Devnode, Satisfies, SatisfiesAll, Found, Rank, Ascending;
    var fs := [Filter("DEVNAME", Some(Devnode(m)))];
    var found := Found(n, "", fs, fnmatch);
    FoundIsSelected(n, "", fs, fnmatch);
    forall node: Node ensures node in found <==> node == m {
      DevnameSatisfied(node, m);
      SatisfiesOne(node, fs[0]);
    }
    OnlyOne(found, m);
  }

  lemma FirstTwoDiffer(nodes: seq<Node>)
    requires Ascending(nodes)
    ensures |nodes| > 1 ==> nodes[0] in nodes && nodes[1] in nodes && nodes[0] != nodes[1]
  {
    if |nodes| > 1 {
      assert Rank(nodes[0]) < Rank(nodes[1]);
    }
  }

  lemma OnlyOne(nodes: seq<Node>, m: Node)
    requires Ascending(nodes) && forall node: Node :: node in nodes <==> node == m
    ensures nodes == [m]
  {
    FirstTwoDiffer(nodes);
    assert m in nodes;
  }

  /** A generic scan lists every pad's joystick node and then its event node, pad after pad. */
  lemma {:induction false} GenericScan(n: nat, fs: seq<Filter>, fnmatch: (string, string) -> bool)
    requires forall node | HasDevnode(node) :: SatisfiesAll(node, fs)
    ensures Found(n, "", fs, fnmatch)
         == seq(2 * n, i requires 0 <= i < 2 * n => Node(i / 2, if i % 2 == 0 then Js else Event))
  {
    hide SatisfiesAll;
    if n > 0 {
      GenericScan(n - 1, fs, fnmatch);
      assert PickPad(n - 1, "", fs, fnmatch) == [Node(n - 1, Js), Node(n - 1, Event)];
    }
  }

  /** Which is what a scan for joysticks finds. */
  lemma JoystickScan(n: nat, fnmatch: (string, string) -> bool)
    ensures Found(n, "", [Filter("ID_INPUT_JOYSTICK", Some("1"))], fnmatch)
         == seq(2 * n, i requires 0 <= i < 2 * n => Node(i / 2, if i % 2 == 0 then Js else Event))
  {
    hide Found;
    var f := Filter("ID_INPUT_JOYSTICK", Some("1"));
    forall node | HasDevnode(node) ensures SatisfiesAll(node, [f]) {
      InputProperties(node);
      SatisfiesOne(node, f);
    }
    GenericScan(n, [f], fnmatch);
  }

  lemma SysnameInjective(a: Node, b: Node)
    requires Sysname(a) == Sysname(b)
    ensures a == b
  {
    if HasDevnode(a) && HasDevnode(b) {
      SocketNameInjective(a, b);
    } else {
      SysnameKind(a);
      SysnameKind(b);
      if a.kind.InputParent? {
        PrefixCancels("selkies_pad", Dec(a.pad), Dec(b.pad));
      } else {
        UsbSysname(a, b);
      }
      DecInjective(a.pad, b.pad);
    }
  }

  lemma UsbSysname(a: Node, b: Node)
    requires a.kind.UsbParent? && b.kind.UsbParent? && Sysname(a) == Sysname(b)
    ensures Dec(a.pad) == Dec(b.pad)
  {
    Regroup("selkies_usb_ctrl", Dec(a.pad), "_dev");
    Regroup("selkies_usb_ctrl", Dec(b.pad), "_dev");
    PrefixCancels("selkies_usb_ctrl", Dec(a.pad) + "_dev", Dec(b.pad) + "_dev");
    DigitRunUnique(Dec(a.pad), "_dev", Dec(b.pad), "_dev");
  }

  /** A name's first letters tell the kind of node. */
  lemma SysnameKind(node: Node)
    ensures |Sysname(node)| > 8 || HasDevnode(node)
    ensures Sysname(node) != "" && (Sysname(node)[0] == 's' <==> !HasDevnode(node))
    ensures !HasDevnode(node) ==> (Sysname(node)[8] == 'p' <==> node.kind.InputParent?)
  {
  }

  /** Asking for a node by its exact name finds it and nothing else. */
  lemma NameSelectsOne(n: nat, m: Node)
    requires !m.kind.UsbParent? && m.pad < n
    ensures Found(n, Sysname(m), [], (pattern, name) => pattern == name) == [m]
  {
    hide Sysname, Found, Rank, Ascending;
    var equal := (pattern: string, name: string) => pattern == name;
    SysnameKind(m);
    FoundIsSelected(n, Sysname(m), [], equal);
    var found := Found(n, Sysname(m), [], equal);
    forall node: Node ensures node in found <==> node == m {
      if Sysname(node) == Sysname(m) {
        SysnameInjective(node, m);
      }
    }
    OnlyOne(found, m);
  }

  // ----- The scan

  /** A result list under construction, with its head and tail pointers and its count. */
  class ResultList {
    var head: ListEntry?
    var tail: ListEntry?
    var count: nat
    ghost var nodes: seq<ListEntry>

    ghost predicate Valid()
      reads this, nodes
    {
      && count == |nodes| && Linked(head, nodes)
      && (if nodes == [] then tail == null else tail == nodes[|nodes| - 1])
      && forall i, j | 0 <= i < j < |nodes| :: nodes[i] != nodes[j]
    }

    constructor ()
      ensures Valid() && nodes == []
    {
      head, tail, count, nodes := null, null, 0, [];
    }

    /** add_syspath_to_results_list: empty names are ignored, others go to the end. */
    method Add(syspath: string)
      requires Valid()
      modifies this, nodes
      ensures Valid() && Names(nodes) == Names(old(nodes)) + if syspath == "" then [] else [syspath]
      ensures old(nodes) <= nodes && forall k | |old(nodes)| <= k < |nodes| :: fresh(nodes[k])
    {
      hide Names, Filters, Linked;
      InnerLinks(head, nodes);
      if syspath == "" {
        return;
      }
      var entry := new ListEntry(syspath, None, null);
      ghost var was := nodes;
      if head == null {
        head := entry;
      } else {
        tail.next := entry;
      }
      LinkedSnoc(head, was, entry);
      tail := entry;
      count := count + 1;
      NamesSnoc(nodes, entry);
      nodes := nodes + [entry];
    }
  }

  const PATTERN_ROOM: nat := 63

  class Enumerator {
    var subsystemInput: bool
    var sysnamePattern: string
    var propertyFilters: ListEntry?
    var scanResults: ListEntry?
    ghost var filterNodes: seq<ListEntry>
    ghost var resultNodes: seq<ListEntry>

    ghost predicate Valid()
      reads this, filterNodes, resultNodes
    {
      Linked(propertyFilters, filterNodes) && Linked(scanResults, resultNodes)
    }

    constructor ()
      ensures Valid() && !subsystemInput && sysnamePattern == "" && filterNodes == [] && resultNodes == []
    {
      subsystemInput, sysnamePattern, propertyFilters, scanResults := false, "", null, null;
      filterNodes, resultNodes := [], [];
    }

    /** Only "input" switches scanning on, and nothing switches it off. */
    method AddMatchSubsystem(subsystem: string)
      requires Valid()
      modifies this`subsystemInput
      ensures Valid() && subsystemInput == (old(subsystemInput) || subsystem == "input")
    {
      if subsystem == "input" {
        subsystemInput := true;
      }
    }

    /** The pattern is kept in a fixed buffer; a later one replaces it. */
    method AddMatchSysname(sysname: string)
      requires Valid()
      modifies this`sysnamePattern
      ensures Valid() && sysnamePattern == sysname[..Min(PATTERN_ROOM, |sysname|)]
    {
      sysnamePattern := if |sysname| <= PATTERN_ROOM then sysname else sysname[..PATTERN_ROOM];
    }

    /** udev_enumerate_add_match_property puts the new filter in front. */
    method AddMatchProperty(property: string, value: Option<string>)
      requires Valid()
      modifies this`propertyFilters, this`filterNodes
      ensures Valid() && Filters(filterNodes) == [Filter(property, value)] + Filters(old(filterNodes))
    {
      hide Filters;
      var entry := new ListEntry(property, value, propertyFilters);
      LinkedCons(entry, filterNodes);
      FiltersCons(entry, filterNodes);
      propertyFilters := entry;
      filterNodes := [entry] + filterNodes;
    }

    /** A scan under way does not share entries with the filter list. */
    ghost predicate Scanning(list: ResultList)
      reads this, filterNodes, resultNodes, list, list.nodes
    {
      Valid() && list.Valid() && forall k | 0 <= k < |list.nodes| :: list.nodes[k] !in filterNodes
    }

    /** One of the scan's three checks on a pad, its name test already made. */
    method Consider(list: ResultList, node: Node, named: bool, ghost fnmatch: (string, string) -> bool)
      requires Scanning(list) && resultNodes == [] && !node.kind.UsbParent?
      requires named <==> if sysnamePattern == "" then HasDevnode(node) else fnmatch(sysnamePattern, Sysname(node))
      modifies list, list.nodes
      ensures Scanning(list) && old(list.nodes) <= list.nodes
      ensures forall k | |old(list.nodes)| <= k < |list.nodes| :: fresh(list.nodes[k])
      ensures Names(list.nodes)
           == Names(old(list.nodes)) + Syspaths(Pick(node, sysnamePattern, Filters(filterNodes), fnmatch))
    {
      hide Syspath, SatisfiesAll, Syspaths, Pick, Linked, Names, Filters;
      PickSyspaths(node, sysnamePattern, Filters(filterNodes), fnmatch);
      if named {
        var matches := MatchesAllFilters(node, propertyFilters, filterNodes);
        if matches {
          SyspathNotEmpty(node);
          list.Add(Syspath(node));
        }
      }
    }

    method ScanPad(list: ResultList, i: nat, fnmatch: (string, string) -> bool)
      requires Scanning(list) && resultNodes == []
      modifies list, list.nodes
      ensures Scanning(list) && old(list.nodes) <= list.nodes
      ensures forall k | |old(list.nodes)| <= k < |list.nodes| :: fresh(list.nodes[k])
      ensures Names(list.nodes)
           == Names(old(list.nodes)) + Syspaths(PickPad(i, sysnamePattern, Filters(filterNodes), fnmatch))
    {
      hide Syspaths, Names, Filters, Pick, Sysname, Linked;
      var generic := sysnamePattern == "";
      var js, event, parent := Node(i, Js), Node(i, Event), Node(i, InputParent);
      Consider(list, js, generic || fnmatch(sysnamePattern, Sysname(js)), fnmatch);
      Consider(list, event, generic || fnmatch(sysnamePattern, Sysname(event)), fnmatch);
      Consider(list, parent, !generic && fnmatch(sysnamePattern, Sysname(parent)), fnmatch);
      PadAppended(i, Names(old(list.nodes)), sysnamePattern, Filters(filterNodes), fnmatch);
    }

    /** The loop over the pads. */
    method ScanPads(list: ResultList, n: nat, fnmatch: (string, string) -> bool)
      requires Scanning(list) && resultNodes == [] && list.nodes == []
      modifies list
      ensures Scanning(list)
      ensures forall k | 0 <= k < |list.nodes| :: fresh(list.nodes[k])
      ensures Names(list.nodes) == Syspaths(Found(n, sysnamePattern, Filters(filterNodes), fnmatch))
    {
      hide Syspaths, Names, Filters, Found, PickPad, Linked;
      ghost var fs := Filters(filterNodes);
      NoNames(list.nodes);
      FoundNothing(sysnamePattern, fs, fnmatch);
      for i := 0 to n
        invariant Scanning(list) && resultNodes == []
        invariant forall k | 0 <= k < |list.nodes| :: fresh(list.nodes[k])
        invariant Names(list.nodes) == Syspaths(Found(i, sysnamePattern, fs, fnmatch))
      {
        ScanPad(list, i, fnmatch);
        FoundStep(i, sysnamePattern, fs, fnmatch);
      }
    }

    /**
     udev_enumerate_scan_devices over n pads: the list built is the syspaths of the nodes found,
     in order; without the "input" subsystem filter it is empty.
     */
    method ScanDevices(n: nat, fnmatch: (string, string) -> bool)
      requires Valid()
      modifies this`scanResults, this`resultNodes
      ensures Valid()
      ensures Names(resultNodes) == if !subsystemInput then [] else
                Syspaths(Found(n, sysnamePattern, Filters(filterNodes), fnmatch))
    {
      hide Syspaths, Names, Filters, Found, Linked;
      scanResults, resultNodes := null, [];
      NothingLinked();
      var list := new ResultList();
      NoNames(list.nodes);
      if subsystemInput {
        ScanPads(list, n, fnmatch);
      }
      scanResults := list.head;
      resultNodes := list.nodes;
    }
  }

  lemma PickSyspaths(node: Node, pattern: string, fs: seq<Filter>, fnmatch: (string, string) -> bool)
    ensures Syspaths(Pick(node, pattern, fs, fnmatch)) ==
            if Selected(node, pattern, fs, fnmatch) then [Syspath(node)] else []
  {
    hide Selected, Syspath;
  }

  lemma SyspathNotEmpty(node: Node)
    ensures Syspath(node) != ""
  {
  }

  lemma LinkedCons(entry: ListEntry, nodes: seq<ListEntry>)
    requires Linked(entry.next, nodes)
    ensures Linked(entry, [entry] + nodes)
  {
  }

  lemma FiltersCons(entry: ListEntry, nodes: seq<ListEntry>)
    ensures Filters([entry] + nodes) == [Filter(entry.name, entry.value)] + Filters(nodes)
  {
  }

  lemma InnerLinks(head: ListEntry?, nodes: seq<ListEntry>)
    requires Linked(head, nodes)
    ensures head == At(nodes, 0) && forall i | 0 <= i < |nodes| - 1 :: nodes[i].next == nodes[i + 1]
  {
  }

  lemma LinkedSnoc(head: ListEntry?, nodes: seq<ListEntry>, entry: ListEntry)
    requires head == (if nodes == [] then entry else nodes[0]) && entry.next == null
    requires nodes != [] ==> nodes[|nodes| - 1].next == entry
    requires forall i | 0 <= i < |nodes| - 1 :: nodes[i].next == nodes[i + 1]
    ensures Linked(head, nodes + [entry])
  {
  }

  lemma NamesSnoc(nodes: seq<ListEntry>, entry: ListEntry)
    ensures Names(nodes + [entry]) == Names(nodes) + [entry.name]
  {
  }

  lemma NoNames(nodes: seq<ListEntry>)
    requires nodes == []
    ensures Names(nodes) == []
  {
  }

  lemma NothingLinked()
    ensures Linked(null, [])
  {
  }

  lemma FoundNothing(pattern: string, fs: seq<Filter>, fnmatch: (string, string) -> bool)
    ensures Syspaths(Found(0, pattern, fs, fnmatch)) == []
  {
  }

  lemma FoundStep(i: nat, pattern: string, fs: seq<Filter>, fnmatch: (string, string) -> bool)
    ensures Syspaths(Found(i + 1, pattern, fs, fnmatch))
         == Syspaths(Found(i, pattern, fs, fnmatch)) + Syspaths(PickPad(i, pattern, fs, fnmatch))
  {
    hide Syspaths, PickPad;
    SyspathsAppend(Found(i, pattern, fs, fnmatch), PickPad(i, pattern, fs, fnmatch));
  }

  lemma SyspathsAppend(a: seq<Node>, b: seq<Node>)
    ensures Syspaths(a + b) == Syspaths(a) + Syspaths(b)
  {
  }

  lemma PadAppended(i: nat, s: seq<string>, pattern: string, fs: seq<Filter>, fnmatch: (string, string) -> bool)
    ensures s + Syspaths(PickPad(i, pattern, fs, fnmatch))
         == ((s + Syspaths(Pick(Node(i, Js), pattern, fs, fnmatch)))
             + Syspaths(Pick(Node(i, Event), pattern, fs, fnmatch)))
            + Syspaths(Pick(Node(i, InputParent), pattern, fs, fnmatch))
  {
    hide Pick, Syspaths;
    var a, b, c := Pick(Node(i, Js), pattern, fs, fnmatch),
      Pick(Node(i, Event), pattern, fs, fnmatch), Pick(Node(i, InputParent), pattern, fs, fnmatch);
    SyspathsAppend(a, b);
    SyspathsAppend(a + b, c);
    Regroup(s, Syspaths(a), Syspaths(b));
    Regroup(s, Syspaths(a) + Syspaths(b), Syspaths(c));
  }
}
