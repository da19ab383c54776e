/**
 Order-preserving dispatch of control messages, some of which are gzip-wrapped and inflate
 asynchronously: a promise chain that is engaged only while an inflation is pending.

 A handler may throw. Behind a gzip frame that is caught; outside the chain it ends that event
 only; but a deferred plain message whose handler throws rejects the chain, and no callback put
 on a rejected chain ever runs.
 */
module ControlDispatch {
  import opened Wrappers

  /** A control message: how it is wrapped, whether it then inflates, whether its handler throws. */
  datatype Message = Message(id: nat, gzip: bool, inflates: bool, throws: bool)

  /** What the event loop runs next. */
  datatype Event = Arrives(m: Message) | InflationSettles

  /** The messages that reach the handler: a gzip frame that fails to inflate is logged and skipped. */
  function Handled(ms: seq<Message>): seq<nat> {
    if ms == [] then [] else
      var n := |ms| - 1;
      Handled(ms[..n]) + if ms[n].gzip && !ms[n].inflates then [] else [ms[n].id]
  }

  lemma HandledSnoc(ms: seq<Message>, m: Message)
    ensures Handled(ms + [m]) == Handled(ms) + if m.gzip && !m.inflates then [] else [m.id]
  {
    assert (ms + [m])[..|ms|] == ms;
  }

  function GzipCount(ms: seq<Message>): nat {
    if ms == [] then 0 else GzipCount(ms[..|ms| - 1]) + if ms[|ms| - 1].gzip then 1 else 0
  }

  lemma GzipCountSnoc(ms: seq<Message>, m: Message)
    ensures GzipCount(ms + [m]) == GzipCount(ms) + if m.gzip then 1 else 0
  {
    assert (ms + [m])[..|ms|] == ms;
  }

  lemma {:induction false} GzipCountHead(ms: seq<Message>)
    requires ms != []
    ensures GzipCount(ms) == (if ms[0].gzip then 1 else 0) + GzipCount(ms[1..])
    decreases |ms|
  {
    var n := |ms| - 1;
    if n > 0 {
      GzipCountHead(ms[..n]);
      assert ms[..n][1..] == ms[1..][..n - 1];
    } else {
      assert ms[..0] == [] && ms[1..] == [];
    }
  }

  /** On the chain, this message would reject it. */
  predicate Thrower(m: Message) {
    !m.gzip && m.throws
  }

  // ----- What becomes of a script of events, without any queue

  /**
   Where a run stands. Healthy: so many inflations outstanding. Doomed: a deferred message that will
   throw has so many inflations still ahead of it, and so many gzip frames came after it. Stopped:
   it has thrown, and so many gzip frames will stay counted for ever.
   */
  datatype Phase = Healthy(outstanding: nat) | Doomed(ahead: nat, behind: nat) | Stopped(stuck: nat)

  function OnArrival(p: Phase, m: Message): Phase {
    match p
    case Healthy(n) =>
      if m.gzip then Healthy(n + 1) else if Thrower(m) && n > 0 then Doomed(n, 0) else p
    case Doomed(ahead, behind) => if m.gzip then Doomed(ahead, behind + 1) else p
    case Stopped(n) => if m.gzip then Stopped(n + 1) else p
  }

  /** A message arriving in this phase gets its turn. */
  predicate Survives(p: Phase, m: Message) {
    match p
    case Healthy(_) => true
    case Doomed(_, _) => false
    case Stopped(n) => !m.gzip && n == 0
  }

  /** An inflation settles, if one is in flight. */
  function CountOff(p: Phase): Phase {
    match p
    case Healthy(n) => if n == 0 then p else Healthy(n - 1)
    case Doomed(ahead, behind) => if ahead == 0 then p else Doomed(ahead - 1, behind)
    case Stopped(_) => p
  }

  /** With nothing ahead of it any more the doomed message throws. */
  function Quiesce(p: Phase): Phase {
    if p.Doomed? && p.ahead == 0 then Stopped(p.behind) else p
  }

  function PhaseAfter(p: Phase, events: seq<Event>): Phase {
    if events == [] then p else
      var n := |events| - 1;
      var before := PhaseAfter(p, events[..n]);
      if events[n].Arrives? then OnArrival(before, events[n].m) else Quiesce(CountOff(before))
  }

  function ArrivalsOf(events: seq<Event>): seq<Message> {
    if events == [] then [] else
      var n := |events| - 1;
      if events[n].Arrives? then ArrivalsOf(events[..n]) + [events[n].m] else ArrivalsOf(events[..n])
  }

  /** The messages of a script that get their turn, and those that never do, in arrival order. */
  function Sorted(p: Phase, events: seq<Event>): (seq<Message>, seq<Message>) {
    if events == [] then ([], []) else
      var n := |events| - 1;
      var (live, lost) := Sorted(p, events[..n]);
      if events[n].InflationSettles? then (live, lost)
      else if Survives(PhaseAfter(p, events[..n]), events[n].m) then (live + [events[n].m], lost)
      else (live, lost + [events[n].m])
  }

  /** Gzip frames not yet inflated, as long as nothing has broken. */
  function Outstanding(events: seq<Event>): nat {
    if events == [] then 0 else
      var n := |events| - 1;
      var before := Outstanding(events[..n]);
      match events[n]
      case Arrives(m) => if m.gzip then before + 1 else before
      case InflationSettles => if before == 0 then 0 else before - 1
  }

  /** Event k is plain text whose handler throws, arriving while an inflation is outstanding. */
  predicate BreaksAt(events: seq<Event>, k: nat)
    requires k < |events|
  {
    events[k].Arrives? && Thrower(events[k].m) && Outstanding(events[..k]) > 0
  }

  predicate Breaks(events: seq<Event>) {
    exists k: nat | k < |events| :: BreaksAt(events, k)
  }

  lemma BreaksSnoc(events: seq<Event>, n: nat)
    requires |events| == n + 1
    ensures Breaks(events) <==> Breaks(events[..n]) || BreaksAt(events, n)
  {
    hide Outstanding;
    forall k: nat | k < n ensures BreaksAt(events[..n], k) == BreaksAt(events, k) {
      assert events[..n][..k] == events[..k];
    }
  }

  /** A script stays healthy, and every message gets its turn, exactly as long as nothing breaks. */
  lemma {:induction false} HealthyExactly(events: seq<Event>)
    ensures PhaseAfter(Healthy(0), events).Healthy? <==> !Breaks(events)
    ensures !Breaks(events) ==> PhaseAfter(Healthy(0), events) == Healthy(Outstanding(events))
    ensures !Breaks(events) ==> Sorted(Healthy(0), events) == (ArrivalsOf(events), [])
    decreases |events|
  {
    hide Breaks;
    if events == [] {
      NothingBreaks(events);
    } else {
      var n := |events| - 1;
      HealthyExactly(events[..n]);
      BreaksSnoc(events, n);
    }
  }

  lemma NothingBreaks(events: seq<Event>)
    requires events == []
    ensures !Breaks(events)
  {
  }

  function Settlings(events: seq<Event>): nat {
    if events == [] then 0 else
      var n := |events| - 1;
      Settlings(events[..n]) + if events[n].InflationSettles? then 1 else 0
  }

  /** How a run that breaks first at event k goes on: counts of what came after k tell it all. */
  lemma {:induction false} AfterBreak(events: seq<Event>, k: nat)
    requires k < |events| && BreaksAt(events, k) && !Breaks(events[..k])
    ensures var after, ahead := events[k + 1..], Outstanding(events[..k]);
            PhaseAfter(Healthy(0), events) ==
            if Settlings(after) < ahead then Doomed(ahead - Settlings(after), GzipCount(ArrivalsOf(after)))
            else Stopped(GzipCount(ArrivalsOf(after)))
    decreases |events|
  {
    hide Breaks, PhaseAfter, Settlings, ArrivalsOf, GzipCount, Outstanding;
    var n := |events| - 1;
    BreakIsDoomed(events, k);
    if k < n {
      assert events[..n][..k] == events[..k];
      AfterBreak(events[..n], k);
      var after := events[k + 1..];
      assert events[..n][k + 1..] == after[..|after| - 1] && after[|after| - 1] == events[n];
      StepAfter(events, after);
    }
  }

  /** The break itself. */
  lemma BreakIsDoomed(events: seq<Event>, k: nat)
    requires k < |events| && BreaksAt(events, k) && !Breaks(events[..k])
    ensures |events| == k + 1 ==> PhaseAfter(Healthy(0), events) == Doomed(Outstanding(events[..k]), 0)
    ensures Outstanding(events[..k]) > 0
    ensures |events| == k + 1 ==> Settlings(events[k + 1..]) == 0 && GzipCount(ArrivalsOf(events[k + 1..])) == 0
  {
    hide Breaks;
    HealthyExactly(events[..k]);
  }

  /** One more event, seen from the start and from somewhere after it. */
  lemma StepAfter(events: seq<Event>, after: seq<Event>)
    requires events != [] && after != [] && after[|after| - 1] == events[|events| - 1]
    ensures var (before, e) := (PhaseAfter(Healthy(0), events[..|events| - 1]), events[|events| - 1]);
            PhaseAfter(Healthy(0), events)
            == if e.Arrives? then OnArrival(before, e.m) else Quiesce(CountOff(before))
    ensures var (k, e) := (|after| - 1, events[|events| - 1]);
            && Settlings(after) == Settlings(after[..k]) + (if e.InflationSettles? then 1 else 0)
            && GzipCount(ArrivalsOf(after))
               == GzipCount(ArrivalsOf(after[..k])) + (if e.Arrives? && e.m.gzip then 1 else 0)
  {
    hide GzipCount;
    if after[|after| - 1].Arrives? {
      GzipCountSnoc(ArrivalsOf(after[..|after| - 1]), after[|after| - 1].m);
    }
  }

  /**
   After the first break, at event k, a message gets its turn if and only if it is plain, the
   inflations outstanding at k have settled, and no gzip frame has come since k.
   */
  lemma SurvivesExactly(events: seq<Event>, k: nat, j: nat)
    requires k < j < |events| && BreaksAt(events, k) && !Breaks(events[..k]) && events[j].Arrives?
    ensures Survives(PhaseAfter(Healthy(0), events[..j]), events[j].m) <==>
            && !events[j].m.gzip
            && Settlings(events[k + 1..j]) >= Outstanding(events[..k])
            && GzipCount(ArrivalsOf(events[k + 1..j])) == 0
  {
    hide Breaks, PhaseAfter, Outstanding, Settlings, GzipCount, ArrivalsOf;
    assert events[..j][..k] == events[..k] && events[..j][k + 1..] == events[k + 1..j];
    AfterBreak(events[..j], k);
  }

  /** Stopped with a gzip frame counted, a run is wedged: whatever comes, nothing gets its turn. */
  lemma {:induction false} WedgedForever(n: nat, events: seq<Event>)
    requires n > 0
    ensures PhaseAfter(Stopped(n), events).Stopped? && PhaseAfter(Stopped(n), events).stuck >= n
    ensures Sorted(Stopped(n), events) == ([], ArrivalsOf(events))
    decreases |events|
  {
    if events != [] {
      WedgedForever(n, events[..|events| - 1]);
    }
  }

  /** A gzip frame, then text whose handler throws and text behind it; then the frame settles. */
  function LosingScript(g: Message, thrower: Message, text: Message): seq<Event> {
    [Arrives(g), Arrives(thrower), Arrives(text), InflationSettles]
  }

  /** That loses the text; later text is handled again, until a gzip frame wedges control for good. */
  lemma LosingRun(g: Message, thrower: Message, text: Message)
    requires g.gzip && Thrower(thrower) && !text.gzip
    ensures var events := LosingScript(g, thrower, text);
            && BreaksAt(events, 1)
            && Sorted(Healthy(0), events) == ([g, thrower], [text])
            && PhaseAfter(Healthy(0), events) == Stopped(0)
            && Survives(Stopped(0), text) && OnArrival(Stopped(0), g) == Stopped(1)
  {
    hide PhaseAfter, Sorted, Outstanding;
    var one, two := [Arrives(g)], [Arrives(g), Arrives(thrower)];
    var three := two + [Arrives(text)];
    OneInflation(g);
    assert LosingScript(g, thrower, text)[..1] == one;
    assert one + [Arrives(thrower)] == two && three + [InflationSettles] == LosingScript(g, thrower, text);
    assert [g] + [thrower] == [g, thrower] && [] + [text] == [text];
    ScriptOf(one, Arrives(thrower), Healthy(1), [g], []);
    ScriptOf(two, Arrives(text), Doomed(1, 0), [g, thrower], []);
    ScriptOf(three, InflationSettles, Doomed(1, 0), [g, thrower], [text]);
  }

  lemma OneInflation(g: Message)
    requires g.gzip
    ensures Outstanding([Arrives(g)]) == 1
    ensures PhaseAfter(Healthy(0), [Arrives(g)]) == Healthy(1) && Sorted(Healthy(0), [Arrives(g)]) == ([g], [])
  {
    assert [Arrives(g)][..0] == [] && [] + [g] == [g];
  }

  /** A script known so far, with one more event. */
  lemma ScriptOf(events: seq<Event>, e: Event, p: Phase, live: seq<Message>, lost: seq<Message>)
    requires PhaseAfter(Healthy(0), events) == p && Sorted(Healthy(0), events) == (live, lost)
    ensures PhaseAfter(Healthy(0), events + [e]) == if e.Arrives? then OnArrival(p, e.m) else Quiesce(CountOff(p))
    ensures Sorted(Healthy(0), events + [e]) ==
            if e.InflationSettles? then (live, lost)
            else if Survives(p, e.m) then (live + [e.m], lost) else (live, lost + [e.m])
  {
    assert (events + [e])[..|events|] == events;
  }

  // ----- The chain

  /** The callbacks that will run, up to and with the first that throws, and those behind it. */
  function Split(chain: seq<Message>): (seq<Message>, seq<Message>) {
    if chain == [] then ([], [])
    else if Thrower(chain[0]) then ([chain[0]], chain[1..])
    else
      var (runs, dies) := Split(chain[1..]);
      ([chain[0]] + runs, dies)
  }

  predicate HasThrower(ms: seq<Message>) {
    ms != [] && (Thrower(ms[0]) || HasThrower(ms[1..]))
  }

  lemma {:induction false} SplitSnoc(chain: seq<Message>, m: Message)
    ensures var (runs, dies) := Split(chain);
            && Split(chain + [m]) == (if HasThrower(chain) then (runs, dies + [m]) else (runs + [m], []))
            && HasThrower(chain + [m]) == (HasThrower(chain) || Thrower(m))
            && (!HasThrower(chain) ==> dies == [])
    decreases |chain|
  {
    if chain == [] {
      assert chain + [m] == [m] && [m][1..] == [] && [m] + [] == [] + [m];
    } else {
      assert (chain + [m])[0] == chain[0] && (chain + [m])[1..] == chain[1..] + [m];
      SplitSnoc(chain[1..], m);
      var runs := Split(chain[1..]).0;
      Regroup([chain[0]], runs, [m]);
    }
  }

  lemma {:induction false} SplitCounts(chain: seq<Message>)
    ensures GzipCount(chain) == GzipCount(Split(chain).0) + GzipCount(Split(chain).1)
    ensures HasThrower(chain) ==> chain != []
    decreases |chain|
  {
    if chain != [] {
      var (runs, dies) := Split(chain);
      GzipCountHead(chain);
      GzipCountHead(runs);
      if Thrower(chain[0]) {
        assert [chain[0]][1..] == [];
      } else {
        SplitCounts(chain[1..]);
        assert runs[1..] == Split(chain[1..]).0;
      }
    }
  }

  /** The phase a dispatcher is in. */
  function PhaseOf(chain: seq<Message>, rejected: bool, pending: nat): Phase {
    if rejected then Stopped(pending)
    else if HasThrower(chain) then Doomed(GzipCount(Split(chain).0), GzipCount(Split(chain).1))
    else Healthy(pending)
  }

  /** Taking a head that does not throw off the chain counts it off and nothing else. */
  lemma HeadPhase(chain: seq<Message>, pending: nat)
    requires chain != [] && !Thrower(chain[0]) && pending == GzipCount(chain)
    ensures var p := PhaseOf(chain, false, pending);
            PhaseOf(chain[1..], false, GzipCount(chain[1..])) == if chain[0].gzip then CountOff(p) else p
  {
    GzipCountHead(chain);
    var runs := Split(chain).0;
    GzipCountHead(runs);
    assert runs[1..] == Split(chain[1..]).0;
  }

  lemma ThrowPhase(chain: seq<Message>)
    requires chain != [] && Thrower(chain[0])
    ensures PhaseOf(chain, false, GzipCount(chain)) == Doomed(0, GzipCount(chain[1..]))
  {
    GzipCountHead(Split(chain).0);
    assert [chain[0]][1..] == [];
  }

  lemma QueuedPhase(chain: seq<Message>, m: Message)
    requires m.gzip || GzipCount(chain) > 0
    ensures GzipCount(chain + [m]) == GzipCount(chain) + (if m.gzip then 1 else 0)
    ensures PhaseOf(chain + [m], false, GzipCount(chain + [m]))
         == OnArrival(PhaseOf(chain, false, GzipCount(chain)), m)
  {
    hide GzipCount, HasThrower;
    GzipCountSnoc(chain, m);
    SplitSnoc(chain, m);
    SplitCounts(chain);
    SplitCounts(chain + [m]);
    GzipCountSnoc(Split(chain).0, m);
    GzipCountSnoc(Split(chain).1, m);
    NoGzips([]);
  }

  lemma NoGzips(ms: seq<Message>)
    requires ms == []
    ensures GzipCount(ms) == 0 && !HasThrower(ms) && Split(ms) == ([], [])
  {
  }

  /** A gzip head means an inflation outstanding, and one ahead of any thrower. */
  lemma GzipHead(chain: seq<Message>)
    requires chain != [] && chain[0].gzip
    ensures GzipCount(chain) > 0
    ensures var p := PhaseOf(chain, false, GzipCount(chain)); !p.Stopped? && (p.Doomed? ==> p.ahead > 0)
  {
    GzipCountHead(chain);
    GzipCountHead(Split(chain).0);
  }

  // ----- Arrival order

  /**
   Every arrival is accounted for: those that get their turn were dealt with or wait their turn, in
   arrival order, the others were skipped or are going to be; and the handler saw the former.
   */
  predicate Accounted(live: seq<Message>, lost: seq<Message>, done: seq<Message>, skipped: seq<Message>,
                      chain: seq<Message>, dispatched: seq<nat>) {
    live == done + Split(chain).0 && lost == skipped + Split(chain).1 && dispatched == Handled(done)
  }

  /** What has arrived is what was dealt with followed by what waits. */
  predicate Ordered(arrived: seq<Message>, done: seq<Message>, chain: seq<Message>) {
    arrived == done + chain
  }

  // ----- The dispatcher

  class Dispatcher {
    var chain: seq<Message>        // callbacks waiting on the promise chain, the running one first
    var inflating: bool            // the first one's inflation is in progress
    var pending: nat               // gzip frames not yet through
    var rejected: bool             // the chain's promise is rejected
    var dispatched: seq<nat>       // messages given to the handler

    ghost var arrived: seq<Message>
    ghost var done: seq<Message>     // messages fully dealt with
    ghost var skipped: seq<Message>  // messages whose callback never runs
    ghost var live: seq<Message>     // arrivals that get their turn, now or later
    ghost var lost: seq<Message>     // arrivals that never do

    /** pending counts the gzip frames left; only a gzip frame is ever being inflated. */
    ghost predicate Valid()
      reads this
    {
      && pending == GzipCount(chain) + GzipCount(skipped)
      && (inflating ==> chain != [] && chain[0].gzip)
      && (if rejected then chain == [] else skipped == [])
    }

    /** Nothing is repeated or overtaken, and nothing lost except to a rejected chain. */
    ghost predicate InOrder()
      reads this
    {
      && Accounted(live, lost, done, skipped, chain, dispatched)
      && (!rejected ==> Ordered(arrived, done, chain))
    }

    ghost function PhaseNow(): Phase
      reads this
    {
      PhaseOf(chain, rejected, pending)
    }

    /** The invariant at macrotask boundaries: the chain is empty, or its head is a gzip frame in flight. */
    ghost predicate Settled()
      reads this
    {
      Valid() && if chain == [] then !inflating && (!rejected ==> pending == 0) else inflating
    }

    constructor ()
      ensures Settled() && InOrder() && PhaseNow() == Healthy(0)
      ensures arrived == [] && live == [] && lost == [] && dispatched == []
    {
      chain, inflating, pending, rejected, dispatched := [], false, 0, false, [];
      arrived, done, skipped, live, lost := [], [], [], [], [];
    }

    /**
     websocket.onmessage for a control message, called at any moment. Order survives it, and on a
     live chain for a message not seen before survives it only, when it is not plain text arriving
     while the pending count is already zero but earlier callbacks still wait on the chain. What is
     put on a rejected chain, or on one behind a message that will throw, is lost.
     */
    method OnMessage(m: Message)
      requires Valid()
      modifies this
      ensures Valid() && arrived == old(arrived) + [m] && inflating == old(inflating) && rejected == old(rejected)
      ensures old(InOrder()) && (m.gzip || old(pending) > 0 || old(chain) == []) ==> InOrder()
      ensures !rejected && m !in old(arrived) && InOrder() ==>
                old(InOrder()) && (m.gzip || old(pending) > 0 || old(chain) == [])
      ensures chain == if !rejected && (m.gzip || old(pending) > 0) then old(chain) + [m] else old(chain)
      ensures skipped == if rejected && (m.gzip || old(pending) > 0) then old(skipped) + [m] else old(skipped)
      ensures dispatched == old(dispatched) + if m.gzip || old(pending) > 0 then [] else [m.id]
      ensures var loses := (m.gzip || old(pending) > 0) && (rejected || HasThrower(old(chain)));
              (live, lost) == if loses then (old(live), old(lost) + [m]) else (old(live) + [m], old(lost))
      ensures pending == old(pending) + if m.gzip then 1 else 0
      ensures PhaseNow() == OnArrival(old(PhaseNow()), m)
    {
      hide Accounted, Ordered, GzipCount, HasThrower;
      if m.gzip || pending > 0 {
        NoGzips([]);
        if rejected {
          Skip(m);
        } else {
          Enqueue(m);
        }
        if m.gzip {
          pending := pending + 1;
        }
      } else {
        DispatchNow(m);
      }
    }

    method Enqueue(m: Message)
      requires Valid() && !rejected && (m.gzip || pending > 0)
      modifies this`chain, this`arrived, this`live, this`lost
      ensures pending + (if m.gzip then 1 else 0) == GzipCount(chain) && skipped == []
      ensures arrived == old(arrived) + [m] && chain == old(chain) + [m]
      ensures inflating ==> chain[0].gzip
      ensures InOrder() <==> old(InOrder())
      ensures (live, lost) ==
                if HasThrower(old(chain)) then (old(live), old(lost) + [m]) else (old(live) + [m], old(lost))
      ensures PhaseOf(chain, false, GzipCount(chain)) == OnArrival(old(PhaseNow()), m)
    {
      hide Accounted, Ordered, GzipCount, HasThrower, Split;
      NoGzips([]);
      QueuedPhase(chain, m);
      QueueingIsOrdered(arrived, done, chain, m);
      QueueingIsAccounted(live, lost, done, skipped, chain, dispatched, m);
      live, lost := if HasThrower(chain) then live else live + [m], if HasThrower(chain) then lost + [m] else lost;
      chain := chain + [m];
      arrived := arrived + [m];
    }

    /** A callback put on a rejected chain never runs. */
    method Skip(m: Message)
      requires Valid() && rejected
      modifies this`arrived, this`skipped, this`lost
      ensures pending + (if m.gzip then 1 else 0) == GzipCount(chain) + GzipCount(skipped)
      ensures arrived == old(arrived) + [m] && skipped == old(skipped) + [m] && lost == old(lost) + [m]
      ensures old(InOrder()) ==> InOrder()
    {
      hide Accounted, Ordered, GzipCount, HasThrower, Split;
      GzipCountSnoc(skipped, m);
      SkippingIsAccounted(live, lost, done, skipped, dispatched, m);
      skipped, lost := skipped + [m], lost + [m];
      arrived := arrived + [m];
    }

    /** With nothing pending, plain text is handled on the spot. */
    method DispatchNow(m: Message)
      requires Valid() && !m.gzip && pending == 0
      modifies this`dispatched, this`arrived, this`done, this`live
      ensures Valid() && PhaseNow() == old(PhaseNow()) == OnArrival(old(PhaseNow()), m)
      ensures arrived == old(arrived) + [m] && dispatched == old(dispatched) + [m.id] && live == old(live) + [m]
      ensures old(InOrder()) && chain == [] ==> InOrder()
      ensures !rejected && m !in old(arrived) && InOrder() ==> old(InOrder()) && chain == []
    {
      hide Accounted, Ordered, GzipCount, HasThrower, Split;
      OvertakingShows(arrived, done, chain, m);
      DispatchingIsAccounted(live, lost, done, skipped, dispatched, m);
      dispatched := dispatched + [m.id];
      done, live := done + [m], live + [m];
      arrived := arrived + [m];
    }

    /** The head's inflation settles: handle it, or skip it, and let the chain move on. */
    method OnInflationSettled()
      requires Valid() && inflating
      modifies this
      ensures Valid() && !inflating && chain == old(chain)[1..] && rejected == old(rejected) == false
      ensures dispatched == old(dispatched) + if old(chain)[0].inflates then [old(chain)[0].id] else []
      ensures arrived == old(arrived) && live == old(live) && lost == old(lost)
      ensures pending == old(pending) - 1 && PhaseNow() == CountOff(old(PhaseNow()))
      ensures old(InOrder()) ==> InOrder()
    {
      hide Accounted, Ordered, HasThrower, Split;
      var head := chain[0];
      GzipCountHead(chain);
      HeadPhase(chain, pending);
      MoveHead(arrived, live, lost, done, skipped, chain, dispatched);
      if head.inflates {
        dispatched := dispatched + [head.id];
      }
      pending := pending - 1;
      inflating := false;
      done := done + [head];
      chain := chain[1..];
    }

    /** A deferred plain message is handled in its turn; if the handler throws, the rest never runs. */
    method RunPlainHead()
      requires Valid() && chain != [] && !inflating && !chain[0].gzip
      modifies this
      ensures Valid() && !inflating && |chain| < |old(chain)|
      ensures arrived == old(arrived) && live == old(live) && lost == old(lost)
      ensures dispatched == old(dispatched) + [old(chain)[0].id]
      ensures rejected == old(chain)[0].throws && pending == old(pending)
      ensures if rejected then chain == [] && skipped == old(chain)[1..] else chain == old(chain)[1..]
      ensures Quiesce(PhaseNow()) == Quiesce(old(PhaseNow()))
      ensures old(InOrder()) ==> InOrder()
    {
      hide Accounted, Ordered, HasThrower, Split;
      var head := chain[0];
      GzipCountHead(chain);
      NoGzips([]);
      if head.throws {
        ThrowPhase(chain);
        ThrowingIsAccounted(live, lost, done, skipped, chain, dispatched);
        rejected := true;
        skipped := chain[1..];
        chain := [];
      } else {
        HeadPhase(chain, pending);
        MoveHead(arrived, live, lost, done, skipped, chain, dispatched);
        chain := chain[1..];
      }
      dispatched := dispatched + [head.id];
      done := done + [head];
    }

    /** The microtasks that follow: plain callbacks run, the next gzip frame starts inflating. */
    method DrainMicrotasks()
      requires Valid()
      modifies this
      ensures Settled() && arrived == old(arrived) && live == old(live) && lost == old(lost)
      ensures pending == old(pending) && PhaseNow() == Quiesce(old(PhaseNow()))
      ensures old(InOrder()) ==> InOrder()
      ensures old(rejected) ==> rejected && dispatched == old(dispatched)
    {
      hide Accounted, Ordered, HasThrower, Split, GzipCount;
      while chain != [] && !inflating
        invariant Valid() && arrived == old(arrived) && live == old(live) && lost == old(lost)
        invariant pending == old(pending) && Quiesce(PhaseNow()) == Quiesce(old(PhaseNow()))
        invariant old(InOrder()) ==> InOrder()
        invariant old(rejected) ==> rejected && dispatched == old(dispatched)
        decreases |chain|, if inflating then 0 else 1
      {
        if chain[0].gzip {
          inflating := true;
        } else {
          RunPlainHead();
        }
      }
      AtRest();
    }

    /** Between two events of the loop, no message that will throw is next in turn. */
    lemma AtRest()
      requires Valid() && (chain == [] || inflating)
      ensures Settled() && Quiesce(PhaseNow()) == PhaseNow()
      ensures chain == [] <==> PhaseNow() == Healthy(0) || rejected
      ensures !inflating ==> CountOff(PhaseNow()) == PhaseNow()
      ensures inflating ==> pending > 0
    {
      if chain != [] {
        GzipHead(chain);
      }
    }

    /**
     Any sequence of arrivals and settling inflations, each followed by its microtasks. The script
     alone decides: every message gets its turn or is lost as `Sorted` says, those that do in arrival
     order, and all of them have been handled once the chain is empty.
     */
    method Run(events: seq<Event>)
      requires Settled() && InOrder()
      modifies this
      ensures Settled() && InOrder()
      ensures arrived == old(arrived) + ArrivalsOf(events)
      ensures PhaseNow() == PhaseAfter(old(PhaseNow()), events)
      ensures live == old(live) + Sorted(old(PhaseNow()), events).0
      ensures lost == old(lost) + Sorted(old(PhaseNow()), events).1
      ensures dispatched == Handled(done) && done <= live
      ensures chain == [] <==> PhaseNow() == Healthy(0) || PhaseNow().Stopped?
      ensures chain == [] ==> done == live && skipped == lost
    {
      hide Accounted, Ordered, GzipCount, HasThrower, Split, Survives, OnArrival;
      ghost var start := PhaseNow();
      for k := 0 to |events|
        invariant Settled() && InOrder()
        invariant arrived == old(arrived) + ArrivalsOf(events[..k])
        invariant PhaseNow() == PhaseAfter(start, events[..k])
        invariant live == old(live) + Sorted(start, events[..k]).0
        invariant lost == old(lost) + Sorted(start, events[..k]).1
      {
        AtRest();
        ScriptStep(start, events, k);
        match events[k] {
          case Arrives(m) =>
            FateAtRest(m);
            OnMessage(m);
          case InflationSettles => if inflating { OnInflationSettled(); }
        }
        DrainMicrotasks();
      }
      assert events[..|events|] == events;
      AtRest();
      AllDone(live, lost, done, skipped, chain, dispatched);
    }

    /** Between two events, what becomes of a message is what its phase says. */
    lemma FateAtRest(m: Message)
      requires Settled()
      ensures Survives(PhaseNow(), m) <==> !((m.gzip || pending > 0) && (rejected || HasThrower(chain)))
      ensures m.gzip || pending > 0 || chain == []
      ensures Quiesce(OnArrival(PhaseNow(), m)) == OnArrival(PhaseNow(), m)
    {
      AtRest();
    }
  }

  /**
   A whole session, from a fresh dispatcher. Control messages are handled in arrival order; with every
   inflation settled all of them are, unless a plain message whose handler throws was deferred behind
   an inflation. That alone rejects the chain, and what is handled then is what `Sorted` says.
   */
  method Session(events: seq<Event>) returns (d: Dispatcher)
    ensures fresh(d) && d.Settled() && d.InOrder()
    ensures d.arrived == ArrivalsOf(events)
    ensures d.chain == [] <==> var p := PhaseAfter(Healthy(0), events); p == Healthy(0) || p.Stopped?
    ensures !Breaks(events) ==> !d.rejected && (d.chain == [] <==> Outstanding(events) == 0)
    ensures !Breaks(events) && Outstanding(events) == 0 ==> d.dispatched == Handled(ArrivalsOf(events))
    ensures d.chain == [] ==> (d.rejected <==> Breaks(events))
    ensures d.chain == [] ==> d.dispatched == Handled(Sorted(Healthy(0), events).0)
    ensures d.chain == [] ==> d.skipped == Sorted(Healthy(0), events).1
  {
    d := new Dispatcher();
    d.Run(events);
    HealthyExactly(events);
    var (live, lost) := Sorted(Healthy(0), events);
    assert [] + live == live && [] + lost == lost && [] + ArrivalsOf(events) == ArrivalsOf(events);
  }

  lemma ScriptStep(start: Phase, events: seq<Event>, k: nat)
    requires k < |events|
    ensures var before, e := PhaseAfter(start, events[..k]), events[k];
            && PhaseAfter(start, events[..k + 1])
               == (if e.Arrives? then OnArrival(before, e.m) else Quiesce(CountOff(before)))
            && ArrivalsOf(events[..k + 1])
               == (if e.Arrives? then ArrivalsOf(events[..k]) + [e.m] else ArrivalsOf(events[..k]))
            && var (live, lost) := Sorted(start, events[..k]);
               Sorted(start, events[..k + 1]) ==
               if e.InflationSettles? then (live, lost)
               else if Survives(before, e.m) then (live + [e.m], lost) else (live, lost + [e.m])
  {
    assert events[..k + 1][..k] == events[..k];
  }

  lemma AllDone(live: seq<Message>, lost: seq<Message>, done: seq<Message>, skipped: seq<Message>,
                chain: seq<Message>, dispatched: seq<nat>)
    requires Accounted(live, lost, done, skipped, chain, dispatched)
    ensures dispatched == Handled(done) && done <= live
    ensures chain == [] ==> done == live && skipped == lost
  {
  }

  lemma QueueingIsAccounted(live: seq<Message>, lost: seq<Message>, done: seq<Message>, skipped: seq<Message>,
                            chain: seq<Message>, dispatched: seq<nat>, m: Message)
    requires skipped == []
    ensures Accounted(live, lost, done, skipped, chain, dispatched) <==>
              if HasThrower(chain) then Accounted(live, lost + [m], done, skipped, chain + [m], dispatched)
              else Accounted(live + [m], lost, done, skipped, chain + [m], dispatched)
  {
    hide Handled, HasThrower;
    var (runs, dies) := Split(chain);
    SplitSnoc(chain, m);
    Regroup(done, runs, [m]);
    Regroup(skipped, dies, [m]);
    AppendInjective(live, done + runs, m);
    AppendInjective(lost, skipped + dies, m);
  }

  lemma SkippingIsAccounted(live: seq<Message>, lost: seq<Message>, done: seq<Message>, skipped: seq<Message>,
                            dispatched: seq<nat>, m: Message)
    ensures Accounted(live, lost, done, skipped, [], dispatched) ==>
              Accounted(live, lost + [m], done, skipped + [m], [], dispatched)
  {
    hide Handled;
    assert skipped + [] == skipped && (skipped + [m]) + [] == skipped + [m];
  }

  lemma DispatchingIsAccounted(live: seq<Message>, lost: seq<Message>, done: seq<Message>, skipped: seq<Message>,
                               dispatched: seq<nat>, m: Message)
    requires !m.gzip
    ensures Accounted(live, lost, done, skipped, [], dispatched) <==>
            Accounted(live + [m], lost, done + [m], skipped, [], dispatched + [m.id])
  {
    hide Handled;
    HandledSnoc(done, m);
    AppendInjective(live, done, m);
    AppendInjective(dispatched, Handled(done), m.id);
    assert done + [] == done && (done + [m]) + [] == done + [m];
  }

  lemma HeadMoves<T>(a: seq<T>, b: seq<T>)
    requires b != []
    ensures (a + [b[0]]) + b[1..] == a + b
  {
  }

  /** Dealing with a head that does not throw keeps arrivals accounted for and in order. */
  lemma MoveHead(arrived: seq<Message>, live: seq<Message>, lost: seq<Message>, done: seq<Message>,
                 skipped: seq<Message>, chain: seq<Message>, dispatched: seq<nat>)
    requires chain != [] && !Thrower(chain[0])
    ensures Ordered(arrived, done, chain) ==> Ordered(arrived, done + [chain[0]], chain[1..])
    ensures Accounted(live, lost, done, skipped, chain, dispatched) ==>
              Accounted(live, lost, done + [chain[0]], skipped, chain[1..],
                        dispatched + if chain[0].gzip && !chain[0].inflates then [] else [chain[0].id])
  {
    hide Handled;
    HandledSnoc(done, chain[0]);
    HeadMoves(done, chain);
    var runs := Split(chain).0;
    assert runs[1..] == Split(chain[1..]).0;
    HeadMoves(done, runs);
  }

  /** A head that throws is dealt with, and what was behind it is what was going to be lost. */
  lemma ThrowingIsAccounted(live: seq<Message>, lost: seq<Message>, done: seq<Message>, skipped: seq<Message>,
                            chain: seq<Message>, dispatched: seq<nat>)
    requires chain != [] && Thrower(chain[0]) && skipped == []
    ensures Accounted(live, lost, done, skipped, chain, dispatched) ==>
              Accounted(live, lost, done + [chain[0]], chain[1..], [], dispatched + [chain[0].id])
  {
    hide Handled;
    HandledSnoc(done, chain[0]);
    assert (done + [chain[0]]) + [] == done + [chain[0]] && chain[1..] + [] == [] + chain[1..];
  }

  lemma AppendInjective<T>(a: seq<T>, b: seq<T>, x: T)
    ensures a + [x] == b + [x] <==> a == b
  {
    if a + [x] == b + [x] {
      assert (a + [x])[..|a|] == a && (b + [x])[..|b|] == b;
      assert |a + [x]| == |b + [x]|;
    }
  }

  lemma QueueingIsOrdered(arrived: seq<Message>, done: seq<Message>, chain: seq<Message>, m: Message)
    ensures Ordered(arrived + [m], done, chain + [m]) <==> Ordered(arrived, done, chain)
  {
    Regroup(done, chain, [m]);
    AppendInjective(arrived, done + chain, m);
  }

  lemma OvertakenRepeats<T>(before: seq<T>, handled: seq<T>, waiting: seq<T>, m: T)
    requires waiting != [] && before + [m] == (handled + [m]) + waiting
    ensures m in before
  {
    assert (before + [m])[|handled|] == m;
    assert |before| == |handled| + |waiting|;
    assert before[|handled|] == m;
  }

  /** Handling m at once is arrival order with nothing waiting, and for a new m only then. */
  lemma OvertakingShows(arrived: seq<Message>, done: seq<Message>, chain: seq<Message>, m: Message)
    ensures Ordered(arrived, done, chain) && chain == [] ==> Ordered(arrived + [m], done + [m], chain)
    ensures m !in arrived && Ordered(arrived + [m], done + [m], chain) ==>
              Ordered(arrived, done, chain) && chain == []
  {
    if chain == [] {
      assert (done + [m]) + chain == done + [m] && done + chain == done;
      AppendInjective(arrived, done, m);
    } else if arrived + [m] == (done + [m]) + chain {
      OvertakenRepeats(arrived, done, chain, m);
    }
  }
}
