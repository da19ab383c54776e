/**
 Reference counting in the fake libudev: contexts, and the devices, enumerates, monitors and
 queues built on them. The caller's own ledger of held references is part of the state, so that
 the invariant can say what every counter means.
 */
module RefCounts {

  datatype Kind = Dev | Enumerate | Monitor | Queue

  /** A live object: the context it was built on and its own counter. */
  datatype Obj = Obj(kind: Kind, ctx: nat, nRef: int)

  /**
   Live contexts with their n_ref, live objects, the next fresh address, the caller's ledger of
   held references per context and per object, and everything passed to free() so far.
   */
  datatype State = State(
    contexts: map<nat, int>, objs: map<nat, Obj>, nextId: nat,
    heldCtx: map<nat, nat>, heldObj: map<nat, nat>, freed: set<nat>)

  const EMPTY := State(map[], map[], 0, map[], map[], {})

  // ----- What each call does

  function NewContext(s: State): State {
    s.(contexts := s.contexts[s.nextId := 1], heldCtx := s.heldCtx[s.nextId := 1], nextId := s.nextId + 1)
  }

  function RefContext(s: State, c: nat): State
    requires c in s.contexts && c in s.heldCtx
  {
    s.(contexts := s.contexts[c := s.contexts[c] + 1], heldCtx := s.heldCtx[c := s.heldCtx[c] + 1])
  }

  function UnrefContext(s: State, c: nat): State
    requires c in s.contexts && c in s.heldCtx && s.heldCtx[c] > 0
  {
    if s.contexts[c] - 1 <= 0 then
      s.(contexts := s.contexts - {c}, heldCtx := s.heldCtx - {c}, freed := s.freed + {c})
    else
      s.(contexts := s.contexts[c := s.contexts[c] - 1], heldCtx := s.heldCtx[c := s.heldCtx[c] - 1])
  }

  /** A new object takes over one of the caller's references to its context. */
  function Attach(s: State, kind: Kind, c: nat): State
    requires c in s.contexts && c in s.heldCtx && s.heldCtx[c] > 0
  {
    s.(objs := s.objs[s.nextId := Obj(kind, c, 1)], heldObj := s.heldObj[s.nextId := 1], nextId := s.nextId + 1,
       heldCtx := s.heldCtx[c := s.heldCtx[c] - 1])
  }

  /** A freed object's context reference passes to whoever freed it. */
  function Detach(s: State, o: nat): State
    requires o in s.objs && s.objs[o].ctx in s.heldCtx
  {
    var c := s.objs[o].ctx;
    s.(objs := s.objs - {o}, heldObj := s.heldObj - {o}, freed := s.freed + {o},
       heldCtx := s.heldCtx[c := s.heldCtx[c] + 1])
  }

  /** Any of the four constructors: udev_ref on the context, then the object. */
  function NewObject(s: State, kind: Kind, c: nat): State
    requires c in s.contexts && c in s.heldCtx
  {
    Attach(RefContext(s, c), kind, c)
  }

  function RefObject(s: State, o: nat): State
    requires o in s.objs && o in s.heldObj
  {
    s.(objs := s.objs[o := s.objs[o].(nRef := s.objs[o].nRef + 1)], heldObj := s.heldObj[o := s.heldObj[o] + 1])
  }

  /** The last reference frees the object and gives its context reference back. */
  function UnrefObject(s: State, o: nat): State
    requires o in s.objs && o in s.heldObj && s.heldObj[o] > 0
    requires s.objs[o].ctx in s.contexts && s.objs[o].ctx in s.heldCtx
  {
    if s.objs[o].nRef - 1 <= 0 then UnrefContext(Detach(s, o), s.objs[o].ctx)
    else DropOne(s, o)
  }

  function DropOne(s: State, o: nat): State
    requires o in s.objs && o in s.heldObj && s.heldObj[o] > 0
  {
    s.(objs := s.objs[o := s.objs[o].(nRef := s.objs[o].nRef - 1)], heldObj := s.heldObj[o := s.heldObj[o] - 1])
  }

  // ----- The invariant

  ghost function BuiltOn(objs: map<nat, Obj>, c: nat): set<nat> {
    set o | o in objs && objs[o].ctx == c
  }

  /** n_ref of every context is what the caller holds plus the objects built on it. */
  ghost predicate Balanced(s: State) {
    && s.contexts.Keys == s.heldCtx.Keys
    && forall c :: c in s.contexts ==> s.contexts[c] > 0 && s.contexts[c] == s.heldCtx[c] + |BuiltOn(s.objs, c)|
  }

  /** No live object points at a freed context, and its own counter is what the caller holds. */
  ghost predicate Anchored(s: State) {
    && s.objs.Keys == s.heldObj.Keys
    && forall o :: o in s.objs ==> s.objs[o].ctx in s.contexts && s.objs[o].nRef > 0 && s.objs[o].nRef == s.heldObj[o]
  }

  /** Every address handed out is live as exactly one thing, or has been freed. */
  ghost predicate Partitioned(s: State) {
    && (forall c :: c in s.contexts ==> c !in s.objs && c !in s.freed)
    && (forall o :: o in s.objs ==> o !in s.freed)
    && forall id: nat :: id in s.contexts || id in s.objs || id in s.freed <==> id < s.nextId
  }

  ghost predicate Inv(s: State) {
    Balanced(s) && Anchored(s) && Partitioned(s)
  }

  lemma BuiltOnInsert(objs: map<nat, Obj>, o: nat, obj: Obj, c: nat)
    requires o !in objs
    ensures |BuiltOn(objs[o := obj], c)| == |BuiltOn(objs, c)| + if obj.ctx == c then 1 else 0
  {
    assert BuiltOn(objs[o := obj], c) == BuiltOn(objs, c) + if obj.ctx == c then {o} else {};
  }

  lemma BuiltOnRemove(objs: map<nat, Obj>, o: nat, c: nat)
    requires o in objs
    ensures |BuiltOn(objs - {o}, c)| == |BuiltOn(objs, c)| - if objs[o].ctx == c then 1 else 0
  {
    BuiltOnInsert(objs - {o}, o, objs[o], c);
    assert (objs - {o})[o := objs[o]] == objs;
  }

  lemma NewContextKeepsInv(s: State)
    requires Inv(s)
    ensures Inv(NewContext(s))
  {
    assert BuiltOn(s.objs, s.nextId) == {};
  }

  lemma RefContextKeepsInv(s: State, c: nat)
    requires Inv(s) && c in s.contexts
    ensures Inv(RefContext(s, c))
  {
  }

  /** A context goes exactly when the caller's last reference does and nothing is built on it. */
  lemma UnrefContextKeepsInv(s: State, c: nat)
    requires Inv(s) && c in s.contexts && s.heldCtx[c] > 0
    ensures Inv(UnrefContext(s, c))
    ensures c !in UnrefContext(s, c).contexts <==> s.heldCtx[c] == 1 && BuiltOn(s.objs, c) == {}
  {
    hide UnrefContext, Balanced, Anchored, Partitioned, BuiltOn;
    Facts(s, c, 0);
    NothingBuiltOn(s, c);
    UnrefBalances(s, c);
    UnrefAnchors(s, c);
    UnrefPartitions(s, c);
    UnrefRemoves(s, c);
  }

  lemma NothingBuiltOn(s: State, c: nat)
    requires Balanced(s) && c in s.contexts && s.heldCtx[c] > 0
    ensures s.contexts[c] - 1 <= 0 <==> s.heldCtx[c] == 1 && BuiltOn(s.objs, c) == {}
    ensures s.contexts[c] - 1 <= 0 ==> forall o :: o in s.objs ==> s.objs[o].ctx != c
  {
    if s.contexts[c] - 1 <= 0 {
      assert BuiltOn(s.objs, c) == {};
      forall o | o in s.objs ensures s.objs[o].ctx != c {
        assert o !in BuiltOn(s.objs, c);
      }
    }
  }

  lemma UnrefRemoves(s: State, c: nat)
    requires c in s.contexts && c in s.heldCtx && s.heldCtx[c] > 0
    ensures c !in UnrefContext(s, c).contexts <==> s.contexts[c] - 1 <= 0
  {
  }

  lemma UnrefBalances(s: State, c: nat)
    requires Balanced(s) && c in s.contexts && s.heldCtx[c] > 0
    ensures Balanced(UnrefContext(s, c))
  {
    hide BuiltOn;
  }

  lemma UnrefAnchors(s: State, c: nat)
    requires Anchored(s) && c in s.contexts && c in s.heldCtx && s.heldCtx[c] > 0
    requires s.contexts[c] - 1 <= 0 ==> forall o :: o in s.objs ==> s.objs[o].ctx != c
    ensures Anchored(UnrefContext(s, c))
  {
  }

  lemma UnrefPartitions(s: State, c: nat)
    requires Partitioned(s) && c in s.contexts && c in s.heldCtx && s.heldCtx[c] > 0
    ensures Partitioned(UnrefContext(s, c))
  {
  }

  lemma AttachKeepsInv(s: State, kind: Kind, c: nat)
    requires Inv(s) && c in s.contexts && s.heldCtx[c] > 0
    ensures Inv(Attach(s, kind, c))
  {
    hide Attach, Balanced, Anchored, Partitioned;
    Facts(s, c, 0);
    AttachBalances(s, kind, c);
    AttachAnchors(s, kind, c);
    AttachPartitions(s, kind, c);
  }

  lemma AttachBalances(s: State, kind: Kind, c: nat)
    requires Balanced(s) && Partitioned(s) && c in s.contexts && s.heldCtx[c] > 0
    ensures Balanced(Attach(s, kind, c))
  {
    hide BuiltOn, Anchored;
    var r := Attach(s, kind, c);
    forall k ensures |BuiltOn(r.objs, k)| == |BuiltOn(s.objs, k)| + if c == k then 1 else 0 {
      BuiltOnInsert(s.objs, s.nextId, Obj(kind, c, 1), k);
    }
  }

  lemma AttachAnchors(s: State, kind: Kind, c: nat)
    requires Anchored(s) && c in s.contexts && c in s.heldCtx && s.heldCtx[c] > 0
    ensures Anchored(Attach(s, kind, c))
  {
  }

  lemma AttachPartitions(s: State, kind: Kind, c: nat)
    requires Partitioned(s) && c in s.contexts && c in s.heldCtx && s.heldCtx[c] > 0
    ensures Partitioned(Attach(s, kind, c))
  {
  }

  lemma DetachKeepsInv(s: State, o: nat)
    requires Inv(s) && o in s.objs
    ensures Inv(Detach(s, o))
  {
    hide Detach, Balanced, Partitioned;
    Facts(s, s.objs[o].ctx, o);
    DetachBalances(s, o);
    DetachAnchors(s, o);
    DetachPartitions(s, o);
  }

  lemma DetachBalances(s: State, o: nat)
    requires Balanced(s) && o in s.objs && s.objs[o].ctx in s.contexts
    ensures Balanced(Detach(s, o))
  {
    hide BuiltOn;
    var r := Detach(s, o);
    forall k ensures |BuiltOn(r.objs, k)| == |BuiltOn(s.objs, k)| - if s.objs[o].ctx == k then 1 else 0 {
      BuiltOnRemove(s.objs, o, k);
    }
  }

  lemma DetachAnchors(s: State, o: nat)
    requires Anchored(s) && o in s.objs && s.objs[o].ctx in s.heldCtx
    ensures Anchored(Detach(s, o))
  {
  }

  lemma DetachPartitions(s: State, o: nat)
    requires Partitioned(s) && o in s.objs && s.objs[o].ctx in s.heldCtx
    ensures Partitioned(Detach(s, o))
  {
  }

  lemma RefObjectKeepsInv(s: State, o: nat)
    requires Inv(s) && o in s.objs
    ensures Inv(RefObject(s, o))
  {
    assert forall k :: BuiltOn(RefObject(s, o).objs, k) == BuiltOn(s.objs, k);
  }

  lemma DropOneKeepsInv(s: State, o: nat)
    requires Inv(s) && o in s.objs && s.heldObj[o] > 1
    ensures Inv(DropOne(s, o))
  {
    assert forall k :: BuiltOn(DropOne(s, o).objs, k) == BuiltOn(s.objs, k);
  }

  /** What the invariant says about a single context and object, without its quantifiers. */
  lemma Facts(s: State, c: nat, o: nat)
    requires Inv(s)
    ensures c in s.contexts <==> c in s.heldCtx
    ensures o in s.objs <==> o in s.heldObj
    ensures o in s.objs ==> s.objs[o].ctx in s.contexts && s.objs[o].ctx in s.heldCtx
    ensures o in s.objs ==> o !in s.contexts && o !in s.freed
    ensures o in s.objs ==> s.objs[o].nRef == s.heldObj[o] > 0
    ensures s.nextId !in s.contexts && s.nextId !in s.objs
  {
  }

  // ----- Whole runs

  datatype Op =
    | OpNewContext
    | OpRefContext(c: nat)
    | OpUnrefContext(c: nat)
    | OpNewObject(kind: Kind, c: nat)
    | OpParentOf(o: nat)
    | OpRefObject(o: nat)
    | OpUnrefObject(o: nat)

  /** One call. A call on something not live, or releasing a reference not held, is not made. */
  function Next(s: State, op: Op): State
    requires s.contexts.Keys == s.heldCtx.Keys && s.objs.Keys == s.heldObj.Keys
    requires forall o :: o in s.objs ==> s.objs[o].ctx in s.contexts
  {
    match op
    case OpNewContext => NewContext(s)
    case OpRefContext(c) => if c in s.contexts then RefContext(s, c) else s
    case OpUnrefContext(c) => if c in s.contexts && s.heldCtx[c] > 0 then UnrefContext(s, c) else s
    case OpNewObject(kind, c) => if c in s.contexts then NewObject(s, kind, c) else s
    case OpParentOf(o) => if o in s.objs && s.objs[o].kind == Dev then NewObject(s, Dev, s.objs[o].ctx) else s
    case OpRefObject(o) => if o in s.objs then RefObject(s, o) else s
    case OpUnrefObject(o) => if o in s.objs && s.heldObj[o] > 0 then UnrefObject(s, o) else s
  }

  lemma StepKeepsInv(s: State, op: Op)
    requires Inv(s)
    ensures Inv(Next(s, op)) && s.freed <= Next(s, op).freed && s.nextId <= Next(s, op).nextId
  {
    OnlyFreesMore(s, op);
    hide Balanced, Partitioned;
    match op {
      case OpNewContext => NewContextKeepsInv(s);
      case OpRefContext(c) => if c in s.contexts { RefContextKeepsInv(s, c); }
      case OpUnrefContext(c) => if c in s.contexts && s.heldCtx[c] > 0 { UnrefContextKeepsInv(s, c); }
      case OpNewObject(kind, c) => if c in s.contexts { NewObjectKeepsInv(s, kind, c); }
      case OpParentOf(o) => if o in s.objs { NewObjectKeepsInv(s, Dev, s.objs[o].ctx); }
      case OpRefObject(o) => if o in s.objs { RefObjectKeepsInv(s, o); }
      case OpUnrefObject(o) => if o in s.objs { UnrefObjectKeepsInv(s, o); }
    }
  }

  lemma OnlyFreesMore(s: State, op: Op)
    requires s.contexts.Keys == s.heldCtx.Keys && s.objs.Keys == s.heldObj.Keys
    requires forall o :: o in s.objs ==> s.objs[o].ctx in s.contexts
    ensures s.freed <= Next(s, op).freed && s.nextId <= Next(s, op).nextId
  {
  }

  lemma NewObjectKeepsInv(s: State, kind: Kind, c: nat)
    requires Inv(s) && c in s.contexts
    ensures Inv(NewObject(s, kind, c))
  {
    RefContextKeepsInv(s, c);
    var mid := RefContext(s, c);
    AttachKeepsInv(mid, kind, c);
  }

  lemma UnrefObjectKeepsInv(s: State, o: nat)
    requires Inv(s) && o in s.objs
    ensures Inv(UnrefObject(s, o))
  {
    hide Inv;
    Facts(s, s.objs[o].ctx, o);
    if s.objs[o].nRef - 1 <= 0 {
      DetachKeepsInv(s, o);
      var d := Detach(s, o);
      UnrefContextKeepsInv(d, s.objs[o].ctx);
    } else {
      DropOneKeepsInv(s, o);
    }
  }

  /**
   The last unref of an object frees it, once, and frees its context too exactly when the caller
   holds no reference to that and nothing else is built on it; nothing else is freed.
   */
  lemma LastUnrefFrees(s: State, o: nat)
    requires Inv(s) && o in s.objs
    ensures var r, c := UnrefObject(s, o), s.objs[o].ctx;
            && (o !in r.objs <==> s.heldObj[o] == 1)
            && (c !in r.contexts <==> s.heldObj[o] == 1 && s.heldCtx[c] == 0 && BuiltOn(s.objs, c) == {o})
            && r.freed == s.freed + (if o in r.objs then {} else {o}) + (if c in r.contexts then {} else {c})
  {
    hide Inv;
    var c := s.objs[o].ctx;
    Facts(s, c, o);
    assert o in BuiltOn(s.objs, c);
    if s.objs[o].nRef - 1 <= 0 {
      var d := Detach(s, o);
      DetachKeepsInv(s, o);
      UnrefContextKeepsInv(d, c);
      assert BuiltOn(d.objs, c) == BuiltOn(s.objs, c) - {o};
    }
  }

  function Run(s: State, ops: seq<Op>): State
    requires Inv(s)
    decreases |ops|
  {
    if ops == [] then s else
      StepKeepsInv(s, ops[0]);
      Run(Next(s, ops[0]), ops[1..])
  }

  /**
   In every state a well-behaved caller can reach: each context's counter is the caller's references
   plus the objects built on it and no live object points at freed memory. What has been freed stays
   freed and nothing live is among it, so nothing is freed twice.
   */
  lemma {:induction false} RunKeepsInv(s: State, ops: seq<Op>)
    requires Inv(s)
    ensures Inv(Run(s, ops)) && s.freed <= Run(s, ops).freed && s.nextId <= Run(s, ops).nextId
    decreases |ops|
  {
    if ops != [] {
      StepKeepsInv(s, ops[0]);
      RunKeepsInv(Next(s, ops[0]), ops[1..]);
    }
  }

  // ----- The counters, from the calls alone

  /** A call a well-behaved caller makes: on something live, and releasing only what is held. */
  predicate Legal(s: State, op: Op)
    requires s.contexts.Keys == s.heldCtx.Keys
  {
    match op
    case OpNewContext => true
    case OpRefContext(c) => c in s.contexts
    case OpUnrefContext(c) => c in s.contexts && s.heldCtx[c] > 0
    case OpNewObject(_, c) => c in s.contexts
    case OpParentOf(o) => o in s.objs && s.objs[o].kind == Dev
    case OpRefObject(o) => o in s.objs
    case OpUnrefObject(o) => o in s.objs
  }

  ghost predicate LegalRun(s: State, ops: seq<Op>)
    requires Inv(s)
    decreases |ops|
  {
    ops == [] || (Legal(s, ops[0]) && (StepKeepsInv(s, ops[0]); LegalRun(Next(s, ops[0]), ops[1..])))
  }

  /** References taken on an object by these calls, less those released. */
  function Balance(ops: seq<Op>, o: nat): int {
    if ops == [] then 0
    else (if ops[0] == OpRefObject(o) then 1 else if ops[0] == OpUnrefObject(o) then -1 else 0) + Balance(ops[1..], o)
  }

  function ContextBalance(ops: seq<Op>, c: nat): int {
    if ops == [] then 0
    else (if ops[0] == OpRefContext(c) then 1 else if ops[0] == OpUnrefContext(c) then -1 else 0)
         + ContextBalance(ops[1..], c)
  }

  /** Releasing undoes taking. */
  lemma RefThenUnref(s: State, o: nat)
    requires Inv(s) && o in s.objs
    ensures UnrefObject(RefObject(s, o), o) == s
  {
    hide Inv;
    Facts(s, s.objs[o].ctx, o);
    var r := RefObject(s, o);
    assert r.objs[o := r.objs[o].(nRef := r.objs[o].nRef - 1)] == s.objs;
    assert r.heldObj[o := r.heldObj[o] - 1] == s.heldObj;
  }

  lemma RefThenUnrefContext(s: State, c: nat)
    requires Inv(s) && c in s.contexts
    ensures UnrefContext(RefContext(s, c), c) == s
  {
    hide Inv;
    ContextFacts(s, c);
    var r := RefContext(s, c);
    assert r.contexts[c := r.contexts[c] - 1] == s.contexts && r.heldCtx[c := r.heldCtx[c] - 1] == s.heldCtx;
  }

  lemma ContextFacts(s: State, c: nat)
    requires Inv(s)
    ensures c in s.contexts <==> c in s.heldCtx
    ensures c in s.contexts ==> s.contexts[c] == s.heldCtx[c] + |BuiltOn(s.objs, c)| && s.contexts[c] > 0
    ensures c !in s.contexts ==> BuiltOn(s.objs, c) == {}
    ensures c in s.contexts ==> c < s.nextId
  {
  }

  /** An object is made with one reference, on the context asked for; a parent on its child's. */
  lemma MadeWithOne(s: State, op: Op)
    requires Inv(s) && Legal(s, op) && (op.OpNewObject? || op.OpParentOf?)
    ensures var r := Next(s, op);
            s.nextId in r.objs && r.nextId == s.nextId + 1
            && r.objs[s.nextId] == if op.OpNewObject? then Obj(op.kind, op.c, 1) else Obj(Dev, s.objs[op.o].ctx, 1)
  {
  }

  lemma ContextMadeWithOne(s: State)
    requires Inv(s)
    ensures Next(s, OpNewContext).contexts == s.contexts[s.nextId := 1]
    ensures Next(s, OpNewContext).nextId == s.nextId + 1
  {
  }

  lemma Coherent(s: State)
    requires Inv(s)
    ensures s.contexts.Keys == s.heldCtx.Keys && s.objs.Keys == s.heldObj.Keys
    ensures forall o :: o in s.objs ==> s.objs[o].ctx in s.contexts
  {
  }

  /** One legal call moves an object's counter by what it takes or releases, and 0 is the end of it. */
  lemma ObjectStep(s: State, op: Op, o: nat)
    requires Inv(s) && o in s.objs && Legal(s, op)
    ensures var (r, n) := (Next(s, op), s.objs[o].nRef + Balance([op], o));
            && n >= 0 && (o in r.objs <==> n > 0)
            && (n > 0 ==> r.objs[o] == s.objs[o].(nRef := n))
            && (n == 0 ==> o in r.freed)
  {
    hide Inv;
    Facts(s, s.objs[o].ctx, o);
    assert [op][1..] == [];
    if op.OpUnrefObject? {
      Facts(s, s.objs[op.o].ctx, op.o);
    }
  }

  lemma BalanceSplit(ops: seq<Op>, o: nat)
    requires ops != []
    ensures Balance(ops, o) == Balance([ops[0]], o) + Balance(ops[1..], o)
    ensures ContextBalance(ops, o) == ContextBalance([ops[0]], o) + ContextBalance(ops[1..], o)
  {
    assert [ops[0]][1..] == [];
  }

  /** Nobody legally refers to what was freed. */
  lemma {:induction false} GoneStaysGone(s: State, ops: seq<Op>, o: nat)
    requires Inv(s) && o in s.freed && LegalRun(s, ops)
    ensures Balance(ops, o) == 0 && o in Run(s, ops).freed && o !in Run(s, ops).objs
    decreases |ops|
  {
    FreedIsDead(s, o);
    if ops != [] {
      StepKeepsInv(s, ops[0]);
      GoneStaysGone(Next(s, ops[0]), ops[1..], o);
    }
  }

  lemma FreedIsDead(s: State, o: nat)
    requires Inv(s) && o in s.freed
    ensures o !in s.objs && o !in s.contexts
  {
  }

  /**
   Over any run of legal calls an object's counter is what it was, plus the references the calls took
   on it, less those they released; it lives exactly while that is positive, and is freed at 0.
   */
  lemma {:induction false} ObjectLedger(s: State, ops: seq<Op>, o: nat)
    requires Inv(s) && o in s.objs && LegalRun(s, ops)
    ensures var (r, n) := (Run(s, ops), s.objs[o].nRef + Balance(ops, o));
            && n >= 0 && (o in r.objs <==> n > 0)
            && (n > 0 ==> r.objs[o] == s.objs[o].(nRef := n))
            && (n == 0 ==> o in r.freed)
    decreases |ops|
  {
    hide Inv, Next;
    Coherent(s);
    Facts(s, 0, o);
    if ops != [] {
      StepKeepsInv(s, ops[0]);
      ObjectStep(s, ops[0], o);
      BalanceSplit(ops, o);
      var next := Next(s, ops[0]);
      if o in next.objs {
        ObjectLedger(next, ops[1..], o);
      } else {
        GoneStaysGone(next, ops[1..], o);
      }
    }
  }

  /** A context's held references move by what a call takes or releases. */
  lemma ContextStep(s: State, op: Op, c: nat)
    requires Inv(s) && c in s.contexts && Legal(s, op)
    ensures var (r, h) := (Next(s, op), s.heldCtx[c] + ContextBalance([op], c));
            && (c in r.contexts ==> c in r.heldCtx && r.heldCtx[c] == h)
            && (c !in r.contexts ==> h == 0 && c in r.freed)
  {
    hide Inv;
    ContextFacts(s, c);
    assert [op][1..] == [];
    match op {
      case OpUnrefContext(d) => ContextFacts(s, d);
      case OpUnrefObject(o) =>
        Facts(s, s.objs[o].ctx, o);
        ContextFacts(s, s.objs[o].ctx);
        LastUnrefFrees(s, o);
      case OpNewObject(_, d) => ContextFacts(s, d);
      case OpParentOf(o) => Facts(s, s.objs[o].ctx, o);
      case _ =>
    }
  }

  lemma {:induction false} GoneContextStaysGone(s: State, ops: seq<Op>, c: nat)
    requires Inv(s) && c in s.freed && LegalRun(s, ops)
    ensures ContextBalance(ops, c) == 0 && c in Run(s, ops).freed && c !in Run(s, ops).contexts
    decreases |ops|
  {
    FreedIsDead(s, c);
    if ops != [] {
      StepKeepsInv(s, ops[0]);
      GoneContextStaysGone(Next(s, ops[0]), ops[1..], c);
    }
  }

  /**
   And a context's counter is the references the calls took on it less those they released, plus the
   objects on it; it lives exactly while that is positive.
   */
  lemma {:induction false} ContextLedger(s: State, ops: seq<Op>, c: nat)
    requires Inv(s) && c in s.contexts && LegalRun(s, ops)
    ensures var (r, h) := (Run(s, ops), s.heldCtx[c] + ContextBalance(ops, c));
            && h >= 0 && (c in r.contexts <==> h + |BuiltOn(r.objs, c)| > 0)
            && (c in r.contexts ==> r.contexts[c] == h + |BuiltOn(r.objs, c)|)
            && (c !in r.contexts ==> c in r.freed)
    decreases |ops|
  {
    hide Inv, Next;
    Coherent(s);
    ContextFacts(s, c);
    if ops != [] {
      StepKeepsInv(s, ops[0]);
      ContextStep(s, ops[0], c);
      BalanceSplit(ops, c);
      var next := Next(s, ops[0]);
      if c in next.contexts {
        ContextLedger(next, ops[1..], c);
      } else {
        GoneContextStaysGone(next, ops[1..], c);
        RunKeepsInv(next, ops[1..]);
        ContextFacts(Run(next, ops[1..]), c);
      }
    }
  }

  lemma EmptyIsFine()
    ensures Inv(EMPTY)
  {
  }

  ghost predicate CallerHoldsNothing(s: State) {
    (forall c :: c in s.heldCtx ==> s.heldCtx[c] == 0) && forall o :: o in s.heldObj ==> s.heldObj[o] == 0
  }

  /** Once the caller holds nothing, everything ever allocated has been freed. */
  lemma NothingLeaks(s: State)
    requires Inv(s) && CallerHoldsNothing(s)
    ensures s.contexts == map[] && s.objs == map[] && forall id: nat :: id in s.freed <==> id < s.nextId
  {
    forall o ensures o !in s.objs {
      assert o in s.objs ==> o in s.heldObj;
    }
    forall c ensures c !in s.contexts {
      assert BuiltOn(s.objs, c) == {};
      assert c in s.contexts ==> c in s.heldCtx;
    }
  }

  // ----- The library itself, counters updated in place

  class Library {
    var contexts: map<nat, int>
    var objs: map<nat, Obj>
    var nextId: nat
    ghost var heldCtx: map<nat, nat>
    ghost var heldObj: map<nat, nat>
    ghost var freed: set<nat>

    ghost function Abs(): State
      reads this
    {
      State(contexts, objs, nextId, heldCtx, heldObj, freed)
    }

    constructor ()
      ensures Abs() == EMPTY && Inv(Abs())
    {
      contexts, objs, nextId := map[], map[], 0;
      heldCtx, heldObj, freed := map[], map[], {};
    }

    method UdevNew() returns (c: nat)
      requires Inv(Abs())
      modifies this
      ensures Inv(Abs()) && c == old(nextId) && Abs() == NewContext(old(Abs()))
    {
      hide Inv;
      NewContextKeepsInv(Abs());
      c := nextId;
      contexts, heldCtx, nextId := contexts[c := 1], heldCtx[c := 1], nextId + 1;
    }

    method UdevRef(c: nat)
      requires Inv(Abs()) && c in contexts
      modifies this
      ensures Inv(Abs()) && Abs() == RefContext(old(Abs()), c)
    {
      hide Inv;
      Facts(Abs(), c, 0);
      RefContextKeepsInv(Abs(), c);
      contexts, heldCtx := contexts[c := contexts[c] + 1], heldCtx[c := heldCtx[c] + 1];
    }

    method UdevUnref(c: nat) returns (stillLive: bool)
      requires Inv(Abs()) && c in contexts && heldCtx[c] > 0
      modifies this
      ensures Inv(Abs()) && Abs() == UnrefContext(old(Abs()), c)
      ensures stillLive <==> c in contexts
    {
      hide Inv;
      Facts(Abs(), c, 0);
      UnrefContextKeepsInv(Abs(), c);
      var n := contexts[c] - 1;
      if n <= 0 {
        contexts, heldCtx, freed := contexts - {c}, heldCtx - {c}, freed + {c};
        return false;
      }
      contexts, heldCtx := contexts[c := n], heldCtx[c := heldCtx[c] - 1];
      return true;
    }

    /** udev_device_new_*, udev_enumerate_new, udev_monitor_new_from_netlink, udev_queue_new. */
    method NewOn(kind: Kind, c: nat) returns (o: nat)
      requires Inv(Abs()) && c in contexts
      modifies this
      ensures Inv(Abs()) && o == old(nextId) && Abs() == NewObject(old(Abs()), kind, c)
    {
      hide Inv;
      Facts(Abs(), c, 0);
      NewObjectKeepsInv(Abs(), kind, c);
      UdevRef(c);
      o := nextId;
      nextId := nextId + 1;
      objs, heldObj := objs[o := Obj(kind, c, 1)], heldObj[o := 1];
      heldCtx := heldCtx[c := heldCtx[c] - 1]; // the reference just taken is the object's
    }

    method RefOf(o: nat)
      requires Inv(Abs()) && o in objs
      modifies this
      ensures Inv(Abs()) && Abs() == RefObject(old(Abs()), o)
    {
      hide Inv;
      Facts(Abs(), 0, o);
      RefObjectKeepsInv(Abs(), o);
      objs, heldObj := objs[o := objs[o].(nRef := objs[o].nRef + 1)], heldObj[o := heldObj[o] + 1];
    }

    /** udev_device_unref and its three siblings. */
    method UnrefOf(o: nat) returns (stillLive: bool)
      requires Inv(Abs()) && o in objs
      modifies this
      ensures Inv(Abs()) && Abs() == UnrefObject(old(Abs()), o)
      ensures stillLive <==> o in objs
    {
      hide Inv;
      Facts(Abs(), 0, o);
      UnrefObjectKeepsInv(Abs(), o);
      LastUnrefFrees(Abs(), o);
      DetachKeepsInv(Abs(), o);
      var n := objs[o].nRef - 1;
      if n <= 0 {
        var c := objs[o].ctx;
        heldCtx := heldCtx[c := heldCtx[c] + 1]; // the object's reference, on its way back
        objs, heldObj, freed := objs - {o}, heldObj - {o}, freed + {o};
        var _ := UdevUnref(c);
        return false;
      }
      objs, heldObj := objs[o := objs[o].(nRef := n)], heldObj[o := heldObj[o] - 1];
      return true;
    }
  }
}
