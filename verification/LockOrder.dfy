/** The server's locks: every path takes them in one order, so some thread can always go on. */
module LockOrder {
  import opened Basics

  /** cli_rw_lock; a client's rw_lock and mutex; the tree's rw_lock. */
  datatype Lock = Clients | ClientRw(c: nat) | ClientMutex(c: nat) | TreeRw

  function Rank(l: Lock): (r: nat)
    ensures r <= 3
  {
    match l
    case Clients => 0
    case ClientRw(_) => 1
    case ClientMutex(_) => 2
    case TreeRw => 3
  }

  datatype Action = Acq(l: Lock, write: bool) | Rel(l: Lock)

  // ---- what each path does with locks

  /** client__recv */
  function Recv(c: nat): seq<Action> { [Acq(ClientRw(c), false), Rel(ClientRw(c))] }

  /** client__send, up to the check that the client is open, and after it */
  function Send(c: nat, open: bool): seq<Action> {
    [Acq(ClientRw(c), false), Rel(ClientRw(c))] + if open then [Acq(ClientMutex(c), true), Rel(ClientMutex(c))] else []
  }

  /** The table and the tree, one after the other: client__sub0 and client__unsub0 */
  function Table(c: nat, tree: bool): seq<Action> {
    [Acq(ClientMutex(c), true), Rel(ClientMutex(c))] + if tree then [Acq(TreeRw, true), Rel(TreeRw)] else []
  }

  /** The search for a publication and its deliveries */
  function Publish(ts: seq<Target>): seq<Action> { [Acq(TreeRw, false), Rel(TreeRw)] + DeliverAll(ts) }

  /** broker__deliver_msg: a target is sent to only when it was found. */
  datatype Target = Target(c: nat, found: bool, open: bool)

  function DeliverMsg(t: Target): seq<Action> {
    [Acq(Clients, false)] + (if t.found then Send(t.c, t.open) else []) + [Rel(Clients)]
  }

  function DeliverAll(ts: seq<Target>): seq<Action> {
    if ts == [] then [] else DeliverMsg(ts[0]) + DeliverAll(ts[1..])
  }

  /** What a request may do; the flags stand for the branches that the data decides. */
  datatype Request =
    | Echo(open: bool)
    | Pub(found: bool, targets: seq<Target>, reply: bool, open: bool)
    | Sub(asked: bool, tree: bool, reply: bool, open: bool)

  function Handle(c: nat, r: Request): seq<Action> {
    match r
    case Echo(open) => Send(c, open)
    case Pub(found, ts, reply, open) => (if found then Publish(ts) else []) + if reply then Send(c, open) else []
    case Sub(asked, tree, reply, open) => (if asked then Table(c, tree) else []) + if reply then Send(c, open) else []
  }

  function HandleAll(c: nat, rs: seq<Request>): seq<Action> {
    if rs == [] then [] else Recv(c) + Handle(c, rs[0]) + HandleAll(c, rs[1..])
  }

  /** broker__destroy_client; the batch under the mutex runs when the client has a table of subscribers. */
  function Destroy(c: nat, subs: bool): seq<Action> {
    [Acq(Clients, true), Rel(Clients)]
    + (if subs then [Acq(ClientMutex(c), true), Acq(TreeRw, true), Rel(TreeRw), Rel(ClientMutex(c))] else [])
    + [Acq(ClientRw(c), true), Rel(ClientRw(c))]
  }

  /** A client's thread, from its first read to its end: the loop ends at a read, or right after a failed request. */
  function Program(c: nat, rs: seq<Request>, read: bool, subs: bool): seq<Action> {
    HandleAll(c, rs) + (if read then Recv(c) else []) + Destroy(c, subs)
  }

  // ---- the order

  type Held = map<Lock, bool>

  /** Locks are taken in strictly rising rank, given back only when held, and all given back at the end. */
  ghost predicate Disciplined(todo: seq<Action>, held: Held) {
    if todo == [] then held == map[]
    else match todo[0]
      case Acq(l, w) => (forall k :: k in held ==> Rank(k) < Rank(l)) && Disciplined(todo[1..], held[l := w])
      case Rel(l) => l in held && Disciplined(todo[1..], held - {l})
  }

  /** The same for a stretch of code that runs with `base` held throughout. */
  ghost predicate Neat(todo: seq<Action>, held: Held, base: Held) {
    if todo == [] then held == base
    else match todo[0]
      case Acq(l, w) => (forall k :: k in held ==> Rank(k) < Rank(l)) && Neat(todo[1..], held[l := w], base)
      case Rel(l) => l in held && l !in base && Neat(todo[1..], held - {l}, base)
  }

  lemma {:induction false} NeatThen(a: seq<Action>, b: seq<Action>, held: Held, base: Held)
    requires Neat(a, held, base) && Disciplined(b, base)
    ensures Disciplined(a + b, held)
    decreases |a|
  {
    if a == [] {
      assert a + b == b;
    } else {
      assert (a + b)[1..] == a[1..] + b;
      match a[0]
      case Acq(l, w) => NeatThen(a[1..], b, held[l := w], base);
      case Rel(l) => NeatThen(a[1..], b, held - {l}, base);
    }
  }

  lemma {:induction false} NeatNeat(a: seq<Action>, b: seq<Action>, held: Held, base: Held)
    requires Neat(a, held, base) && Neat(b, base, base)
    ensures Neat(a + b, held, base)
    decreases |a|
  {
    if a == [] {
      assert a + b == b;
    } else {
      assert (a + b)[1..] == a[1..] + b;
      match a[0]
      case Acq(l, w) => NeatNeat(a[1..], b, held[l := w], base);
      case Rel(l) => NeatNeat(a[1..], b, held - {l}, base);
    }
  }

  /** Taking a lock above all held, running code that is neat with it, and giving it back, is neat. */
  lemma NeatInside(l: Lock, w: bool, inner: seq<Action>, base: Held)
    requires forall k :: k in base ==> Rank(k) < Rank(l)
    requires Neat(inner, base[l := w], base[l := w])
    ensures Neat([Acq(l, w)] + inner + [Rel(l)], base, base)
  {
    assert l !in base;
    InsideRel(l, w, inner, base[l := w], base);
    assert ([Acq(l, w)] + inner + [Rel(l)])[1..] == inner + [Rel(l)];
  }

  lemma {:induction false} InsideRel(l: Lock, w: bool, inner: seq<Action>, held: Held, base: Held)
    requires l !in base && Neat(inner, held, base[l := w])
    ensures Neat(inner + [Rel(l)], held, base)
    decreases |inner|
  {
    if inner == [] {
      assert inner + [Rel(l)] == [Rel(l)];
      assert base[l := w] - {l} == base && [Rel(l)][1..] == [];
      assert Neat([], base, base);
    } else {
      assert (inner + [Rel(l)])[1..] == inner[1..] + [Rel(l)];
      match inner[0]
      case Acq(k, v) => InsideRel(l, w, inner[1..], held[k := v], base);
      case Rel(k) => InsideRel(l, w, inner[1..], held - {k}, base);
    }
  }

  lemma NeatOne(l: Lock, w: bool, base: Held)
    requires forall k :: k in base ==> Rank(k) < Rank(l)
    ensures Neat([Acq(l, w), Rel(l)], base, base)
  {
    NeatInside(l, w, [], base);
    assert [Acq(l, w)] + [] + [Rel(l)] == [Acq(l, w), Rel(l)];
  }

  lemma SendNeat(c: nat, open: bool, base: Held)
    requires forall k :: k in base ==> k == Clients
    ensures Neat(Send(c, open), base, base)
  {
    hide Neat;
    NeatOne(ClientRw(c), false, base);
    if open {
      NeatOne(ClientMutex(c), true, base);
      NeatNeat([Acq(ClientRw(c), false), Rel(ClientRw(c))], [Acq(ClientMutex(c), true), Rel(ClientMutex(c))], base,
          base);
    } else {
      assert Send(c, open) == [Acq(ClientRw(c), false), Rel(ClientRw(c))];
    }
  }

  lemma {:induction false} DeliverNeat(ts: seq<Target>)
    ensures Neat(DeliverAll(ts), map[], map[])
  {
    if ts != [] {
      hide Neat;
      var t := ts[0];
      var inner := if t.found then Send(t.c, t.open) else [];
      var base := map[][Clients := false];
      if t.found { SendNeat(t.c, t.open, base); } else { NeatEmpty(base); }
      NeatInside(Clients, false, inner, map[]);
      DeliverNeat(ts[1..]);
      NeatNeat(DeliverMsg(t), DeliverAll(ts[1..]), map[], map[]);
    }
  }

  lemma NeatEmpty(base: Held)
    ensures Neat([], base, base)
  {
  }

  lemma HandleNeat(c: nat, r: Request)
    ensures Neat(Handle(c, r), map[], map[])
  {
    hide Neat, Send, DeliverAll;
    NeatEmpty(map[]);
    match r
    case Echo(open) => SendNeat(c, open, map[]);
    case Pub(found, ts, reply, open) =>
      NeatOne(TreeRw, false, map[]);
      DeliverNeat(ts);
      SendNeat(c, open, map[]);
      NeatNeat([Acq(TreeRw, false), Rel(TreeRw)], DeliverAll(ts), map[], map[]);
      NeatNeat(if found then Publish(ts) else [], if reply then Send(c, open) else [], map[], map[]);
    case Sub(asked, tree, reply, open) =>
      NeatOne(ClientMutex(c), true, map[]);
      NeatOne(TreeRw, true, map[]);
      SendNeat(c, open, map[]);
      NeatNeat([Acq(ClientMutex(c), true), Rel(ClientMutex(c))],
          if tree then [Acq(TreeRw, true), Rel(TreeRw)] else [], map[], map[]);
      NeatNeat(if asked then Table(c, tree) else [], if reply then Send(c, open) else [], map[], map[]);
  }

  lemma {:induction false} HandleAllNeat(c: nat, rs: seq<Request>)
    ensures Neat(HandleAll(c, rs), map[], map[])
  {
    if rs != [] {
      hide Neat, Handle;
      NeatOne(ClientRw(c), false, map[]);
      HandleNeat(c, rs[0]);
      HandleAllNeat(c, rs[1..]);
      NeatNeat(Recv(c), Handle(c, rs[0]), map[], map[]);
      NeatNeat(Recv(c) + Handle(c, rs[0]), HandleAll(c, rs[1..]), map[], map[]);
    }
  }

  lemma DestroyNeat(c: nat, subs: bool)
    ensures Neat(Destroy(c, subs), map[], map[])
  {
    hide Neat;
    var batch := if subs then [Acq(ClientMutex(c), true), Acq(TreeRw, true), Rel(TreeRw), Rel(ClientMutex(c))] else [];
    NeatOne(Clients, true, map[]);
    NeatOne(ClientRw(c), true, map[]);
    NeatOne(TreeRw, true, map[][ClientMutex(c) := true]);
    NeatInside(ClientMutex(c), true, [Acq(TreeRw, true), Rel(TreeRw)], map[]);
    NeatEmpty(map[]);
    assert [Acq(ClientMutex(c), true)] + [Acq(TreeRw, true), Rel(TreeRw)] + [Rel(ClientMutex(c))]
        == [Acq(ClientMutex(c), true), Acq(TreeRw, true), Rel(TreeRw), Rel(ClientMutex(c))];
    NeatNeat([Acq(Clients, true), Rel(Clients)], batch, map[], map[]);
    NeatNeat([Acq(Clients, true), Rel(Clients)] + batch, [Acq(ClientRw(c), true), Rel(ClientRw(c))], map[], map[]);
  }

  /** Every path of the server keeps the order. */
  lemma ProgramDisciplined(c: nat, rs: seq<Request>, read: bool, subs: bool)
    ensures Disciplined(Program(c, rs, read, subs), map[])
  {
    hide Neat, Disciplined, HandleAll, Destroy;
    var last := if read then Recv(c) else [];
    NeatOne(ClientRw(c), false, map[]);
    NeatEmpty(map[]);
    HandleAllNeat(c, rs);
    DestroyNeat(c, subs);
    NeatNeat(HandleAll(c, rs), last, map[], map[]);
    NeatNeat(HandleAll(c, rs) + last, Destroy(c, subs), map[], map[]);
    EmptyDisciplined();
    NeatThen(Program(c, rs, read, subs), [], map[], map[]);
    assert Program(c, rs, read, subs) + [] == Program(c, rs, read, subs);
  }

  lemma EmptyDisciplined()
    ensures Disciplined([], map[])
  {
  }

  // ---- threads that take turns

  datatype Thread = Thread(todo: seq<Action>, held: Held)

  type State = seq<Thread>

  ghost predicate WantsWrite(s: State, u: nat, l: Lock) { u < |s| && s[u].todo != [] && s[u].todo[0] == Acq(l, true) }

  /**
   * A lock is granted to one writer or to many readers; when writers are preferred, a waiting one stops new readers.
   */
  ghost predicate Enabled(s: State, t: nat, prefer: bool) {
    && t < |s| && s[t].todo != []
    && match s[t].todo[0]
       case Rel(_) => true
       case Acq(l, write) =>
         if write then forall u :: 0 <= u < |s| ==> l !in s[u].held
         else
           && (forall u :: 0 <= u < |s| && l in s[u].held ==> !s[u].held[l])
           && (prefer ==> forall u :: 0 <= u < |s| ==> !WantsWrite(s, u, l))
  }

  function After(th: Thread): Thread
    requires th.todo != []
  {
    match th.todo[0]
    case Acq(l, w) => Thread(th.todo[1..], th.held[l := w])
    case Rel(l) => Thread(th.todo[1..], th.held - {l})
  }

  ghost predicate Step(s: State, s': State, t: nat, prefer: bool) {
    Enabled(s, t, prefer) && s' == s[t := After(s[t])]
  }

  /** The threads of any clients, each at the start of its program. */
  ghost predicate Init(s: State) {
    forall t :: 0 <= t < |s| ==>
      s[t].held == map[] &&
      exists c, rs, read, subs {:trigger Program(c, rs, read, subs)} :: s[t].todo == Program(c, rs, read, subs)
  }

  /** A lock held for writing is held by nobody else, and every thread keeps the order from here on. */
  ghost predicate Inv(s: State) {
    && (forall t :: 0 <= t < |s| ==> Disciplined(s[t].todo, s[t].held))
    && (forall t, u, l :: 0 <= t < |s| && 0 <= u < |s| && t != u && l in s[t].held && l in s[u].held ==> !s[t].held[l])
  }

  lemma InitInv(s: State)
    requires Init(s)
    ensures Inv(s)
  {
    forall t | 0 <= t < |s| ensures Disciplined(s[t].todo, s[t].held) {
      var c, rs, read, subs {:trigger Program(c, rs, read, subs)} :| s[t].todo == Program(c, rs, read, subs);
      ProgramDisciplined(c, rs, read, subs);
    }
  }

  lemma StepInv(s: State, s': State, t: nat, prefer: bool)
    requires Inv(s) && Step(s, s', t, prefer)
    ensures Inv(s')
  {
  }

  ghost predicate Next(s: State, s': State, prefer: bool) { exists t: nat :: Step(s, s', t, prefer) }

  ghost predicate Run(run: seq<State>, prefer: bool) {
    && run != [] && Init(run[0])
    && forall i: nat {:trigger Then(run, i)} :: i + 1 < |run| ==> Next(run[i], Then(run, i), prefer)
  }

  lemma {:induction false} RunInv(run: seq<State>, i: nat, prefer: bool)
    requires Run(run, prefer) && i < |run|
    ensures Inv(run[i])
  {
    hide Inv, Init, Step;
    if i == 0 {
      InitInv(run[0]);
    } else {
      RunInv(run, i - 1, prefer);
      assert Next(run[i - 1], Then(run, i - 1), prefer);
      var t: nat :| Step(run[i - 1], run[i], t, prefer);
      StepInv(run[i - 1], run[i], t, prefer);
    }
  }

  /** t waits to take a lock that u holds. */
  ghost predicate WaitsFor(s: State, t: nat, u: nat) {
    t < |s| && u < |s| && s[t].todo != [] && s[t].todo[0].Acq? && s[t].todo[0].l in s[u].held
  }

  function Wanted(s: State, t: nat): Lock
    requires t < |s| && s[t].todo != [] && s[t].todo[0].Acq?
  {
    s[t].todo[0].l
  }

  /** Whoever is waited for wants, if anything, a lock further up the order. */
  lemma WaitsUp(s: State, t: nat, u: nat)
    requires Inv(s) && WaitsFor(s, t, u)
    ensures t != u && s[u].todo != []
    ensures s[u].todo[0].Acq? ==> Rank(Wanted(s, t)) < Rank(Wanted(s, u))
  {
  }

  /** Every thread in the ring waits for the next one, and the last for the first. */
  ghost predicate Ring(s: State, ring: seq<nat>) {
    && ring != [] && (forall k :: 0 <= k < |ring| - 1 ==> WaitsFor(s, ring[k], ring[k + 1]))
    && WaitsFor(s, ring[|ring| - 1], ring[0])
  }

  /** No cycle of waiting threads. */
  lemma NoCycle(s: State, ring: seq<nat>)
    requires Inv(s)
    ensures !Ring(s, ring)
  {
    hide Inv;
    if Ring(s, ring) {
      Climb(s, ring, |ring| - 1);
      WaitsUp(s, ring[|ring| - 1], ring[0]);
    }
  }

  lemma {:induction false} Climb(s: State, ring: seq<nat>, i: nat)
    requires Inv(s) && Ring(s, ring) && i < |ring|
    ensures WaitsFor(s, ring[0], ring[if 1 < |ring| then 1 else 0]) &&
        WaitsFor(s, ring[i], ring[if i + 1 < |ring| then i + 1 else 0])
    ensures Rank(Wanted(s, ring[0])) <= Rank(Wanted(s, ring[i]))
  {
    hide Inv;
    if i > 0 {
      Climb(s, ring, i - 1);
      WaitsUp(s, ring[i - 1], ring[i]);
    }
  }

  /** A thread that cannot step waits for a holder, or behind a writer that can. */
  lemma Blocked(s: State, t: nat, prefer: bool) returns (u: nat)
    requires t < |s| && s[t].todo != [] && !Enabled(s, t, prefer)
    ensures WaitsFor(s, t, u) || Enabled(s, u, prefer)
  {
    var l := s[t].todo[0].l;
    if v :| 0 <= v < |s| && l in s[v].held {
      u := v;
    } else {
      u :| 0 <= u < |s| && WantsWrite(s, u, l);
    }
  }

  /** Main theorem: while a thread is not finished, some thread can step, whether or not writers are preferred. */
  lemma {:induction false} Progress(s: State, t: nat, prefer: bool) returns (u: nat)
    requires Inv(s) && t < |s| && s[t].todo != []
    ensures Enabled(s, u, prefer)
    decreases if s[t].todo[0].Acq? then 3 - Rank(s[t].todo[0].l) else 0
  {
    hide Inv;
    u := t;
    if !Enabled(s, t, prefer) {
      u := Blocked(s, t, prefer);
      if !Enabled(s, u, prefer) {
        WaitsUp(s, t, u);
        u := Progress(s, u, prefer);
      }
    }
  }

  /** Both hold in every reachable state. */
  lemma NoDeadlock(run: seq<State>, i: nat, t: nat, prefer: bool) returns (u: nat)
    requires Run(run, prefer) && i < |run| && t < |run[i]| && run[i][t].todo != []
    ensures Enabled(run[i], u, prefer) && forall ring :: !Ring(run[i], ring)
  {
    hide Inv;
    RunInv(run, i, prefer);
    u := Progress(run[i], t, prefer);
    forall ring ensures !Ring(run[i], ring) { NoCycle(run[i], ring); }
  }
}
