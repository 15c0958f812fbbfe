/**
 * Deliveries, arrivals and departures, as threads that take turns between lock operations. An address is free again
 * as soon as its client is freed, and an id as soon as its client has left the table.
 */
module Delivery {
  import opened Basics

  type Addr = nat

  /** Where a client's thread stands. A subscriber record that a publisher works from may be stale in every way. */
  datatype Pc =
    | Idle
    | WantRead(id: string, client: Addr)
    | Reading(id: string, client: Addr)
    | Sending(target: Addr)
    | Missed
    | WantWrite
    | Writing
    | Removed
    | Freeing

  datatype Thread = Thread(self: Addr, pc: Pc)

  /** `live` gives the id of the client at each address in use; `readers` and `writer` hold cli_rw_lock. */
  datatype State = State(table: map<string, Addr>, live: map<Addr, string>, threads: map<nat, Thread>,
                         readers: set<nat>, writer: int)

  ghost predicate Init(s: State) {
    s == State(map[], map[], map[], {}, -1)
  }

  function Goto(s: State, t: nat, pc: Pc): map<nat, Thread>
    requires t in s.threads
  {
    s.threads[t := s.threads[t].(pc := pc)]
  }

  /** broker__accept, in one step */
  ghost predicate Accept(s: State, s': State, t: nat, id: string, a: Addr) {
    && id !in s.table && a !in s.live && t !in s.threads
    && s' == s.(table := s.table[id := a], live := s.live[a := id], threads := s.threads[t := Thread(a, Idle)])
  }

  /** A publisher takes up a subscriber record: any id, any address. */
  ghost predicate Deliver(s: State, s': State, t: nat, id: string, client: Addr) {
    t in s.threads && s.threads[t].pc == Idle && s' == s.(threads := Goto(s, t, WantRead(id, client)))
  }

  ghost predicate LockRead(s: State, s': State, t: nat) {
    && t in s.threads && s.threads[t].pc.WantRead? && s.writer == -1
    && s' == s.(threads := Goto(s, t, Reading(s.threads[t].pc.id, s.threads[t].pc.client)), readers := s.readers + {t})
  }

  /** The record's client is the target only if the table has it under the record's id. */
  ghost predicate LookUp(s: State, s': State, t: nat) {
    && t in s.threads && s.threads[t].pc.Reading?
    && var pc := s.threads[t].pc;
       var found := pc.id in s.table && s.table[pc.id] == pc.client;
       s' == s.(threads := Goto(s, t, if found then Sending(pc.client) else Missed))
  }

  ghost predicate UnlockRead(s: State, s': State, t: nat) {
    && t in s.threads && (s.threads[t].pc.Sending? || s.threads[t].pc.Missed?)
    && s' == s.(threads := Goto(s, t, Idle), readers := s.readers - {t})
  }

  /** The client's loop ends. */
  ghost predicate Depart(s: State, s': State, t: nat) {
    t in s.threads && s.threads[t].pc == Idle && s' == s.(threads := Goto(s, t, WantWrite))
  }

  ghost predicate LockWrite(s: State, s': State, t: nat) {
    && t in s.threads && s.threads[t].pc == WantWrite && s.writer == -1 && s.readers == {}
    && s' == s.(threads := Goto(s, t, Writing), writer := t)
  }

  /** HASH_FIND_STR and HASH_DEL under the client's own id */
  ghost predicate Remove(s: State, s': State, t: nat) {
    && t in s.threads && s.threads[t].pc == Writing && s.threads[t].self in s.live
    && s' == s.(threads := Goto(s, t, Removed), table := s.table - {s.live[s.threads[t].self]})
  }

  ghost predicate UnlockWrite(s: State, s': State, t: nat) {
    && t in s.threads && s.threads[t].pc == Removed
    && s' == s.(threads := Goto(s, t, Freeing), writer := -1)
  }

  /** client__destroy frees the client, and the thread ends. */
  ghost predicate Free(s: State, s': State, t: nat) {
    && t in s.threads && s.threads[t].pc == Freeing
    && s' == s.(threads := s.threads - {t}, live := s.live - {s.threads[t].self})
  }

  ghost predicate Step(s: State, s': State, t: nat) {
    || (exists id, a :: Accept(s, s', t, id, a)) || (exists id, a :: Deliver(s, s', t, id, a))
    || LockRead(s, s', t) || LookUp(s, s', t) || UnlockRead(s, s', t)
    || Depart(s, s', t) || LockWrite(s, s', t) || Remove(s, s', t) || UnlockWrite(s, s', t) || Free(s, s', t)
  }

  ghost predicate Next(s: State, s': State) { exists t: nat :: Step(s, s', t) }

  /** The client at address a is in the table, under its own id. */
  ghost predicate Listed(s: State, a: Addr) {
    a in s.live && s.live[a] in s.table && s.table[s.live[a]] == a
  }

  ghost predicate Locks(s: State) {
    && s.readers <= s.threads.Keys && (s.writer >= 0 ==> s.readers == {}) && s.writer >= -1
    && (s.writer >= 0 ==> s.writer in s.threads)
    && forall t :: t in s.threads ==>
         && (t in s.readers <==> s.threads[t].pc.Reading? || s.threads[t].pc.Sending? || s.threads[t].pc.Missed?)
         && (t == s.writer <==> s.threads[t].pc.Writing? || s.threads[t].pc.Removed?)
  }

  /** Whether a thread's own client is still in the table at this point of its code. */
  predicate Before(pc: Pc) { !pc.Removed? && !pc.Freeing? }

  /** Every thread has a client of its own, which is not freed. */
  ghost predicate Selves(s: State) {
    && (forall t :: t in s.threads ==> s.threads[t].self in s.live)
    && (forall t, u :: t in s.threads && u in s.threads && s.threads[t].self == s.threads[u].self ==> t == u)
  }

  /** The table lists just the clients that have not left it, and a delivery goes to one of them. */
  ghost predicate Places(s: State) {
    && (forall id :: id in s.table ==> Listed(s, s.table[id]) && s.live[s.table[id]] == id)
    && Selves(s)
    && (forall t :: t in s.threads ==> (Listed(s, s.threads[t].self) <==> Before(s.threads[t].pc)))
    && (forall t :: t in s.threads && s.threads[t].pc.Sending? ==> Listed(s, s.threads[t].pc.target))
  }

  ghost predicate Inv(s: State) { Locks(s) && Places(s) }

  /** A thread holds the read lock and writes to the target it has found. */
  ghost predicate Safe(s: State) {
    forall t :: t in s.threads && s.threads[t].pc.Sending? ==>
      t in s.readers && s.writer == -1 && s.threads[t].self in s.live && Listed(s, s.threads[t].pc.target)
  }

  lemma AcceptLocks(s: State, s': State, t: nat, id: string, a: Addr)
    requires Locks(s) && Accept(s, s', t, id, a)
    ensures Locks(s')
  {
    assert forall u :: u in s.threads ==> s'.threads[u] == s.threads[u];
  }

  lemma AcceptSelves(s: State, s': State, t: nat, id: string, a: Addr)
    requires Selves(s) && Accept(s, s', t, id, a)
    ensures Selves(s')
  {
  }

  lemma AcceptInv(s: State, s': State, t: nat, id: string, a: Addr)
    requires Inv(s) && Accept(s, s', t, id, a)
    ensures Inv(s')
  {
    hide Locks, Listed, Selves;
    AcceptSelves(s, s', t, id, a);
    AcceptLocks(s, s', t, id, a);
    forall b ensures (Listed(s', b) <==> b == a || Listed(s, b)) && (Listed(s, b) ==> b in s.live) {
      AcceptListed(s, s', t, id, a, b);
    }
    assert forall u :: u in s'.threads <==> u in s.threads || u == t;
    assert forall u :: u in s.threads ==> s'.threads[u] == s.threads[u];
    assert s'.threads[t] == Thread(a, Idle);
  }

  lemma AcceptListed(s: State, s': State, t: nat, id: string, a: Addr, b: Addr)
    requires Places(s) && Accept(s, s', t, id, a)
    ensures (Listed(s', b) <==> b == a || Listed(s, b)) && (Listed(s, b) ==> b in s.live)
  {
  }

  lemma RemoveInv(s: State, s': State, t: nat)
    requires Inv(s) && Remove(s, s', t)
    ensures Inv(s')
  {
    var self := s.threads[t].self;
    assert Listed(s, self);
    forall b | b != self ensures Listed(s', b) <==> Listed(s, b) {
    }
    assert !Listed(s', self);
  }

  lemma FreeInv(s: State, s': State, t: nat)
    requires Inv(s) && Free(s, s', t)
    ensures Inv(s')
  {
    var self := s.threads[t].self;
    assert !Listed(s, self);
    assert forall b :: b != self ==> (Listed(s', b) <==> Listed(s, b));
  }

  /** A thread moves on, and neither the table nor a client changes. */
  lemma MovePlaces(s: State, s': State, t: nat, pc: Pc)
    requires Places(s) && t in s.threads && s'.threads == Goto(s, t, pc) && s'.table == s.table && s'.live == s.live
    requires Before(pc) <==> Before(s.threads[t].pc)
    requires pc.Sending? ==> Listed(s, pc.target)
    ensures Places(s')
  {
    assert forall b :: Listed(s', b) <==> Listed(s, b);
  }

  lemma DeliverInv(s: State, s': State, t: nat, id: string, a: Addr)
    requires Inv(s) && Deliver(s, s', t, id, a)
    ensures Inv(s')
  {
    MovePlaces(s, s', t, WantRead(id, a));
  }

  lemma LockReadInv(s: State, s': State, t: nat)
    requires Inv(s) && LockRead(s, s', t)
    ensures Inv(s')
  {
    MovePlaces(s, s', t, s'.threads[t].pc);
  }

  lemma LookUpInv(s: State, s': State, t: nat)
    requires Inv(s) && LookUp(s, s', t)
    ensures Inv(s')
  {
    MovePlaces(s, s', t, s'.threads[t].pc);
  }

  lemma UnlockReadInv(s: State, s': State, t: nat)
    requires Inv(s) && UnlockRead(s, s', t)
    ensures Inv(s')
  {
    MovePlaces(s, s', t, Idle);
  }

  lemma DepartInv(s: State, s': State, t: nat)
    requires Inv(s) && (Depart(s, s', t) || LockWrite(s, s', t) || UnlockWrite(s, s', t))
    ensures Inv(s')
  {
    MovePlaces(s, s', t, s'.threads[t].pc);
  }

  lemma NextInv(s: State, s': State)
    requires Inv(s) && Next(s, s')
    ensures Inv(s')
  {
    hide Inv, Accept, Deliver, LockRead, LookUp, UnlockRead, Depart, LockWrite, Remove, UnlockWrite, Free;
    var t: nat :| Step(s, s', t);
    if id, a :| Accept(s, s', t, id, a) {
      AcceptInv(s, s', t, id, a);
    } else if id, a :| Deliver(s, s', t, id, a) {
      DeliverInv(s, s', t, id, a);
    } else if LockRead(s, s', t) {
      LockReadInv(s, s', t);
    } else if LookUp(s, s', t) {
      LookUpInv(s, s', t);
    } else if UnlockRead(s, s', t) {
      UnlockReadInv(s, s', t);
    } else if Remove(s, s', t) {
      RemoveInv(s, s', t);
    } else if Free(s, s', t) {
      FreeInv(s, s', t);
    } else {
      DepartInv(s, s', t);
    }
  }

  ghost predicate Run(run: seq<State>) {
    && run != [] && Init(run[0])
    && forall i: nat {:trigger Then(run, i)} :: i + 1 < |run| ==> Next(run[i], Then(run, i))
  }

  lemma InvSafe(s: State)
    requires Inv(s)
    ensures Safe(s)
  {
  }

  lemma InitInv(s: State)
    requires Init(s)
    ensures Inv(s)
  {
  }

  /** Main theorem: in every reachable state a delivery goes to a client that is in the table and not freed. */
  lemma {:induction false} DeliverySafe(run: seq<State>, i: nat)
    requires Run(run) && i < |run|
    ensures Inv(run[i]) && Safe(run[i])
  {
    hide Next, Inv, Init, Safe;
    if i == 0 {
      InitInv(run[0]);
    } else {
      DeliverySafe(run, i - 1);
      assert Next(run[i - 1], Then(run, i - 1));
      NextInv(run[i - 1], run[i]);
    }
    InvSafe(run[i]);
  }
}
