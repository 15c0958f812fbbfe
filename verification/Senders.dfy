/** client__send from many threads on one connection: what the client's mutex makes of their writes. */
module Senders {
  import opened Basics
  import opened Frames
  import opened Stream
  import opened Receiver

  /** Where a thread stands in client__send, with the bytes it has written so far. */
  datatype Phase = Waiting | Writing(n: nat) | Done | Failed

  /**
   * `holder` has the mutex, or -1 nobody. `up` turns false at the first failed write: `sent` is what was taken until
   * then, `cut` the part of a frame at its end, and `late` what was taken after it.
   */
  datatype State = State(phase: seq<Phase>, holder: int, order: seq<nat>, sent: string, up: bool, cut: string,
      late: string)

  ghost predicate Init(fs: seq<Msg>, s: State) {
    && |s.phase| == |fs| && (forall i :: 0 <= i < |fs| ==> s.phase[i] == Waiting)
    && s.holder == -1 && s.order == [] && s.sent == [] && s.up && s.cut == [] && s.late == []
  }

  /** The client is found closed before the mutex is asked for. */
  ghost predicate Refuse(fs: seq<Msg>, s: State, s': State, i: nat) {
    i < |s.phase| && s.phase[i] == Waiting && s' == s.(phase := s.phase[i := Failed])
  }

  ghost predicate Acquire(fs: seq<Msg>, s: State, s': State, i: nat) {
    && i < |s.phase| && s.phase[i] == Waiting && s.holder == -1
    && s' == s.(phase := s.phase[i := Writing(0)], holder := i)
  }

  /** One send that takes k bytes. */
  ghost predicate Write(fs: seq<Msg>, s: State, s': State, i: nat, k: nat) {
    && i < |s.phase| && i < |fs| && s.holder == i && s.phase[i].Writing?
    && k > 0 && s.phase[i].n + k <= |Bytes(fs[i])|
    && var w := Bytes(fs[i])[s.phase[i].n..s.phase[i].n + k];
       s' == s.(phase := s.phase[i := Writing(s.phase[i].n + k)],
                sent := if s.up then s.sent + w else s.sent, late := if s.up then s.late else s.late + w)
  }

  /** A send that fails: the thread gives the mutex back. The connection may or may not take bytes of other threads. */
  ghost predicate Break(fs: seq<Msg>, s: State, s': State, i: nat) {
    && i < |s.phase| && i < |fs| && s.holder == i && s.phase[i].Writing? && s.phase[i].n < |Bytes(fs[i])|
    && s' == s.(phase := s.phase[i := Failed], holder := -1, up := false,
                cut := if s.up then Bytes(fs[i])[..s.phase[i].n] else s.cut)
  }

  /** All is written: the thread gives the mutex back. */
  ghost predicate Release(fs: seq<Msg>, s: State, s': State, i: nat) {
    && i < |s.phase| && i < |fs| && s.holder == i && s.phase[i] == Writing(|Bytes(fs[i])|)
    && s' == s.(phase := s.phase[i := Done], holder := -1, order := if s.up then s.order + [i] else s.order)
  }

  ghost predicate Next(fs: seq<Msg>, s: State, s': State) {
    exists i: nat :: Steps(fs, s, s', i)
  }

  ghost predicate Steps(fs: seq<Msg>, s: State, s': State, i: nat) {
    || Refuse(fs, s, s', i) || Acquire(fs, s, s', i) || Break(fs, s, s', i) || Release(fs, s, s', i)
    || exists k: nat :: Write(fs, s, s', i, k)
  }

  /** The frames of the threads named, in that order. */
  function Picked(fs: seq<Msg>, order: seq<nat>): (ms: seq<Msg>)
    requires forall j :: 0 <= j < |order| ==> order[j] < |fs|
    ensures |ms| == |order|
  {
    seq(|order|, j requires 0 <= j < |order| => fs[order[j]])
  }

  /** The mutex holder is the one thread that writes, and `order` lists threads that are done, each once. */
  ghost predicate Books(fs: seq<Msg>, s: State) {
    && |s.phase| == |fs| && -1 <= s.holder < |fs|
    && (forall j :: 0 <= j < |s.order| ==> s.order[j] < |fs|)
    && (forall i, j :: 0 <= i < j < |s.order| ==> s.order[i] != s.order[j])
    && (forall i :: 0 <= i < |fs| ==> (s.phase[i].Writing? <==> i == s.holder))
    && (forall i :: 0 <= i < |fs| && i in s.order ==> s.phase[i] == Done)
    && (s.up ==> forall i :: 0 <= i < |fs| && s.phase[i] == Done ==> i in s.order)
    && (s.holder >= 0 ==> s.phase[s.holder].n <= |Bytes(fs[s.holder])|)
  }

  /** The bytes on the wire are whole frames, then at most one that is not finished. */
  ghost predicate Inv(fs: seq<Msg>, s: State) {
    && Books(fs, s)
    && CutShort(s.cut) && (s.up ==> s.cut == [] && s.late == [])
    && s.sent == Wires(Picked(fs, s.order)) + s.cut + Tail(fs, s)
  }

  /** What the holder of the mutex has written of its frame, as long as no write has failed. */
  function Tail(fs: seq<Msg>, s: State): string {
    if s.up && 0 <= s.holder < |fs| && s.holder < |s.phase| && s.phase[s.holder].Writing? &&
        s.phase[s.holder].n <= |Bytes(fs[s.holder])|
    then Bytes(fs[s.holder])[..s.phase[s.holder].n] else []
  }

  lemma {:induction false} WiresSnoc(ms: seq<Msg>, m: Msg)
    ensures Wires(ms + [m]) == Wires(ms) + Bytes(m)
  {
    hide Bytes;
    if ms == [] {
      assert ms + [m] == [m] && Wires([m]) == Bytes(m) + [];
    } else {
      assert (ms + [m])[1..] == ms[1..] + [m];
      WiresSnoc(ms[1..], m);
      assert Bytes(ms[0]) + (Wires(ms[1..]) + Bytes(m)) == Bytes(ms[0]) + Wires(ms[1..]) + Bytes(m);
    }
  }

  lemma InitInv(fs: seq<Msg>, s: State)
    requires Init(fs, s)
    ensures Inv(fs, s)
  {
  }

  lemma WriteInv(fs: seq<Msg>, s: State, s': State, i: nat, k: nat)
    requires Inv(fs, s) && Write(fs, s, s', i, k)
    ensures Inv(fs, s')
  {
    hide Bytes, Wires, CutShort;
    var b, n := Bytes(fs[i]), s.phase[i].n;
    assert b[..n + k] == b[..n] + b[n..n + k];
  }

  lemma BreakInv(fs: seq<Msg>, s: State, s': State, i: nat)
    requires AllSound(fs) && Inv(fs, s) && Break(fs, s, s', i)
    ensures Inv(fs, s')
  {
    hide Bytes, Wires, Sound;
    var b, n := Bytes(fs[i]), s.phase[i].n;
    assert CutShort(b[..n]);
    assert Tail(fs, s') == [];
  }

  lemma ReleaseBooks(fs: seq<Msg>, s: State, s': State, i: nat)
    requires Books(fs, s) && Release(fs, s, s', i)
    ensures Books(fs, s')
  {
    hide Bytes;
    assert i !in s.order;
    assert forall j :: j in s'.order <==> j in s.order || (s.up && j == i);
  }

  lemma ReleaseTail(fs: seq<Msg>, s: State, s': State, i: nat)
    requires Books(fs, s) && Release(fs, s, s', i)
    ensures Tail(fs, s) == (if s.up then Bytes(fs[i]) else []) && Tail(fs, s') == []
    ensures forall j :: 0 <= j < |s.order| ==> s.order[j] < |fs|
  {
    hide Bytes;
    var b := Bytes(fs[i]);
    assert b[..|b|] == b;
  }

  lemma ReleaseInv(fs: seq<Msg>, s: State, s': State, i: nat)
    requires Inv(fs, s) && Release(fs, s, s', i)
    ensures Inv(fs, s')
  {
    hide Wires, CutShort, Bytes, Books, Tail;
    ReleaseBooks(fs, s, s', i);
    ReleaseTail(fs, s, s', i);
    if s.up { PickedSnoc(fs, s.order, i); }
    assert s'.sent == Wires(Picked(fs, s'.order)) + s'.cut + Tail(fs, s');
  }

  lemma PickedSnoc(fs: seq<Msg>, order: seq<nat>, i: nat)
    requires i < |fs| && forall j :: 0 <= j < |order| ==> order[j] < |fs|
    ensures Picked(fs, order + [i]) == Picked(fs, order) + [fs[i]]
    ensures Wires(Picked(fs, order + [i])) == Wires(Picked(fs, order)) + Bytes(fs[i])
  {
    hide Bytes, Wires;
    WiresSnoc(Picked(fs, order), fs[i]);
  }

  lemma NextInv(fs: seq<Msg>, s: State, s': State)
    requires AllSound(fs) && Inv(fs, s) && Next(fs, s, s')
    ensures Inv(fs, s')
  {
    hide Bytes, Wires, Sound, CutShort;
    var i: nat :| Steps(fs, s, s', i);
    if k: nat :| Write(fs, s, s', i, k) {
      WriteInv(fs, s, s', i, k);
    } else if Break(fs, s, s', i) {
      BreakInv(fs, s, s', i);
    } else if Release(fs, s, s', i) {
      ReleaseInv(fs, s, s', i);
    }
  }

  /** A run of any length, with any threads stepping in any order. */
  ghost predicate Run(fs: seq<Msg>, run: seq<State>) {
    && run != [] && Init(fs, run[0])
    && forall t: nat {:trigger Then(run, t)} :: t + 1 < |run| ==> Next(fs, run[t], Then(run, t))
  }

  lemma {:induction false} RunInv(fs: seq<Msg>, run: seq<State>, t: nat)
    requires AllSound(fs) && Run(fs, run) && t < |run|
    ensures Inv(fs, run[t])
  {
    hide Inv, Next, Init, AllSound;
    if t == 0 {
      InitInv(fs, run[0]);
    } else {
      RunInv(fs, run, t - 1);
      assert Next(fs, run[t - 1], Then(run, t - 1));
      NextInv(fs, run[t - 1], run[t]);
    }
  }

  /** `order` names different threads, and all that are done as long as no write has failed. */
  ghost predicate Covers(fs: seq<Msg>, s: State, order: seq<nat>) {
    && (forall j :: 0 <= j < |order| ==> order[j] < |fs|)
    && (forall i, j :: 0 <= i < j < |order| ==> order[i] != order[j])
    && (s.up ==> forall i :: 0 <= i < |s.phase| && s.phase[i] == Done ==> i in order)
  }

  lemma Whole(fs: seq<Msg>, s: State) returns (order: seq<nat>, cut: string)
    requires AllSound(fs) && Inv(fs, s)
    ensures Covers(fs, s, order)
    ensures s.sent == Wires(Picked(fs, order)) + cut && CutShort(cut) && AllSound(Picked(fs, order))
    ensures s.up ==> s.late == []
  {
    hide Wires, Sound, Bytes;
    order, cut := s.order, s.cut;
    if s.up && s.holder >= 0 {
      var b, n := Bytes(fs[s.holder]), s.phase[s.holder].n;
      if n < |b| {
        cut := b[..n];
        assert s.cut + cut == cut;
      } else {
        cut := [];
        assert b[..n] == b && s.cut == [];
        PickedSnoc(fs, order, s.holder);
        assert forall j :: 0 <= j < |order| ==> s.phase[order[j]] == Done by {
          assert forall j :: 0 <= j < |order| ==> order[j] in order;
        }
        order := order + [s.holder];
      }
    }
  }

  /**
   * Main theorem: at every moment of every run the bytes taken before the first failed write are the whole frames of
   * different threads, one after the other, then at most one unfinished frame; and while no write has failed these are
   * all the bytes.
   */
  lemma WholeFrames(fs: seq<Msg>, run: seq<State>, t: nat) returns (order: seq<nat>, cut: string)
    requires AllSound(fs) && Run(fs, run) && t < |run|
    ensures Covers(fs, run[t], order)
    ensures run[t].sent == Wires(Picked(fs, order)) + cut && CutShort(cut) && AllSound(Picked(fs, order))
    ensures run[t].up ==> run[t].late == []
  {
    hide *;
    RunInv(fs, run, t);
    order, cut := Whole(fs, run[t]);
  }

  /** While no write has failed, the other end of the connection gets the senders' frames and nothing else. */
  method ReceiveSent(conn: Connection, frame: Frame, clock: nat -> string, bigendian: bool,
                     ghost fs: seq<Msg>, ghost run: seq<State>, ghost t: nat)
    returns (got: seq<Msg>, st: Status, ghost order: seq<nat>)
    requires AllSound(fs) && Run(fs, run) && t < |run| && run[t].up
    requires conn.Valid() && Flat(conn.inbox) == run[t].sent
    requires (forall i :: 0 <= i < |fs| ==> Stamped(fs[i])) && forall k :: Stamp(clock(k))
    modifies conn`inbox, frame
    ensures Covers(fs, run[t], order) && InOrder(got, Picked(fs, order), clock)
    ensures st == IoError || (st == Closed && |got| == |order|)
  {
    hide Run, Sound, Stamped, Wires, Flat, CutShort;
    ghost var cut;
    order, cut := WholeFrames(fs, run, t);
    got, st := ReceiveAll(conn, frame, clock, bigendian, Picked(fs, order), cut);
  }

  /** Whatever follows a failed write, the receiver first gets the whole frames that were written before it. */
  method ReceiveBefore(conn: Connection, frame: Frame, clock: nat -> string, bigendian: bool, count: nat,
                       ghost fs: seq<Msg>, ghost run: seq<State>, ghost t: nat, ghost order: seq<nat>,
                           ghost cut: string)
    returns (got: seq<Msg>, st: Status)
    requires AllSound(fs) && Run(fs, run) && t < |run| && Covers(fs, run[t], order) && |order| == count
    requires run[t].sent == Wires(Picked(fs, order)) + cut && AllSound(Picked(fs, order))
    requires conn.Valid() && Flat(conn.inbox) == run[t].sent + run[t].late
    requires (forall i :: 0 <= i < |fs| ==> Stamped(fs[i])) && forall k :: Stamp(clock(k))
    modifies conn`inbox, frame
    ensures InOrder(got, Picked(fs, order), clock)
    ensures st == IoError || (st == Ok && |got| == |order| && Flat(conn.inbox) == cut + run[t].late)
  {
    hide Run, Sound, Stamped, Wires, Flat;
    assert Wires(Picked(fs, order)) + cut + run[t].late == Wires(Picked(fs, order)) + (cut + run[t].late);
    got, st := ReceiveFirst(conn, frame, clock, bigendian, count, Picked(fs, order), cut + run[t].late);
  }
}
