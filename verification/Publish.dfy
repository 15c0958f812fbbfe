/** handle__PUB and broker__deliver_msg: one delivery frame, changed for every subscriber in turn. */
module Publish {
  import opened Basics
  import opened Headers
  import opened Entities
  import Topics
  import F = Frames
  import Stream
  import Tries
  import TopicTree
  import Replies
  import Subscriptions

  // ---- overwriting the same headers again

  lemma SetSame(hs: seq<Header>, a: Header, b: Header)
    requires a.key == b.key
    ensures Set(Set(hs, a), b) == Set(hs, b)
  {
    var i := Lookup(hs, a.key);
    LookupIs(Set(hs, a), i);
  }

  lemma LookupIs(hs: seq<Header>, i: nat)
    requires i < |hs| && forall j :: 0 <= j < i ==> hs[j].key != hs[i].key
    ensures Lookup(hs, hs[i].key) == i
  {
  }

  /** Where two keys are found after either has been set. */
  lemma Places(hs: seq<Header>, a: Header, b: Header)
    requires a.key != b.key && Lookup(hs, b.key) < |hs|
    ensures Lookup(hs, a.key) != Lookup(hs, b.key)
    ensures Lookup(Set(hs, a), b.key) == Lookup(hs, b.key)
    ensures Lookup(Set(hs, b), a.key) == Lookup(hs, a.key)
  {
    hide Lookup;
    var j, ra := Lookup(hs, b.key), Set(hs, a);
    assert ra[j] == hs[j] && forall k :: 0 <= k < j ==> ra[k].key == hs[k].key;
    LookupIs(ra, j);
    SameKeys(hs, Set(hs, b), a.key);
  }

  lemma TwoUpdates(hs: seq<Header>, i: nat, j: nat, a: Header, b: Header)
    requires i <= |hs| && j < |hs| && i != j
    ensures i < |hs| ==> hs[i := a][j := b] == hs[j := b][i := a]
    ensures i == |hs| ==> (hs + [a])[j := b] == hs[j := b] + [a]
  {
  }

  /** Overwriting a key that is there commutes with setting another key. */
  lemma SetSwap(hs: seq<Header>, a: Header, b: Header)
    requires a.key != b.key && Lookup(hs, b.key) < |hs|
    ensures Set(Set(hs, a), b) == Set(Set(hs, b), a)
  {
    hide Lookup;
    Places(hs, a, b);
    TwoUpdates(hs, Lookup(hs, a.key), Lookup(hs, b.key), a, b);
  }

  lemma SameKeys(hs: seq<Header>, r: seq<Header>, key: string)
    requires |hs| == |r| && forall k :: 0 <= k < |hs| ==> r[k].key == hs[k].key
    ensures Lookup(r, key) == Lookup(hs, key)
  {
  }

  lemma SetHas(hs: seq<Header>, a: Header, key: string)
    requires key == a.key || Lookup(hs, key) < |hs|
    ensures Lookup(Set(hs, a), key) < |Set(hs, a)|
  {
    var i, r := Lookup(hs, a.key), Set(hs, a);
    assert r[i] == a;
    if key != a.key {
      var j := Lookup(hs, key);
      assert j != i && r[j] == hs[j];
    }
  }

  lemma {:induction false} SetAllHas(hs: seq<Header>, vs: seq<Header>, i: nat)
    requires i < |vs|
    ensures Lookup(SetAll(hs, vs), vs[i].key) < |SetAll(hs, vs)|
    decreases |vs|
  {
    hide Set, Lookup;
    var init, z := vs[..|vs| - 1], vs[|vs| - 1];
    if i < |vs| - 1 { SetAllHas(hs, init, i); }
    SetHas(SetAll(hs, init), z, vs[i].key);
  }

  /** Setting one of the keys again replaces its value among the updates. */
  lemma {:induction false} Again(hs: seq<Header>, vs: seq<Header>, i: nat, w: Header)
    requires Distinct(vs) && i < |vs| && vs[i].key == w.key
    ensures Set(SetAll(hs, vs), w) == SetAll(hs, vs[i := w])
    decreases |vs|
  {
    hide Set, Lookup;
    var init, z := vs[..|vs| - 1], vs[|vs| - 1];
    var m := SetAll(hs, init);
    if i == |vs| - 1 {
      SetSame(m, z, w);
      assert vs[i := w][..|vs| - 1] == init;
    } else {
      SetAllHas(hs, init, i);
      SetSwap(m, z, w);
      Again(hs, init, i, w);
      assert vs[i := w][..|vs| - 1] == init[i := w];
    }
  }

  /** A whole round of updates over an earlier round, complete or broken off, is as good as over the start. */
  lemma {:induction false} Overwrite(hs: seq<Header>, vs: seq<Header>, ws: seq<Header>, n: nat)
    requires Distinct(ws) && n <= |ws| && |vs| <= |ws| && forall i :: 0 <= i < |vs| ==> vs[i].key == ws[i].key
    ensures SetAll(SetAll(hs, vs), ws[..n]) == SetAll(hs, Mixed(vs, ws, n))
    decreases n
  {
    hide Set, SetAll, Lookup;
    if n == 0 {
      assert Mixed(vs, ws, 0) == vs && ws[..0] == [];
      SetAllNone(SetAll(hs, vs));
    } else {
      Overwrite(hs, vs, ws, n - 1);
      assert ws[..n] == ws[..n - 1] + [ws[n - 1]];
      SetAllSnoc(SetAll(hs, vs), ws[..n - 1], ws[n - 1]);
      var mixed := Mixed(vs, ws, n - 1);
      if n <= |vs| {
        Again(hs, mixed, n - 1, ws[n - 1]);
        assert mixed[n - 1 := ws[n - 1]] == Mixed(vs, ws, n);
      } else {
        assert Mixed(vs, ws, n) == mixed + [ws[n - 1]];
        SetAllSnoc(hs, mixed, ws[n - 1]);
      }
    }
  }

  lemma SetAllNone(hs: seq<Header>)
    ensures SetAll(hs, []) == hs
  {
  }

  lemma SetAllFour(hs: seq<Header>, a: Header, b: Header, c: Header, d: Header)
    ensures SetAll(hs, [a, b, c, d]) == Set(Set(Set(Set(hs, a), b), c), d)
  {
    hide Set, SetAll;
    SetAllNone(hs);
    SetAllSnoc(hs, [], a);
    SetAllSnoc(hs, [a], b);
    SetAllSnoc(hs, [a, b], c);
    SetAllSnoc(hs, [a, b, c], d);
    assert [] + [a] == [a] && [a] + [b] == [a, b] && [a, b] + [c] == [a, b, c] && [a, b, c] + [d] == [a, b, c, d];
  }

  /** After n updates of a round: n new values, then what is left of the old ones. */
  function Mixed(vs: seq<Header>, ws: seq<Header>, n: nat): seq<Header>
    requires n <= |ws|
  {
    ws[..n] + if n <= |vs| then vs[n..] else []
  }

  // ---- what a subscriber should get

  /** What stays the same throughout one publication. */
  datatype Publication = Publication(publisher: Client, echo: bool, origin: string, from: string)

  /** A subscriber in the search result, and the client table when its turn comes. */
  datatype Stop = Stop(s: Subscriber, clients: map<string, Client>)

  function Updates(s: Subscriber, p: Publication): seq<Header> {
    [Header("x-sub-tag", s.sub_tag), Header("x-origin-topic", p.origin), Header("x-topic", s.Topic()),
        Header("x-from", p.from)]
  }

  lemma KeysDiffer(s: Subscriber, p: Publication)
    ensures Distinct(Updates(s, p))
  {
    assert |"x-sub-tag"| == 9 && |"x-origin-topic"| == 14 && |"x-topic"| == 7 && |"x-from"| == 6;
  }

  /** The frame that a subscriber would get were it built for this subscriber alone. */
  function FreshFrame(m: Stream.Msg, s: Subscriber, p: Publication): Stream.Msg {
    m.(headers := SetAll(m.headers, Updates(s, p)))
  }

  /** Whether the loop delivers to this subscriber at all, and whether its client is there to be found. */
  predicate Wanted(s: Subscriber, p: Publication) { s.client != p.publisher || p.echo }

  predicate Found(x: Stop) {
    x.s.client_id in x.clients && x.clients[x.s.client_id] == x.s.client
  }

  function ForOne(m: Stream.Msg, x: Stop, p: Publication): seq<(Client, Stream.Msg)> {
    if Wanted(x.s, p) && Found(x) then [(x.s.client, FreshFrame(m, x.s, p))] else []
  }

  /** A fresh frame for each subscriber in turn. */
  function Expected(m: Stream.Msg, xs: seq<Stop>, p: Publication): seq<(Client, Stream.Msg)> {
    if xs == [] then [] else ForOne(m, xs[0], p) + Expected(m, xs[1..], p)
  }

  /** What a subscriber sees of a frame: its own tag and pattern, the topic published to, the sender, the payload. */
  lemma FreshCarries(m: Stream.Msg, s: Subscriber, p: Publication)
    ensures var f := FreshFrame(m, s, p);
            && Get(f.headers, "x-sub-tag") == Some(s.sub_tag)
            && Get(f.headers, "x-topic") == Some(s.Topic())
            && Get(f.headers, "x-origin-topic") == Some(p.origin)
            && Get(f.headers, "x-from") == Some(p.from)
            && f.payload == m.payload && f.opcode == m.opcode && f.flag == m.flag
    ensures forall key :: key != "x-sub-tag" && key != "x-topic" && key != "x-origin-topic" && key != "x-from" ==>
              Get(FreshFrame(m, s, p).headers, key) == Get(m.headers, key)
  {
    hide Get, Set;
    var us := Updates(s, p);
    var h1 := Set(m.headers, us[0]);
    var h2 := Set(h1, us[1]);
    var h3 := Set(h2, us[2]);
    var h4 := Set(h3, us[3]);
    SetAllFour(m.headers, us[0], us[1], us[2], us[3]);
    KeysDiffer(s, p);
    forall key ensures Get(h4, key) == (
        if key == "x-from" then Some(p.from) else if key == "x-topic" then Some(s.Topic())
        else if key == "x-origin-topic" then Some(p.origin) else if key == "x-sub-tag" then Some(s.sub_tag)
        else Get(m.headers, key))
    {
      GetSet(m.headers, us[0], key);
      GetSet(h1, us[1], key);
      GetSet(h2, us[2], key);
      GetSet(h3, us[3], key);
    }
  }

  /** The topic keeps its place among the headers; the new ones follow in the order in which they were set. */
  lemma FreshOrder(m: Stream.Msg, s: Subscriber, p: Publication)
    requires Get(m.headers, "x-sub-tag") == None && Get(m.headers, "x-origin-topic") == None
    requires Get(m.headers, "x-from") == None && Get(m.headers, "x-topic") != None
    ensures var hs := m.headers;
            FreshFrame(m, s, p).headers == hs[Lookup(hs, "x-topic") := Header("x-topic", s.Topic())]
              + [Header("x-sub-tag", s.sub_tag), Header("x-origin-topic", p.origin), Header("x-from", p.from)]
  {
    KeyLengths();
    var us, hs := Updates(s, p), m.headers;
    SetAllFour(hs, us[0], us[1], us[2], us[3]);
    F.LookupSnoc(hs, us[0], "x-origin-topic");
    F.LookupSnoc(hs, us[0], "x-topic");
    F.LookupSnoc(hs, us[0], "x-from");
    var h2 := hs + [us[0]] + [us[1]];
    F.LookupSnoc(hs + [us[0]], us[1], "x-topic");
    F.LookupSnoc(hs + [us[0]], us[1], "x-from");
    var h3 := h2[Lookup(hs, "x-topic") := us[2]];
    SameKeys(h2, h3, "x-from");
  }

  /** The Java client hands the frame to the very subscriber that subscribed with this tag and pattern. */
  lemma ReachesItsSubscriber(v: Replies.View, h: Replies.Handler, m: Stream.Msg, s: Subscriber, p: Publication)
    requires h == Replies.Subscriber(s.Topic(), s.sub_tag) && Replies.Key(h) in v.subs && v.subs[Replies.Key(h)] == h
    requires m.opcode == Replies.MSG
    ensures Replies.Consumer(v, FreshFrame(m, s, p)) == Some(h)
  {
    hide FreshFrame;
    FreshCarries(m, s, p);
  }

  // ---- turns of the loop

  /** The updates made so far have the keys of a round, in its order. */
  ghost predicate PartOfRound(vs: seq<Header>) {
    var keys := ["x-sub-tag", "x-origin-topic", "x-topic", "x-from"];
    |vs| <= 4 && forall i :: 0 <= i < |vs| ==> vs[i].key == keys[i]
  }

  /**
   * Whether the table fits the 16-bit account once n updates of the round `ws` are made over the earlier round `vs`.
   */
  predicate Fits(m: Stream.Msg, vs: seq<Header>, ws: seq<Header>, n: nat)
    requires n <= |ws|
  {
    Size(SetAll(m.headers, Mixed(vs, ws, n))) < 65536
  }

  /** How many updates are made in all when n are made already: up to `goal`, or to the first that does not fit. */
  function Made(m: Stream.Msg, vs: seq<Header>, ws: seq<Header>, n: nat, goal: nat): (made: nat)
    requires n <= goal <= |ws|
    ensures n <= made <= goal && (made < goal ==> !Fits(m, vs, ws, made + 1))
    ensures forall k :: n < k <= made ==> Fits(m, vs, ws, k)
    decreases goal - n
  {
    hide Fits;
    if n == goal || !Fits(m, vs, ws, n + 1) then n else Made(m, vs, ws, n + 1, goal)
  }

  /** A client that is not there ends its subscriber's round before the sender's address is set. */
  function Goal(x: Stop): nat { if Found(x) then 4 else 3 }

  /** How many updates the turn of a subscriber makes, after the updates vs. */
  function Turn(m: Stream.Msg, vs: seq<Header>, x: Stop, p: Publication): (made: nat)
    ensures made <= Goal(x)
  {
    Made(m, vs, Updates(x.s, p), 0, Goal(x))
  }

  /** The updates in force after that turn. */
  function After(m: Stream.Msg, vs: seq<Header>, x: Stop, p: Publication): seq<Header> {
    if Wanted(x.s, p) then Mixed(vs, Updates(x.s, p), Turn(m, vs, x, p)) else vs
  }

  predicate Absent(hs: seq<Header>, key: string) { Lookup(hs, key) == |hs| }

  /** The size account is exact after that turn: no update was refused, or only one that would have added a header. */
  predicate Exact(m: Stream.Msg, vs: seq<Header>, x: Stop, p: Publication) {
    var made := Turn(m, vs, x, p);
    Wanted(x.s, p) && made < Goal(x) ==>
        Absent(SetAll(m.headers, Mixed(vs, Updates(x.s, p), made)), Updates(x.s, p)[made].key)
  }

  function Sends(m: Stream.Msg, vs: seq<Header>, x: Stop, p: Publication): seq<(Client, Stream.Msg)> {
    if Turn(m, vs, x, p) == 4 then ForOne(m, x, p) else []
  }

  /** What the turns send, up to the first after which the account is off. */
  function Delivered(m: Stream.Msg, vs: seq<Header>, xs: seq<Stop>, p: Publication): seq<(Client, Stream.Msg)>
    decreases |xs|
  {
    if xs == [] || !Exact(m, vs, xs[0], p) then []
    else Sends(m, vs, xs[0], p) + Delivered(m, After(m, vs, xs[0], p), xs[1..], p)
  }

  /** The account is exact after every turn. */
  predicate AllExact(m: Stream.Msg, vs: seq<Header>, xs: seq<Stop>, p: Publication)
    decreases |xs|
  {
    xs == [] || (Exact(m, vs, xs[0], p) && AllExact(m, After(m, vs, xs[0], p), xs[1..], p))
  }

  // ---- when every subscriber gets its frame

  /** Every update of every wanted subscriber's round fits. */
  predicate AllFit(m: Stream.Msg, vs: seq<Header>, xs: seq<Stop>, p: Publication)
    decreases |xs|
  {
    xs == [] ||
    ((Wanted(xs[0].s, p) ==> Turn(m, vs, xs[0], p) == Goal(xs[0])) &&
        AllFit(m, After(m, vs, xs[0], p), xs[1..], p))
  }

  /** No turn spoils the account, and every update fits for the subscribers whose client is there. */
  predicate AllServed(m: Stream.Msg, vs: seq<Header>, xs: seq<Stop>, p: Publication)
    decreases |xs|
  {
    xs == [] ||
    (&& Exact(m, vs, xs[0], p) && (Wanted(xs[0].s, p) && Found(xs[0]) ==> Turn(m, vs, xs[0], p) == 4)
     && AllServed(m, After(m, vs, xs[0], p), xs[1..], p))
  }

  lemma {:induction false} FitIsServed(m: Stream.Msg, vs: seq<Header>, xs: seq<Stop>, p: Publication)
    requires AllFit(m, vs, xs, p)
    ensures AllServed(m, vs, xs, p)
    decreases |xs|
  {
    hide Turn, After;
    if xs != [] { FitIsServed(m, After(m, vs, xs[0], p), xs[1..], p); }
  }

  lemma {:induction false} NoMoreThanExpected(m: Stream.Msg, vs: seq<Header>, xs: seq<Stop>, p: Publication)
    ensures |Delivered(m, vs, xs, p)| <= |Expected(m, xs, p)|
    decreases |xs|
  {
    hide Turn, After, Exact, FreshFrame;
    if xs != [] { NoMoreThanExpected(m, After(m, vs, xs[0], p), xs[1..], p); }
  }

  /** Main theorem: every subscriber gets the frame built for it alone exactly when every update that matters fits. */
  lemma {:induction false} ServedIffExpected(m: Stream.Msg, vs: seq<Header>, xs: seq<Stop>, p: Publication)
    ensures AllServed(m, vs, xs, p) <==> AllExact(m, vs, xs, p) && Delivered(m, vs, xs, p) == Expected(m, xs, p)
    decreases |xs|
  {
    hide Turn, After, Exact, FreshFrame;
    if xs != [] {
      var vs', rest := After(m, vs, xs[0], p), xs[1..];
      ServedIffExpected(m, vs', rest, p);
      NoMoreThanExpected(m, vs', rest, p);
      if Exact(m, vs, xs[0], p) {
        SameSplit(Sends(m, vs, xs[0], p), Delivered(m, vs', rest, p), ForOne(m, xs[0], p), Expected(m, rest, p));
      }
    }
  }

  lemma SameSplit<T>(a: seq<T>, b: seq<T>, c: seq<T>, d: seq<T>)
    requires |a| <= |c| && |b| <= |d|
    ensures a + b == c + d <==> a == c && b == d
  {
    if a + b == c + d {
      assert a == (a + b)[..|a|] && b == (a + b)[|a|..] && c == (c + d)[..|c|] && d == (c + d)[|c|..];
    }
  }

  // ---- room for the longest texts is enough

  /** No longer than the texts in `big`, update by update. */
  ghost predicate Within(vs: seq<Header>, big: seq<Header>) {
    |vs| <= |big| && forall i :: 0 <= i < |vs| ==> vs[i].key == big[i].key && |vs[i].value| <= |big[i].value|
  }

  lemma {:induction false} WithinSize(vs: seq<Header>, big: seq<Header>)
    requires Within(vs, big)
    ensures Size(vs) <= Size(big)
    decreases |vs|
  {
    if vs != [] { WithinSize(vs[1..], big[1..]); }
  }

  lemma {:induction false} SetAllSize(hs: seq<Header>, vs: seq<Header>)
    ensures Size(SetAll(hs, vs)) <= Size(hs) + Size(vs)
    decreases |vs|
  {
    if vs != [] {
      var init, z := vs[..|vs| - 1], vs[|vs| - 1];
      SetAllSize(hs, init);
      SetSize(SetAll(hs, init), z);
      SizeConcat(init, [z]);
      assert vs == init + [z];
    }
  }

  /** The headers of the source with the longest texts of a round still fit the 16-bit account. */
  ghost predicate Roomy(m: Stream.Msg, big: seq<Header>) {
    |big| == 4 && Size(m.headers) + Size(big) < 65536
  }

  lemma RoomyFits(m: Stream.Msg, vs: seq<Header>, big: seq<Header>)
    requires Roomy(m, big) && Within(vs, big)
    ensures Size(SetAll(m.headers, vs)) < 65536
  {
    WithinSize(vs, big);
    SetAllSize(m.headers, vs);
  }

  lemma MixedWithin(vs: seq<Header>, ws: seq<Header>, n: nat, big: seq<Header>)
    requires n <= |ws| && Within(vs, big) && Within(ws, big)
    ensures Within(Mixed(vs, ws, n), big)
  {
  }

  /** With room for the longest texts every update fits. */
  lemma {:induction false} RoomyAllFit(m: Stream.Msg, vs: seq<Header>, xs: seq<Stop>, p: Publication,
                                       big: seq<Header>)
    requires Roomy(m, big) && Within(vs, big) && forall i :: 0 <= i < |xs| ==> Within(Updates(xs[i].s, p), big)
    ensures AllFit(m, vs, xs, p)
    decreases |xs|
  {
    hide Roomy, Updates, SetAll, Size, Within, Mixed;
    if xs != [] {
      var ws := Updates(xs[0].s, p);
      RoundIs(xs[0].s, p);
      forall n | 0 <= n <= 4 ensures Within(Mixed(vs, ws, n), big) && Fits(m, vs, ws, n) {
        MixedWithin(vs, ws, n, big);
        RoomyFits(m, Mixed(vs, ws, n), big);
      }
      RoomyAllFit(m, After(m, vs, xs[0], p), xs[1..], p, big);
    }
  }

  // ---- the loop

  /** The delivery frame after some updates: everything else of it is as it was. */
  ghost predicate Touched(frame: F.Frame, m: Stream.Msg, vs: seq<Header>)
    reads frame, frame.payload
  {
    frame.Valid() && Stream.Held(frame) == m.(headers := SetAll(m.headers, vs))
  }

  lemma KeyLengths()
    ensures |"x-sub-tag"| == 9 && |"x-origin-topic"| == 14 && |"x-topic"| == 7 && |"x-from"| == 6
  {
  }

  /**
   * One header update, the n-th of the round `ws` over the earlier round `vs`. As long as the account is exact (`on`)
   * it succeeds just when the table fits with it, and an addition that is refused changes nothing.
   */
  method Update(frame: F.Frame, h: Header,
                ghost on: bool, ghost m: Stream.Msg, ghost vs: seq<Header>, ghost ws: seq<Header>, ghost n: nat)
    returns (st: Status)
    requires PartOfRound(vs) && PartOfRound(ws) && |ws| == 4 && Distinct(ws) && n < 4
    requires h == ws[n] && 0 < |h.value| < 65536 && frame.vars_size < 65536
    requires on ==> Touched(frame, m, Mixed(vs, ws, n))
    modifies frame`headers, frame`vars_size
    ensures frame.vars_size < 65536
    ensures on ==> (st == Ok <==> Fits(m, vs, ws, n + 1))
    ensures on && st == Ok ==> Touched(frame, m, Mixed(vs, ws, n + 1))
    ensures on && st != Ok && Absent(SetAll(m.headers, Mixed(vs, ws, n)), h.key) ==> Touched(frame, m, Mixed(vs, ws, n))
  {
    hide Set, SetAll, Lookup, Size, Distinct, F.Filled, F.Spend;
    KeyLengths();
    Overwrite(m.headers, vs, ws, n);
    Overwrite(m.headers, vs, ws, n + 1);
    assert ws[..n + 1] == ws[..n] + [ws[n]];
    SetAllSnoc(SetAll(m.headers, vs), ws[..n], ws[n]);
    st := frame.SetVarHeader(h.key, h.value);
  }

  /** The texts that the loop puts into headers: nonempty, and short enough for the 16-bit account. */
  ghost predicate Texts(s: Subscriber, p: Publication) {
    0 < |s.sub_tag| < 65536 && 0 < |s.Topic()| < 65536 && 0 < |p.origin| < 65536 && 0 < |p.from| < 65536
  }

  lemma RoundIs(s: Subscriber, p: Publication)
    ensures var ws := Updates(s, p);
            && PartOfRound(ws) && Distinct(ws) && |ws| == 4
            && ws[0] == Header("x-sub-tag", s.sub_tag) && ws[1] == Header("x-origin-topic", p.origin)
            && ws[2] == Header("x-topic", s.Topic()) && ws[3] == Header("x-from", p.from)
    ensures forall vs :: Mixed(vs, Updates(s, p), 0) == vs
  {
    KeysDiffer(s, p);
  }

  lemma MixedIsPart(vs: seq<Header>, ws: seq<Header>, n: nat)
    requires PartOfRound(vs) && PartOfRound(ws) && |ws| == 4 && n <= 4
    ensures PartOfRound(Mixed(vs, ws, n)) && Mixed(vs, ws, 4) == ws
  {
  }

  /** What holds after `made` updates of a round, with the next one refused if there was to be one. */
  ghost predicate Stopped(frame: F.Frame, m: Stream.Msg, vs: seq<Header>, ws: seq<Header>, made: nat, goal: nat)
    requires |ws| == 4 && made <= goal <= 4
    reads frame, frame.payload
  {
    made < goal ==> Absent(SetAll(m.headers, Mixed(vs, ws, made)), ws[made].key) ==>
        Touched(frame, m, Mixed(vs, ws, made))
  }

  /** broker__deliver_msg, after the two updates of the caller. `to` is the client that the frame is sent to, if any. */
  method DeliverMsg(x: Stop, frame: F.Frame, p: Publication,
                    ghost on: bool, ghost m: Stream.Msg, ghost vs: seq<Header>)
    returns (st: Status, to: Client?)
    requires PartOfRound(vs) && Texts(x.s, p) && frame.vars_size < 65536
    requires on ==> Touched(frame, m, Mixed(vs, Updates(x.s, p), 2))
    modifies frame`headers, frame`vars_size
    ensures frame.vars_size < 65536
    ensures to != null ==> to == x.s.client && x.s.client_id in x.clients && x.clients[x.s.client_id] == to
    ensures on ==>
              var ws, goal := Updates(x.s, p), Goal(x);
              var made := Made(m, vs, ws, 2, goal);
              && (st == Ok <==> made == goal) && to == (if made == 4 then x.s.client else null)
              && (made == goal ==> Touched(frame, m, Mixed(vs, ws, made))) && Stopped(frame, m, vs, ws, made, goal)
  {
    hide Touched, Distinct, Absent, SetAll, Fits, Updates;
    var s := x.s;
    ghost var ws := Updates(s, p);
    RoundIs(s, p);
    to := null;
    st := Update(frame, Header("x-topic", s.Topic()), on, m, vs, ws, 2);
    if st != Ok {
      return;
    }
    if s.client_id in x.clients {
      var target_client := x.clients[s.client_id];
      if target_client == s.client {
        st := Update(frame, Header("x-from", p.from), on, m, vs, ws, 3);
        if st != Ok {
          return;
        }
        to := target_client;
      }
    }
  }

  /** One turn of the loop for a wanted subscriber. */
  method TakeTurn(x: Stop, frame: F.Frame, p: Publication, ghost on: bool, ghost m: Stream.Msg, ghost vs: seq<Header>)
    returns (to: Client?)
    requires PartOfRound(vs) && Texts(x.s, p) && frame.vars_size < 65536 && Wanted(x.s, p)
    requires on ==> Touched(frame, m, vs)
    modifies frame`headers, frame`vars_size
    ensures frame.vars_size < 65536 && PartOfRound(After(m, vs, x, p))
    ensures to != null ==> to == x.s.client && x.s.client_id in x.clients && x.clients[x.s.client_id] == to
    ensures on ==> to == (if Turn(m, vs, x, p) == 4 then x.s.client else null)
    ensures on && Exact(m, vs, x, p) ==> Touched(frame, m, After(m, vs, x, p))
    ensures on && to != null ==> Touched(frame, m, Updates(x.s, p))
  {
    hide Touched, Distinct, Absent, SetAll, Fits, Updates, Mixed;
    ghost var ws := Updates(x.s, p);
    RoundIs(x.s, p);
    MixedIsPart(vs, ws, Turn(m, vs, x, p));
    to := null;
    var st := Update(frame, Header("x-sub-tag", x.s.sub_tag), on, m, vs, ws, 0);
    if st != Ok {
      return;
    }
    st := Update(frame, Header("x-origin-topic", p.origin), on, m, vs, ws, 1);
    if st != Ok {
      return;
    }
    st, to := DeliverMsg(x, frame, p, on, m, vs);
  }

  /** A client that a publication may be sent to: it has a subscriber in the list, is there, and may hear itself. */
  ghost predicate MayReceive(c: Client, xs: seq<Stop>, p: Publication) {
    exists i :: && 0 <= i < |xs| && xs[i].s.client == c && (c == p.publisher ==> p.echo)
                && xs[i].s.client_id in xs[i].clients && xs[i].clients[xs[i].s.client_id] == c
  }

  lemma Receives(xs: seq<Stop>, i: nat, p: Publication)
    requires i < |xs| && Found(xs[i]) && (xs[i].s.client == p.publisher ==> p.echo)
    ensures MayReceive(xs[i].s.client, xs, p)
  {
  }

  /**
   * The delivery loop of handle__PUB, with the frames sent and to whom. As long as the size account is exact, the loop
   * sends exactly the frames of the turns that make all their updates; a refused addition only ends its own turn.
   */
  method DeliverAll(xs: seq<Stop>, frame: F.Frame, p: Publication, ghost m: Stream.Msg)
    returns (sent: seq<(Client, Stream.Msg)>)
    requires frame.Valid() && Stream.Held(frame) == m
    requires forall i :: 0 <= i < |xs| ==> Texts(xs[i].s, p)
    modifies frame`headers, frame`vars_size
    ensures Delivered(m, [], xs, p) <= sent
    ensures AllExact(m, [], xs, p) ==> sent == Delivered(m, [], xs, p)
    ensures AllServed(m, [], xs, p) ==> sent == Expected(m, xs, p)
    ensures forall k :: 0 <= k < |sent| ==> MayReceive(sent[k].0, xs, p)
  {
    hide Touched, Updates, Texts, Delivered, AllExact, Turn, After, Exact, AllServed, Expected, FreshFrame, MayReceive;
    ghost var vs: seq<Header>, on := [], true;
    ghost var all := Delivered(m, [], xs, p);
    sent := [];
    ServedIffExpected(m, [], xs, p);
    LoopStart(frame, m, xs);
    for i := 0 to |xs|
      invariant PartOfRound(vs) && frame.vars_size < 65536 && frame.opcode < 256 && frame.flag < 256
      invariant on ==> Touched(frame, m, vs) && sent + Delivered(m, vs, xs[i..], p) == all
      invariant on ==> (AllExact(m, vs, xs[i..], p) <==> AllExact(m, [], xs, p))
      invariant !on ==> all <= sent && !AllExact(m, [], xs, p)
      invariant forall k :: 0 <= k < |sent| ==> MayReceive(sent[k].0, xs, p)
    {
      var x := xs[i];
      OneTurn(m, vs, xs, i, p, sent);
      if x.s.client == p.publisher && !p.echo {
        continue;
      }
      var to := TakeTurn(x, frame, p, on, m, vs);
      if to != null {
        if on { Exactly(frame, m, x.s, p); }
        Receives(xs, i, p);
        sent := sent + [(to, Stream.Held(frame))];
      }
      on := on && Exact(m, vs, x, p);
      vs := After(m, vs, x, p);
    }
    NoTurnsLeft(m, vs, p);
    assert xs[|xs|..] == [];
  }

  lemma LoopStart(frame: F.Frame, m: Stream.Msg, xs: seq<Stop>)
    requires frame.Valid() && Stream.Held(frame) == m
    ensures Touched(frame, m, []) && xs[0..] == xs
    ensures frame.vars_size < 65536 && frame.opcode < 256 && frame.flag < 256
  {
  }

  lemma NoTurnsLeft(m: Stream.Msg, vs: seq<Header>, p: Publication)
    ensures Delivered(m, vs, [], p) == [] && AllExact(m, vs, [], p)
  {
  }

  lemma OneTurn(m: Stream.Msg, vs: seq<Header>, xs: seq<Stop>, i: nat, p: Publication,
                sent: seq<(Client, Stream.Msg)>)
    requires i < |xs|
    ensures var x, vs' := xs[i], After(m, vs, xs[i], p);
            var all, later := sent + Delivered(m, vs, xs[i..], p), Delivered(m, vs', xs[i + 1..], p);
            && (!Wanted(x.s, p) ==> Exact(m, vs, x, p) && vs' == vs && sent + later == all)
            && (Turn(m, vs, x, p) == 4 ==> Exact(m, vs, x, p))
            && (Wanted(x.s, p) && Turn(m, vs, x, p) == 4 ==>
                  sent + [(x.s.client, FreshFrame(m, x.s, p))] + later == all)
            && (Exact(m, vs, x, p) && Turn(m, vs, x, p) != 4 ==> sent + later == all)
            && (!Exact(m, vs, x, p) ==> sent == all)
            && (AllExact(m, vs, xs[i..], p) <==> Exact(m, vs, x, p) && AllExact(m, vs', xs[i + 1..], p))
  {
    hide Made, FreshFrame, Updates, Mixed, SetAll, Absent;
    assert xs[i..][1..] == xs[i + 1..];
    Assoc(sent, Sends(m, vs, xs[i], p), Delivered(m, After(m, vs, xs[i], p), xs[i + 1..], p));
  }

  lemma Exactly(frame: F.Frame, m: Stream.Msg, s: Subscriber, p: Publication)
    requires Touched(frame, m, Updates(s, p))
    ensures Stream.Held(frame) == FreshFrame(m, s, p)
  {
  }

  // ---- the whole request

  /** A subscriber that the search finds is in the tree. */
  lemma FoundInTree(t: Tries.Trie, topic: string, i: nat)
    requires Tries.Wf(t) && i < |Tries.Find(t, Tries.Root, Topics.Levels(topic))|
    ensures Tries.Find(t, Tries.Root, Topics.Levels(topic))[i] in Tries.Members(t)
  {
    hide Tries.Wf, Tries.Find, Tries.Members;
    var subs := Tries.Find(t, Tries.Root, Topics.Levels(topic));
    Tries.SearchIsScan(t, topic, subs[i]);
    assert subs[i] in multiset(subs);
  }

  /** The subscribers that a publication is for, in search order. */
  ghost function Chosen(t: Tries.Trie, topic: string): seq<Subscriber> {
    if Topics.Accepted(topic) then Tries.Find(t, Tries.Root, Topics.Levels(topic)) else []
  }

  /** The delivery frame before any update. */
  function Base(in_frame: F.Frame, now: string): Stream.Msg
    requires in_frame.opcode < 256 && in_frame.flag < 256
    reads in_frame, in_frame.payload
  {
    Stream.Msg(F.OP_MSG, in_frame.flag, Set(in_frame.headers, Header("x-time", now)), in_frame.payload[..])
  }

  /** The publication that a request asks for. */
  function PublicationOf(publisher: Client, in_frame: F.Frame, origin: string, from: string): Publication
    reads in_frame`flag
  {
    Publication(publisher, Replies.IsSet(in_frame.flag, Replies.PUB_ECHO), origin, from)
  }

  /** The subscribers with the client tables that their turns meet: clients come and go between two deliveries. */
  function Stops(subs: seq<Subscriber>, tables: nat -> map<string, Client>): (xs: seq<Stop>)
    ensures |xs| == |subs|
  {
    seq(|subs|, i requires 0 <= i < |subs| => Stop(subs[i], tables(i)))
  }

  /**
   * handle__PUB up to its reply: the frames sent, to whom and in which order. A publication without a topic, and one
   * whose delivery frame cannot be built, ends in an error that is not answered.
   */
  method HandlePub(publisher: Client, in_frame: F.Frame, tree: TopicTree.Tree, tables: nat -> map<string, Client>,
                   now: string, from: string)
    returns (st: Status, sent: seq<(Client, Stream.Msg)>)
    requires in_frame.Valid() && in_frame.completed && in_frame.opcode != 0 && F.Stamp(now) && tree.Valid()
    requires var topic := Get(in_frame.headers, "x-topic");
             topic.Some? ==>
               && Topics.NulFree(topic.value)
               && forall s :: s in Tries.Members(tree.View()) ==>
                    Texts(s, PublicationOf(publisher, in_frame, topic.value, from))
    ensures var topic, m := Get(in_frame.headers, "x-topic"), Base(in_frame, now);
            if topic.None? then st == InvalidTopic && sent == []
            else
              var xs := Stops(Chosen(tree.View(), topic.value), tables);
              var p := PublicationOf(publisher, in_frame, topic.value, from);
              if xs == [] then st == Ok && sent == []
              else if Size(m.headers) >= 65536 then st == MaxVarHeaders && sent == []
              else
                && st == Ok && Delivered(m, [], xs, p) <= sent
                && (AllExact(m, [], xs, p) ==> sent == Delivered(m, [], xs, p))
                && (AllServed(m, [], xs, p) ==> sent == Expected(m, xs, p))
                && forall k :: 0 <= k < |sent| ==> MayReceive(sent[k].0, xs, p)
    ensures in_frame.flag / 0x40 % 2 == 0 ==> forall k :: 0 <= k < |sent| ==> sent[k].0 != publisher
  {
    hide TopicTree.Tree.Linked, TopicTree.Tree.View, Tries.Wf, Tries.Find, Tries.Members, Topics.Levels;
    hide Topics.Accepted, Expected, Texts, Delivered, AllExact, AllServed, Size, Set, Lookup;
    sent := [];
    var topic := Get(in_frame.headers, "x-topic");
    if topic.None? {
      return InvalidTopic, [];
    }
    var p := PublicationOf(publisher, in_frame, topic.value, from);
    var found, subs := tree.FindSubscribers(topic.value);
    st := Ok;
    if found == Ok && |subs| > 0 {
      forall i | 0 <= i < |subs| ensures Texts(subs[i], p) { FoundInTree(tree.View(), topic.value, i); }
      var deliver_frame := new F.Frame();
      st := deliver_frame.MSG(in_frame, now);
      if st == Ok {
        sent := DeliverAll(Stops(subs, tables), deliver_frame, p, Base(in_frame, now));
        st := Ok;
      }
    }
  }

  /** Where a list of turns serves somebody: which turns, in order. */
  ghost predicate Ascending(idx: seq<nat>, n: nat) {
    && (forall k :: 0 <= k < |idx| ==> idx[k] < n)
    && forall j, k :: 0 <= j < k < |idx| ==> idx[j] < idx[k]
  }

  lemma AscendingSnoc(idx: seq<nat>, n: nat)
    requires Ascending(idx, n)
    ensures Ascending(idx, n + 1) && Ascending(idx + [n], n + 1) && n !in idx
    ensures forall i :: i in idx + [n] <==> i in idx || i == n
  {
  }

  lemma Bounded(idx: seq<nat>, n: nat)
    requires Ascending(idx, n)
    ensures forall k :: 0 <= k < |idx| ==> idx[k] < n
  {
  }

  lemma NothingExpected(m: Stream.Msg, p: Publication)
    ensures Expected(m, [], p) == [] && Ascending([], 0)
  {
  }

  lemma {:induction false} ExpectedSnoc(m: Stream.Msg, xs: seq<Stop>, x: Stop, p: Publication)
    ensures Expected(m, xs + [x], p) == Expected(m, xs, p) + ForOne(m, x, p)
  {
    hide ForOne;
    if xs == [] {
      assert xs + [x] == [x] && [x][1..] == [];
    } else {
      assert (xs + [x])[1..] == xs[1..] + [x] && (xs + [x])[0] == xs[0];
      ExpectedSnoc(m, xs[1..], x, p);
      Assoc(ForOne(m, xs[0], p), Expected(m, xs[1..], p), ForOne(m, x, p));
    }
  }

  /**
   * The frames expected, one by one: the turns that serve are those of subscribers of other clients, or of all clients
   * with echo, whose client is there; they come in the order of the list, each with the frame built for it alone.
   */
  lemma {:induction false} ExpectedIs(m: Stream.Msg, xs: seq<Stop>, p: Publication) returns (idx: seq<nat>)
    ensures Ascending(idx, |xs|) && |idx| == |Expected(m, xs, p)|
    ensures forall i :: 0 <= i < |xs| ==>
              var s, table := xs[i].s, xs[i].clients;
              (i in idx <==>
                (s.client != p.publisher || p.echo) && s.client_id in table && table[s.client_id] == s.client)
    ensures forall k :: 0 <= k < |idx| ==>
              Expected(m, xs, p)[k] == (xs[idx[k]].s.client, FreshFrame(m, xs[idx[k]].s, p))
  {
    hide FreshFrame, Expected, Ascending;
    if xs == [] {
      idx := [];
      NothingExpected(m, p);
    } else {
      var n := |xs| - 1;
      var init, x := xs[..n], xs[n];
      idx := ExpectedIs(m, init, p);
      assert xs == init + [x];
      ExpectedSnoc(m, init, x, p);
      AscendingSnoc(idx, n);
      Bounded(idx, n);
      if Wanted(x.s, p) && Found(x) { idx := idx + [n]; }
    }
  }

  /** Who gets something: each wanted subscriber in the list whose client is there at its turn, and nobody else. */
  lemma {:induction false} ExpectedHas(m: Stream.Msg, xs: seq<Stop>, p: Publication, e: (Client, Stream.Msg))
    ensures e in Expected(m, xs, p) <==>
            exists x :: x in xs && Wanted(x.s, p) && Found(x) && e == (x.s.client, FreshFrame(m, x.s, p))
  {
    hide FreshFrame, Wanted, Found;
    if xs != [] { ExpectedHas(m, xs[1..], p, e); }
  }

  /** Main theorem: a publication reaches exactly the subscribers in the tree whose pattern selects the topic. */
  lemma ReachesMatches(t: Tries.Trie, m: Stream.Msg, p: Publication, tables: nat -> map<string, Client>,
                       clients: map<string, Client>, e: (Client, Stream.Msg))
    requires Tries.Wf(t) && Topics.Accepted(p.origin) && forall i :: tables(i) == clients
    ensures e in Expected(m, Stops(Chosen(t, p.origin), tables), p) <==>
            exists s :: s in Tries.Members(t) && Tries.Selects(s, p.origin) && (s.client != p.publisher || p.echo)
                        && Found(Stop(s, clients)) && e == (s.client, FreshFrame(m, s, p))
  {
    hide FreshFrame, Found, Tries.Wf, Tries.Find, Tries.Members, Tries.Selects, Expected;
    hide Topics.Levels, Topics.Accepted;
    var subs := Chosen(t, p.origin);
    var xs := Stops(subs, tables);
    ExpectedHas(m, xs, p, e);
    forall x | x in xs ensures x.clients == clients && x.s in Tries.Members(t) && Tries.Selects(x.s, p.origin) {
      var i :| 0 <= i < |subs| && xs[i] == x;
      Tries.SearchIsScan(t, p.origin, x.s);
      assert x.s in multiset(subs);
    }
    forall s | s in Tries.Members(t) && Tries.Selects(s, p.origin) ensures Stop(s, clients) in xs {
      Tries.SearchIsScan(t, p.origin, s);
      assert s in multiset(subs);
      var i :| 0 <= i < |subs| && subs[i] == s;
      assert xs[i] == Stop(s, clients);
    }
  }

  /** Whatever the tables are meanwhile, nobody gets a frame but subscribers whose pattern selects the topic. */
  lemma ReachesOnlyMatches(t: Tries.Trie, m: Stream.Msg, p: Publication, tables: nat -> map<string, Client>,
                           e: (Client, Stream.Msg))
    requires Tries.Wf(t) && Topics.Accepted(p.origin) && e in Expected(m, Stops(Chosen(t, p.origin), tables), p)
    ensures exists s :: s in Tries.Members(t) && Tries.Selects(s, p.origin) && (s.client != p.publisher || p.echo)
                        && e == (s.client, FreshFrame(m, s, p))
  {
    hide FreshFrame, Found, Tries.Wf, Tries.Find, Tries.Members, Tries.Selects, Expected;
    hide Topics.Levels, Topics.Accepted;
    var subs := Chosen(t, p.origin);
    var xs := Stops(subs, tables);
    ExpectedHas(m, xs, p, e);
    var x :| x in xs && Wanted(x.s, p) && Found(x) && e == (x.s.client, FreshFrame(m, x.s, p));
    var i :| 0 <= i < |subs| && xs[i] == x;
    Tries.SearchIsScan(t, p.origin, x.s);
    assert x.s in multiset(subs);
  }

  /** Between departures every subscriber in the tree has a client that the broker lists, so every match is served. */
  lemma QuietBroker(broker: Subscriptions.Broker, m: Stream.Msg, p: Publication, tables: nat -> map<string, Client>,
                    s: Subscriber)
    requires broker.Valid() && broker.AllListed() && (forall i :: tables(i) == broker.clients)
    requires Topics.Accepted(p.origin) && s in Tries.Members(broker.tree.View()) && Tries.Selects(s, p.origin)
    requires s.client != p.publisher || p.echo
    ensures Found(Stop(s, broker.clients))
    ensures (s.client, FreshFrame(m, s, p)) in Expected(m, Stops(Chosen(broker.tree.View(), p.origin), tables), p)
  {
    hide FreshFrame, Tries.Find, Tries.Members, Tries.Selects, Expected, Topics.Accepted, Chosen;
    hide TopicTree.Tree.Valid;
    TreeWf(broker.tree);
    assert s in broker.subs;
    ReachesMatches(broker.tree.View(), m, p, tables, broker.clients, (s.client, FreshFrame(m, s, p)));
  }

  lemma TreeWf(tree: TopicTree.Tree)
    requires tree.Valid()
    ensures Tries.Wf(tree.View())
  {
  }

  /** The updates in force after all turns of a list. */
  function Later(m: Stream.Msg, vs: seq<Header>, xs: seq<Stop>, p: Publication): seq<Header>
    decreases |xs|
  {
    if xs == [] then vs else Later(m, After(m, vs, xs[0], p), xs[1..], p)
  }

  lemma {:induction false} DeliveredSnoc(m: Stream.Msg, vs: seq<Header>, xs: seq<Stop>, x: Stop, p: Publication)
    ensures AllExact(m, vs, xs + [x], p) <==> AllExact(m, vs, xs, p) && Exact(m, Later(m, vs, xs, p), x, p)
    ensures AllExact(m, vs, xs + [x], p) ==>
              Delivered(m, vs, xs + [x], p) == Delivered(m, vs, xs, p) + Sends(m, Later(m, vs, xs, p), x, p)
    decreases |xs|
  {
    hide After, Exact, Sends;
    if xs == [] {
      assert xs + [x] == [x] && [x][1..] == [];
    } else {
      var vs' := After(m, vs, xs[0], p);
      assert (xs + [x])[1..] == xs[1..] + [x] && (xs + [x])[0] == xs[0];
      DeliveredSnoc(m, vs', xs[1..], x, p);
      Assoc(Sends(m, vs, xs[0], p), Delivered(m, vs', xs[1..], p), Sends(m, Later(m, vs, xs, p), x, p));
    }
  }

  /** Turn i is to send: echo rule, client there, and all four updates fit over what earlier turns left in the frame. */
  ghost predicate Due(m: Stream.Msg, xs: seq<Stop>, i: nat, p: Publication)
    requires i < |xs|
  {
    && (xs[i].s.client != p.publisher || p.echo)
    && xs[i].s.client_id in xs[i].clients && xs[i].clients[xs[i].s.client_id] == xs[i].s.client
    && forall n :: 1 <= n <= 4 ==> Fits(m, Later(m, [], xs[..i], p), Updates(xs[i].s, p), n)
  }

  lemma DueSnoc(m: Stream.Msg, init: seq<Stop>, x: Stop, i: nat, p: Publication)
    requires i < |init|
    ensures Due(m, init + [x], i, p) <==> Due(m, init, i, p)
  {
    hide Fits, Later, Updates;
    assert (init + [x])[..i] == init[..i];
  }

  /** A turn sends its fresh frame exactly when its subscriber is to be served and all four updates fit. */
  lemma SendsIff(m: Stream.Msg, vs: seq<Header>, x: Stop, p: Publication)
    ensures Sends(m, vs, x, p) ==
            if && (x.s.client != p.publisher || p.echo) && x.s.client_id in x.clients
               && x.clients[x.s.client_id] == x.s.client
               && forall n :: 1 <= n <= 4 ==> Fits(m, vs, Updates(x.s, p), n)
            then [(x.s.client, FreshFrame(m, x.s, p))] else []
  {
    hide Fits, FreshFrame;
    var made := Turn(m, vs, x, p);
    assert forall k :: 0 < k <= made ==> Fits(m, vs, Updates(x.s, p), k);
  }

  /**
   * The frames delivered, one by one, as long as the account is exact: the turns that send are those to be served
   * whose four updates fit over what the turns before them have left in the frame.
   */
  lemma {:induction false} DeliveredIs(m: Stream.Msg, xs: seq<Stop>, p: Publication) returns (idx: seq<nat>)
    requires AllExact(m, [], xs, p)
    ensures Ascending(idx, |xs|) && |idx| == |Delivered(m, [], xs, p)|
    ensures forall i :: 0 <= i < |xs| ==> (i in idx <==> Due(m, xs, i, p))
    ensures forall k :: 0 <= k < |idx| ==>
              Delivered(m, [], xs, p)[k] == (xs[idx[k]].s.client, FreshFrame(m, xs[idx[k]].s, p))
  {
    hide FreshFrame, Delivered, AllExact, Ascending, Fits, Later, Sends, Exact, Updates;
    if xs == [] {
      idx := [];
      NothingDelivered(m, p);
    } else {
      var n := |xs| - 1;
      var init, x := xs[..n], xs[n];
      assert xs == init + [x];
      DeliveredSnoc(m, [], init, x, p);
      idx := DeliveredIs(m, init, p);
      assert xs[..n] == init;
      SendsIff(m, Later(m, [], init, p), x, p);
      assert Due(m, xs, n, p) <==> Sends(m, Later(m, [], init, p), x, p) != [];
      AscendingSnoc(idx, n);
      Bounded(idx, n);
      if Sends(m, Later(m, [], init, p), x, p) != [] { idx := idx + [n]; }
      forall i | 0 <= i < n ensures Due(m, xs, i, p) <==> Due(m, init, i, p) { DueSnoc(m, init, x, i, p); }
    }
  }

  lemma NothingDelivered(m: Stream.Msg, p: Publication)
    ensures Delivered(m, [], [], p) == [] && Ascending([], 0)
  {
  }

  /**
   * The echo rule, by the flag of the request: without the bit the publisher gets nothing back, with it every selected
   * subscriber of a client that is there is served, and other clients are served either way.
   */
  lemma EchoRule(publisher: Client, in_frame: F.Frame, origin: string, from: string, t: Tries.Trie, m: Stream.Msg,
                 tables: nat -> map<string, Client>, clients: map<string, Client>)
    requires Tries.Wf(t) && Topics.Accepted(origin) && forall i :: tables(i) == clients
    ensures var p := PublicationOf(publisher, in_frame, origin, from);
            var sent := Expected(m, Stops(Chosen(t, origin), tables), p);
            && (in_frame.flag / 0x40 % 2 == 0 ==> forall e :: e in sent ==> e.0 != publisher)
            && forall s :: && s in Tries.Members(t) && Tries.Selects(s, origin) && Found(Stop(s, clients))
                           && (in_frame.flag / 0x40 % 2 == 1 || s.client != publisher)
                           ==> (s.client, FreshFrame(m, s, p)) in sent
  {
    hide FreshFrame, Found, Tries.Wf, Tries.Members, Tries.Selects, Expected, Topics.Accepted, Chosen;
    var p := PublicationOf(publisher, in_frame, origin, from);
    var sent := Expected(m, Stops(Chosen(t, origin), tables), p);
    forall e | e in sent ensures in_frame.flag / 0x40 % 2 == 1 || e.0 != publisher {
      ReachesMatches(t, m, p, tables, clients, e);
    }
    forall s | s in Tries.Members(t) && Tries.Selects(s, origin) && Found(Stop(s, clients)) &&
        (in_frame.flag / 0x40 % 2 == 1 || s.client != publisher)
      ensures (s.client, FreshFrame(m, s, p)) in sent
    {
      ReachesMatches(t, m, p, tables, clients, (s.client, FreshFrame(m, s, p)));
    }
  }
}
