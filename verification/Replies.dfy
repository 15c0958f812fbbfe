/** Requests and replies: the Java client's queue of waiting handlers against the broker's handling loop. */
module Replies {
  import opened Basics
  import opened Headers
  import opened Frames
  import opened Stream
  import opened Receiver

  const PUB: Octet := 3
  const SUB: Octet := 4
  const UNSUB: Octet := 5
  const MSG: Octet := OP_MSG
  const OK: Octet := OP_OK
  const ERR: Octet := OP_ERR
  const ACK: Octet := 0x80
  const PUB_ECHO: Octet := 0x40

  /** Who waits for a reply: a Publisher or a Subscriber, by the fields that never change. */
  datatype Handler = Publisher(topic: string) | Subscriber(topic: string, subTag: string)

  predicate IsOfFrame(h: Handler, frame: Msg) {
    match h
    case Publisher(topic) => Get(frame.headers, "x-sub-tag") == None && Get(frame.headers, "x-topic") == Some(topic)
    case Subscriber(topic, subTag) =>
      Get(frame.headers, "x-topic") == Some(topic) && Get(frame.headers, "x-sub-tag") == Some(subTag)
  }

  /** Subscriber.getIdentifier */
  function Identifier(topic: string, subTag: string): string { topic + "/" + subTag }

  // ---- the requests

  function Timed(hs: seq<Header>, now: string): seq<Header> { Set(hs, Header("x-time", now)) }

  /** buildPubFrame */
  function PubFrame(h: Handler, data: string, now: string): Msg {
    Msg(PUB, ACK + PUB_ECHO, Timed([Header("x-topic", h.topic)], now), data)
  }

  /** buildSubFrame and buildUnsubFrame */
  function TagFrame(op: Octet, h: Handler, now: string): Msg
    requires h.Subscriber?
  {
    Msg(op, ACK, Timed([Header("x-topic", h.topic), Header("x-sub-tag", h.subTag)], now), "")
  }

  /** Setting the time or the status of a frame changes nothing that a handler looks at. */
  lemma KeepsHandler(hs: seq<Header>, h: Header)
    requires h.key == "x-time" || h.key == "x-status-code"
    ensures Get(Set(hs, h), "x-topic") == Get(hs, "x-topic") && Get(Set(hs, h), "x-sub-tag") == Get(hs, "x-sub-tag")
  {
    GetSet(hs, h, "x-topic");
    GetSet(hs, h, "x-sub-tag");
  }

  /** What a publication's frame says: its operation, both flag bits, the topic without a tag, the data. */
  lemma PubFrameIs(h: Handler, data: string, now: string)
    requires h.Publisher?
    ensures var m := PubFrame(h, data, now);
            && m.opcode == 3 && IsSet(m.flag, 0x80) && IsSet(m.flag, 0x40) && m.payload == data
            && Get(m.headers, "x-topic") == Some(h.topic) && Get(m.headers, "x-sub-tag") == None
            && Get(m.headers, "x-time") == Some(now)
            && IsOfFrame(h, m)
  {
    assert |"x-topic"| == 7 && |"x-sub-tag"| == 9 && |"x-time"| == 6;
    var hs := [Header("x-topic", h.topic)];
    KeepsHandler(hs, Header("x-time", now));
    GetSet(hs, Header("x-time", now), "x-time");
  }

  /** The same for a request to subscribe or to unsubscribe, which asks for a reply and no echo and has no data. */
  lemma TagFrameIs(op: Octet, h: Handler, now: string)
    requires h.Subscriber?
    ensures var m := TagFrame(op, h, now);
            && m.opcode == op && IsSet(m.flag, 0x80) && !IsSet(m.flag, 0x40) && m.payload == ""
            && Get(m.headers, "x-topic") == Some(h.topic) && Get(m.headers, "x-sub-tag") == Some(h.subTag)
            && Get(m.headers, "x-time") == Some(now)
            && IsOfFrame(h, m)
  {
    var hs := [Header("x-topic", h.topic), Header("x-sub-tag", h.subTag)];
    assert |"x-topic"| == 7 && |"x-sub-tag"| == 9 && |"x-time"| == 6;
    assert hs[1..] == [Header("x-sub-tag", h.subTag)];
    assert Lookup(hs, "x-topic") == 0 && Lookup(hs[1..], "x-sub-tag") == 0;
    assert Lookup(hs, "x-sub-tag") == 1;
    KeepsHandler(hs, Header("x-time", now));
    GetSet(hs, Header("x-time", now), "x-time");
  }

  /** flag__is_set for one bit */
  predicate IsSet(flag: nat, bit: nat)
    requires bit > 0
  {
    flag / bit % 2 == 1
  }

  /** For the two bits that there are, it is what masking the byte gives. */
  lemma IsSetIsMask(flag: bv8)
    ensures IsSet(flag as nat, ACK) <==> flag & 0x80 != 0
    ensures IsSet(flag as nat, PUB_ECHO) <==> flag & 0x40 != 0
  {
  }

  /** The reply to a request as the broker holds it. */
  function ReplyOf(r: Msg, code: string, text: string, now: string): Msg {
    Msg(if code == "200" then OK else ERR, r.flag, ReplyHeaders(r.headers, code, now), text)
  }

  function ReplyText(s: Status, err_text: string, msg: string): string {
    (if s == Ok then "" else "(" + err_text + ") ") + if msg == "" then "OK." else msg
  }

  /** handle__reply, for a request that came to s: nothing without the ACK flag, else the reply that is sent. */
  method HandleReply(in_frame: Frame, out_frame: Frame, s: Status, err_text: string, msg: string, now: string)
    returns (st: Status, reply: Option<Msg>)
    requires in_frame != out_frame && in_frame.Valid() && in_frame.opcode != 0 && Stamp(now)
    requires |err_text| + |msg| + 6 < 0x1_0000_0000
    modifies out_frame
    ensures !IsSet(in_frame.flag, ACK) ==> st == Ok && reply == None && unchanged(out_frame)
    ensures IsSet(in_frame.flag, ACK) ==>
              var code := if s == Ok then "200" else "500";
              && (st == Ok <==> ReplyFits(in_frame.headers, code, now)) && (st != Ok ==> reply == None)
              && (st == Ok ==> out_frame.Valid() && out_frame.completed && reply == Some(Held(out_frame))
                               && Held(out_frame) == ReplyOf(Held(in_frame), code, ReplyText(s, err_text, msg), now))
    ensures reply.Some? ==>
              var r := reply.value;
              && r.opcode == (if s == Ok then 7 else 8) && r.flag == in_frame.flag
              && Get(r.headers, "x-status-code") == Some(if s == Ok then "200" else "500")
              && Get(r.headers, "x-time") == Some(now)
    ensures reply.Some? ==>
              forall key :: key != "x-status-code" && key != "x-time" ==>
                Get(reply.value.headers, key) == Get(in_frame.headers, key)
  {
    hide ReplyFits, ReplyHeaders, Get;
    reply := None;
    st := Ok;
    if IsSet(in_frame.flag, ACK) {
      if s != Ok {
        st := out_frame.ERR(in_frame, err_text, msg, now);
      } else {
        st := out_frame.OK(in_frame, msg, now);
      }
      if st == Ok {
        reply := Some(Held(out_frame));
      }
    }
  }

  /** The same for a request that was sent as m and read at the time `read`. */
  function ReplyTo(m: Msg, code: string, text: string, read: string, now: string): Msg {
    ReplyOf(Restamp(m, read), code, text, now)
  }

  /** A reply belongs to whoever its request belongs to. */
  lemma ReplyIsOf(h: Handler, m: Msg, code: string, text: string, read: string, now: string)
    ensures IsOfFrame(h, ReplyTo(m, code, text, read, now)) <==> IsOfFrame(h, m)
  {
    var hs := Restamp(m, read).headers;
    var hs' := Set(hs, Header("x-status-code", code));
    KeepsHandler(m.headers, Header("x-time", read));
    KeepsHandler(hs, Header("x-status-code", code));
    KeepsHandler(hs', Header("x-time", now));
  }

  // ---- the client

  datatype View = View(pending: seq<Handler>, subs: map<string, Handler>, sent: seq<Msg>)

  /** A request goes out and its handler joins the queue. */
  function Enqueue(v: View, h: Handler, m: Msg): View { v.(pending := v.pending + [h], sent := v.sent + [m]) }

  function Key(h: Handler): string
    requires h.Subscriber?
  {
    Identifier(h.topic, h.subTag)
  }

  function PubView(v: View, h: Handler, m: Msg, connected: bool): View {
    if h.topic == "" || !connected then v else Enqueue(v, h, m)
  }

  function SubView(v: View, h: Handler, m: Msg, connected: bool): View
    requires h.Subscriber?
  {
    if Key(h) in v.subs || h.topic == "" || !connected then v
    else Enqueue(v, h, m).(subs := v.subs[Key(h) := h])
  }

  function UnsubView(v: View, h: Handler, m: Msg, connected: bool): View
    requires h.Subscriber?
  {
    if Key(h) !in v.subs || h.topic == "" || !connected then v
    else Enqueue(v, h, m).(subs := v.subs - {Key(h)})
  }

  /** The client's side of a request: its frame is the handler's, wants a reply, and is one of the three operations. */
  ghost predicate AskView(v: View, v': View, h: Handler, m: Msg, connected: bool) {
    && IsOfFrame(h, m) && IsSet(m.flag, ACK)
    && (|| (h.Publisher? && m.opcode == PUB && v' == PubView(v, h, m, connected))
        || (h.Subscriber? && m.opcode == SUB && v' == SubView(v, h, m, connected))
        || (h.Subscriber? && m.opcode == UNSUB && v' == UnsubView(v, h, m, connected)))
  }

  class BPSPClient {
    var isConnected: bool
    var pendingReply: seq<Handler>
    var subs: map<string, Handler>
    var sent: seq<Msg>

    function Now(): View
      reads this
    {
      View(pendingReply, subs, sent)
    }

    constructor ()
      ensures Now() == View([], map[], []) && isConnected
    {
      isConnected, pendingReply, subs, sent := true, [], map[], [];
    }

    /** sendFrame: true unless it throws. */
    method SendFrame(m: Msg) returns (ok: bool)
      modifies this`sent
      ensures ok == isConnected && sent == old(sent) + if ok then [m] else []
    {
      ok := isConnected;
      if ok {
        sent := sent + [m];
      }
    }

    /** pub: true unless it throws. */
    method Pub(h: Handler, data: string, now: string) returns (ok: bool)
      requires h.Publisher?
      modifies this`pendingReply, this`sent
      ensures ok <==> h.topic != "" && isConnected
      ensures AskView(old(Now()), Now(), h, PubFrame(h, data, now), isConnected)
      ensures ok ==>
                && |sent| == |old(sent)| + 1 && sent[..|old(sent)|] == old(sent)
                && pendingReply == old(pendingReply) + [h]
                && var m := sent[|old(sent)|];
                   && m.opcode == 3 && IsSet(m.flag, 0x80) && IsSet(m.flag, 0x40) && m.payload == data
                   && Get(m.headers, "x-topic") == Some(h.topic) && Get(m.headers, "x-sub-tag") == None
      ensures !ok ==> Now() == old(Now())
    {
      hide Get, IsOfFrame, PubFrame, IsSet;
      var msg := PubFrame(h, data, now);
      PubFrameIs(h, data, now);
      var topic := Get(msg.headers, "x-topic");
      if topic == None || topic.value == "" {
        return false;
      }
      ok := SendFrame(msg);
      if ok {
        pendingReply := pendingReply + [h];
      }
    }

    method Sub(h: Handler, now: string) returns (ok: bool)
      requires h.Subscriber?
      modifies this`pendingReply, this`sent, this`subs
      ensures ok <==> Key(h) !in old(subs) && h.topic != "" && isConnected
      ensures AskView(old(Now()), Now(), h, TagFrame(SUB, h, now), isConnected)
      ensures ok ==>
                && |sent| == |old(sent)| + 1 && sent[..|old(sent)|] == old(sent)
                && pendingReply == old(pendingReply) + [h] && subs == old(subs)[Key(h) := h]
                && var m := sent[|old(sent)|];
                   && m.opcode == 4 && IsSet(m.flag, 0x80)
                   && Get(m.headers, "x-topic") == Some(h.topic) && Get(m.headers, "x-sub-tag") == Some(h.subTag)
      ensures !ok ==> Now() == old(Now())
    {
      hide Get, IsOfFrame, TagFrame, IsSet;
      TagFrameIs(SUB, h, now);
      var identifier := Identifier(h.topic, h.subTag);
      if identifier in subs {
        return false;
      }
      var sub := TagFrame(SUB, h, now);
      var topic := Get(sub.headers, "x-topic");
      if topic == None || topic.value == "" {
        return false;
      }
      ok := SendFrame(sub);
      if ok {
        pendingReply := pendingReply + [h];
        subs := subs[identifier := h];
      }
    }

    /** unsub: a subscriber that is not registered is passed over in silence. */
    method Unsub(h: Handler, now: string) returns (ok: bool)
      requires h.Subscriber?
      modifies this`pendingReply, this`sent, this`subs
      ensures ok <==> Key(h) !in old(subs) || (h.topic != "" && isConnected)
      ensures AskView(old(Now()), Now(), h, TagFrame(UNSUB, h, now), isConnected)
      ensures ok && Key(h) in old(subs) ==>
                && |sent| == |old(sent)| + 1 && sent[..|old(sent)|] == old(sent)
                && pendingReply == old(pendingReply) + [h] && subs == old(subs) - {Key(h)}
                && var m := sent[|old(sent)|];
                   && m.opcode == 5 && IsSet(m.flag, 0x80)
                   && Get(m.headers, "x-topic") == Some(h.topic) && Get(m.headers, "x-sub-tag") == Some(h.subTag)
      ensures !ok || Key(h) !in old(subs) ==> Now() == old(Now())
    {
      hide Get, IsOfFrame, TagFrame, IsSet;
      TagFrameIs(UNSUB, h, now);
      var identifier := Identifier(h.topic, h.subTag);
      if identifier !in subs {
        return true;
      }
      var unsub := TagFrame(UNSUB, h, now);
      var topic := Get(unsub.headers, "x-topic");
      if topic == None || topic.value == "" {
        return false;
      }
      ok := SendFrame(unsub);
      if ok {
        pendingReply := pendingReply + [h];
        subs := subs - {identifier};
      }
    }

    /** processFrame: the handler that gets the reply, or the subscriber that gets the message. */
    method ProcessFrame(m: Msg) returns (replied: Option<Handler>, consumer: Option<Handler>)
      modifies this`pendingReply
      ensures var v := old(Now());
              && Now() == v.(pending := AfterPoll(v, m))
              && replied == Polled(v, m) && consumer == Consumer(v, m)
    {
      replied, consumer := None, None;
      if m.opcode == OK || m.opcode == ERR {
        if |pendingReply| > 0 {
          replied := Some(pendingReply[0]);
          pendingReply := pendingReply[1..];
        }
      } else if m.opcode == MSG {
        var topic := Get(m.headers, "x-topic");
        var subTag := Get(m.headers, "x-sub-tag");
        var identifier := Identifier(if topic == None then "" else topic.value,
            if subTag == None then "_0" else subTag.value);
        if identifier in subs {
          consumer := Some(subs[identifier]);
        }
      }
    }
  }

  function Polled(v: View, m: Msg): Option<Handler> {
    if (m.opcode == OK || m.opcode == ERR) && v.pending != [] then Some(v.pending[0]) else None
  }

  /** The queue after a frame has been taken. */
  function AfterPoll(v: View, m: Msg): seq<Handler> {
    if (m.opcode == OK || m.opcode == ERR) && v.pending != [] then v.pending[1..] else v.pending
  }

  function Consumer(v: View, m: Msg): Option<Handler> {
    var topic, subTag := Get(m.headers, "x-topic"), Get(m.headers, "x-sub-tag");
    var key := Identifier(if topic == None then "" else topic.value, if subTag == None then "_0" else subTag.value);
    if m.opcode == MSG && key in v.subs then Some(v.subs[key]) else None
  }

  // ---- the client, the broker's loop and the two channels

  /** A request on its way, with the handler that made it. */
  datatype Request = Request(from: Handler, m: Msg)

  /** A frame on its way back: a reply to a request, or a message from any publisher. */
  datatype Back = Reply(to: Request, m: Msg) | Message(m: Msg)

  /** `log` records each reply that has come in, with the handler that got it. */
  datatype State = State(v: View, up: seq<Request>, down: seq<Back>, open: bool, log: seq<(Option<Handler>, Back)>)

  ghost predicate Init(s: State) { s == State(View([], map[], []), [], [], true, []) }

  /**
   * pub, sub or unsub, with the sending and the queueing as one step, whether or not the broker still reads. A call
   * that sends nothing changes nothing.
   */
  ghost predicate Ask(s: State, s': State, h: Handler, m: Msg, connected: bool) {
    && AskView(s.v, s'.v, h, m, connected)
    && s' == s.(v := s'.v, up := if s'.v == s.v then s.up else s.up + [Request(h, m)])
  }

  /** What the broker answers: with a topic only UNSUB can fail and still be answered. */
  ghost predicate Answers(m: Msg, code: string) {
    code == "200" || (m.opcode == UNSUB && code == "500")
  }

  /** The broker's loop takes the next request and replies. */
  ghost predicate Answer(s: State, s': State, code: string, text: string, read: string, now: string) {
    && s.open && s.up != [] && Answers(s.up[0].m, code)
    && s' == s.(up := s.up[1..], down := s.down + [Reply(s.up[0], ReplyTo(s.up[0].m, code, text, read, now))])
  }

  /** The broker's loop ends at a request it does not answer, and the connection with it. */
  ghost predicate Hangup(s: State, s': State) { s.open && s' == s.(open := false) }

  /** A message from some publisher. */
  ghost predicate Deliver(s: State, s': State, m: Msg) {
    s.open && m.opcode == MSG && s' == s.(down := s.down + [Message(m)])
  }

  /** The client's main loop takes the next frame. */
  ghost predicate Take(s: State, s': State) {
    && s.down != []
    && var b := s.down[0];
       && s' == s.(v := s'.v, down := s.down[1..], log := if b.Reply? then s.log + [(Polled(s.v, b.m), b)] else s.log)
       && s'.v == s.v.(pending := AfterPoll(s.v, b.m))
  }

  ghost predicate Next(s: State, s': State) {
    || (exists h, m, connected :: Ask(s, s', h, m, connected)) ||
        (exists code, text, read, now :: Answer(s, s', code, text, read, now))
    || Hangup(s, s') || (exists m :: Deliver(s, s', m)) || Take(s, s')
  }

  /** The handlers of the replies among frames in flight, in order. */
  function Replied(bs: seq<Back>): seq<Handler> {
    if bs == [] then [] else HandlerOf(bs[0]) + Replied(bs[1..])
  }

  function Waiting(rs: seq<Request>): (hs: seq<Handler>)
    ensures |hs| == |rs|
  {
    seq(|rs|, i requires 0 <= i < |rs| => rs[i].from)
  }

  /** A frame in flight towards the client is of the kind its opcode says, and a reply is of its own request. */
  ghost predicate Proper(b: Back) {
    match b
    case Reply(to, m) => (m.opcode == OK || m.opcode == ERR) && IsOfFrame(to.from, m)
    case Message(m) => m.opcode == MSG
  }

  /** A reply that came in went to the handler of the request it answers, and is of that handler. */
  ghost predicate Right(e: (Option<Handler>, Back)) {
    e.1.Reply? && e.0 == Some(e.1.to.from) && IsOfFrame(e.1.to.from, e.1.m)
  }

  /** The queue is the handlers of the replies in flight, then those of the requests in flight. */
  ghost predicate Inv(s: State) {
    && s.v.pending == Replied(s.down) + Waiting(s.up)
    && (forall i :: 0 <= i < |s.down| ==> Proper(s.down[i]))
    && (forall i :: 0 <= i < |s.up| ==> IsOfFrame(s.up[i].from, s.up[i].m))
    && (forall i :: 0 <= i < |s.log| ==> Right(s.log[i]))
  }

  function HandlerOf(b: Back): seq<Handler> { if b.Reply? then [b.to.from] else [] }

  lemma {:induction false} RepliedSnoc(bs: seq<Back>, b: Back)
    ensures Replied(bs + [b]) == Replied(bs) + HandlerOf(b)
  {
    if bs == [] {
      assert bs + [b] == [b];
    } else {
      assert (bs + [b])[1..] == bs[1..] + [b] && (bs + [b])[0] == bs[0];
      RepliedSnoc(bs[1..], b);
      hide HandlerOf;
      Assoc(HandlerOf(bs[0]), Replied(bs[1..]), HandlerOf(b));
    }
  }

  lemma AskInv(s: State, s': State, h: Handler, m: Msg, connected: bool)
    requires Inv(s) && Ask(s, s', h, m, connected)
    ensures Inv(s')
  {
    hide IsOfFrame, Proper, Right, Replied;
    assert s'.v != s.v ==> s'.v.pending == s.v.pending + [h];
    assert Waiting(s.up + [Request(h, m)]) == Waiting(s.up) + [h];
  }

  /** The answer to the first request moves its handler from one channel's list to the other's. */
  lemma Shift(up: seq<Request>, down: seq<Back>, b: Back)
    requires up != [] && b.Reply? && b.to == up[0]
    ensures Replied(down + [b]) + Waiting(up[1..]) == Replied(down) + Waiting(up)
  {
    RepliedSnoc(down, b);
    assert Waiting(up) == [up[0].from] + Waiting(up[1..]);
  }

  lemma AnswerIsProper(r: Request, code: string, text: string, read: string, now: string)
    requires IsOfFrame(r.from, r.m)
    ensures Proper(Reply(r, ReplyTo(r.m, code, text, read, now)))
  {
    hide IsOfFrame;
    ReplyIsOf(r.from, r.m, code, text, read, now);
  }

  lemma AnswerInv(s: State, s': State, code: string, text: string, read: string, now: string)
    requires Inv(s) && Answer(s, s', code, text, read, now)
    ensures Inv(s')
  {
    hide IsOfFrame, Right, Replied, Waiting, ReplyTo, Proper;
    var r := s.up[0];
    AnswerIsProper(r, code, text, read, now);
    Shift(s.up, s.down, Reply(r, ReplyTo(r.m, code, text, read, now)));
  }

  lemma DeliverInv(s: State, s': State, m: Msg)
    requires Inv(s) && Deliver(s, s', m)
    ensures Inv(s')
  {
    hide IsOfFrame, Right, Replied;
    RepliedSnoc(s.down, Message(m));
  }

  /** The first reply in flight is for the first handler in the queue. */
  lemma HeadIsRight(s: State)
    requires Inv(s) && s.down != [] && s.down[0].Reply?
    ensures var b := s.down[0];
            && Right((Polled(s.v, b.m), b)) && (b.m.opcode == OK || b.m.opcode == ERR)
            && s.v.pending != [] && s.v.pending[1..] == Replied(s.down[1..]) + Waiting(s.up)
  {
    hide IsOfFrame, Waiting;
    var b := s.down[0];
    assert Proper(b);
    assert Replied(s.down) == [b.to.from] + Replied(s.down[1..]);
  }

  lemma HeadMessage(s: State)
    requires Inv(s) && s.down != [] && s.down[0].Message?
    ensures s.down[0].m.opcode == MSG && Replied(s.down) == Replied(s.down[1..])
  {
    hide IsOfFrame, Waiting;
    assert Proper(s.down[0]);
  }

  lemma TakeInv(s: State, s': State)
    requires Inv(s) && Take(s, s')
    ensures Inv(s')
  {
    hide IsOfFrame, Right, Proper, Replied, Waiting, Polled;
    if s.down[0].Reply? {
      HeadIsRight(s);
    } else {
      HeadMessage(s);
    }
  }

  lemma NextInv(s: State, s': State)
    requires Inv(s) && Next(s, s')
    ensures Inv(s')
  {
    hide Inv, Ask, Answer, Deliver, Take;
    if h, m, connected :| Ask(s, s', h, m, connected) {
      AskInv(s, s', h, m, connected);
    } else if code, text, read, now :| Answer(s, s', code, text, read, now) {
      AnswerInv(s, s', code, text, read, now);
    } else if m :| Deliver(s, s', m) {
      DeliverInv(s, s', m);
    } else if Take(s, s') {
      TakeInv(s, s');
    } else {
      HangupInv(s, s');
    }
  }

  lemma HangupInv(s: State, s': State)
    requires Inv(s) && Hangup(s, s')
    ensures Inv(s')
  {
  }

  lemma InitInv(s: State)
    requires Init(s)
    ensures Inv(s)
  {
  }

  ghost predicate Run(run: seq<State>) {
    && run != [] && Init(run[0])
    && forall i: nat {:trigger Then(run, i)} :: i + 1 < |run| ==> Next(run[i], Then(run, i))
  }

  lemma {:induction false} RunInv(run: seq<State>, i: nat)
    requires Run(run) && i < |run|
    ensures Inv(run[i])
  {
    hide Inv, Next, Init;
    if i == 0 {
      InitInv(run[0]);
    } else {
      RunInv(run, i - 1);
      assert Next(run[i - 1], Then(run, i - 1));
      NextInv(run[i - 1], run[i]);
    }
  }

  /**
   * Main theorem: in every run each OK and ERR goes to the handler of the request it answers, and is of that handler.
   */
  lemma RepliesMatch(run: seq<State>, i: nat, j: nat)
    requires Run(run) && i < |run| && j < |run[i].log|
    ensures Right(run[i].log[j])
    ensures run[i].v.pending == Replied(run[i].down) + Waiting(run[i].up)
  {
    RunInv(run, i);
  }

  // ---- who is registered

  /** The identifier that a request to subscribe or unsubscribe speaks of. */
  ghost predicate Names(m: Msg, key: string) {
    && (m.opcode == SUB || m.opcode == UNSUB)
    && var topic, tag := Get(m.headers, "x-topic"), Get(m.headers, "x-sub-tag");
       topic.Some? && tag.Some? && topic.value + "/" + tag.value == key
  }

  /** The last request about the handler's identifier was its own SUB. */
  ghost predicate Subscribed(sent: seq<Msg>, h: Handler)
    requires h.Subscriber?
  {
    exists i :: 0 <= i < |sent| && sent[i].opcode == SUB && IsOfFrame(h, sent[i])
             && forall j :: i < j < |sent| ==> !Names(sent[j], Key(h))
  }

  ghost predicate Registered(v: View, h: Handler)
    requires h.Subscriber?
  {
    Key(h) in v.subs && v.subs[Key(h)] == h
  }

  /** The registered handlers are those whose last request was a SUB, each under its own identifier. */
  ghost predicate Registry(v: View) {
    && (forall h: Handler :: h.Subscriber? ==> (Registered(v, h) <==> Subscribed(v.sent, h)))
    && (forall k :: k in v.subs ==> v.subs[k].Subscriber? && Key(v.subs[k]) == k)
  }

  lemma NamesKey(h: Handler, m: Msg)
    requires h.Subscriber? && IsOfFrame(h, m)
    ensures forall key :: Names(m, key) <==> (m.opcode == SUB || m.opcode == UNSUB) && key == Key(h)
    ensures forall x: Handler :: x.Subscriber? && IsOfFrame(x, m) ==> x == h
  {
    hide Get;
  }

  /** A further frame leaves a subscription as it is unless it names its identifier. */
  lemma SubscribedSnoc(sent: seq<Msg>, m: Msg, h: Handler)
    requires h.Subscriber?
    ensures Subscribed(sent + [m], h) <==>
            (m.opcode == SUB && IsOfFrame(h, m)) || (Subscribed(sent, h) && !Names(m, Key(h)))
  {
    hide IsOfFrame, Names;
    var r := sent + [m];
    assert r[|sent|] == m && forall i :: 0 <= i < |sent| ==> r[i] == sent[i];
    if Subscribed(r, h) {
      var i :| 0 <= i < |r| && r[i].opcode == SUB && IsOfFrame(h, r[i])
               && forall j :: i < j < |r| ==> !Names(r[j], Key(h));
      if i < |sent| { assert sent[i].opcode == SUB && !Names(r[|sent|], Key(h)); }
    }
    if Subscribed(sent, h) && !Names(m, Key(h)) {
      var i :| 0 <= i < |sent| && sent[i].opcode == SUB && IsOfFrame(h, sent[i])
               && forall j :: i < j < |sent| ==> !Names(sent[j], Key(h));
      assert r[i].opcode == SUB && IsOfFrame(h, r[i]) && forall j :: i < j < |r| ==> !Names(r[j], Key(h));
    }
  }

  lemma PubRegistry(v: View, v': View, m: Msg)
    requires Registry(v) && m.opcode == PUB && v'.subs == v.subs && v'.sent == v.sent + [m]
    ensures Registry(v')
  {
    hide Subscribed, IsOfFrame;
    forall h: Handler | h.Subscriber? ensures Registered(v', h) <==> Subscribed(v'.sent, h) {
      SubscribedSnoc(v.sent, m, h);
    }
  }

  lemma TagRegistry(v: View, v': View, h: Handler, m: Msg)
    requires Registry(v) && h.Subscriber? && IsOfFrame(h, m) && v'.sent == v.sent + [m]
    requires || (m.opcode == SUB && Key(h) !in v.subs && v'.subs == v.subs[Key(h) := h])
             || (m.opcode == UNSUB && v'.subs == v.subs - {Key(h)})
    ensures Registry(v')
  {
    hide Subscribed, IsOfFrame, Names, Key;
    NamesKey(h, m);
    forall x: Handler | x.Subscriber? ensures Registered(v', x) <==> Subscribed(v'.sent, x) {
      SubscribedSnoc(v.sent, m, x);
      NamesKey(h, m);
      assert Registered(v, x) <==> Subscribed(v.sent, x);
    }
  }

  lemma AskRegistry(v: View, v': View, h: Handler, m: Msg, connected: bool)
    requires Registry(v) && AskView(v, v', h, m, connected)
    ensures Registry(v')
  {
    hide Registry, IsOfFrame, Key;
    if v' != v {
      if h.Publisher? { PubRegistry(v, v', m); } else { TagRegistry(v, v', h, m); }
    }
  }

  /** The requests that the broker has not taken yet are the last ones sent. */
  ghost predicate InFlight(s: State) {
    && |s.up| <= |s.v.sent|
    && forall i :: 0 <= i < |s.up| ==> s.up[i].m == s.v.sent[|s.v.sent| - |s.up| + i]
  }

  lemma NextRegistry(s: State, s': State)
    requires Registry(s.v) && InFlight(s) && Next(s, s')
    ensures Registry(s'.v) && InFlight(s')
  {
    hide Registry, IsOfFrame, Key, IsSet, ReplyTo, Polled;
    if h, m, connected :| Ask(s, s', h, m, connected) {
      AskRegistry(s.v, s'.v, h, m, connected);
    } else if Take(s, s') {
      SameRegistry(s.v, s'.v);
    }
  }

  lemma SameRegistry(v: View, v': View)
    requires Registry(v) && v'.subs == v.subs && v'.sent == v.sent
    ensures Registry(v')
  {
    hide Subscribed;
    forall h: Handler | h.Subscriber? ensures Registered(v', h) <==> Subscribed(v'.sent, h) {
      assert Registered(v, h) <==> Subscribed(v.sent, h);
    }
  }

  /** Main theorem: in every run the client hands messages to just those handlers whose last request was a SUB. */
  lemma {:induction false} RunRegistry(run: seq<State>, i: nat)
    requires Run(run) && i < |run|
    ensures Registry(run[i].v) && InFlight(run[i])
  {
    hide Next, Registry;
    if i == 0 {
      NoneRegistered();
    } else {
      RunRegistry(run, i - 1);
      assert Next(run[i - 1], Then(run, i - 1));
      NextRegistry(run[i - 1], run[i]);
    }
  }

  lemma NoneRegistered()
    ensures Registry(View([], map[], []))
  {
  }

  /** A message is looked up by its topic and tag, which stand for nothing and `_0` when they are missing. */
  lemma ConsumerIs(v: View, m: Msg, topic: string, tag: string)
    requires Get(m.headers, "x-topic") == Some(topic) || (Get(m.headers, "x-topic") == None && topic == "")
    requires Get(m.headers, "x-sub-tag") == Some(tag) || (Get(m.headers, "x-sub-tag") == None && tag == "_0")
    ensures m.opcode == 6 && topic + "/" + tag in v.subs ==> Consumer(v, m) == Some(v.subs[topic + "/" + tag])
    ensures m.opcode != 6 || topic + "/" + tag !in v.subs ==> Consumer(v, m) == None
  {
    hide Get;
  }

  /** Once subscribed, a handler gets the messages with its topic and tag; all other registrations stay. */
  lemma SubscribedGets(v: View, v': View, h: Handler, m: Msg, msg: Msg)
    requires h.Subscriber? && m.opcode == SUB && AskView(v, v', h, m, true) && v' != v
    requires msg.opcode == MSG && IsOfFrame(h, msg)
    ensures Consumer(v', msg) == Some(h)
    ensures forall x: Handler :: x.Subscriber? && Key(x) != Key(h) ==> (Registered(v', x) <==> Registered(v, x))
  {
    hide Get;
    ConsumerIs(v', msg, h.topic, h.subTag);
  }

  /** Once unsubscribed it gets none, and it can subscribe again; all other registrations stay. */
  lemma UnsubscribedGetsNone(v: View, v': View, h: Handler, m: Msg, msg: Msg, again: Msg)
    requires h.Subscriber? && m.opcode == UNSUB && AskView(v, v', h, m, true)
    requires msg.opcode == MSG && IsOfFrame(h, msg) && h.topic != ""
    ensures Consumer(v', msg) == None
    ensures SubView(v', h, again, true) == v'.(pending := v'.pending + [h], sent := v'.sent + [again],
                                               subs := v'.subs[Key(h) := h])
    ensures forall x: Handler :: x.Subscriber? && Key(x) != Key(h) ==> (Registered(v', x) <==> Registered(v, x))
  {
    hide Get;
    ConsumerIs(v', msg, h.topic, h.subTag);
  }

  /** A topic may hold a slash, so two handlers can have one identifier: exactly when the longer topic is the shorter
      one, a slash and the start of the shorter one's tag. A message for one then goes to the other. */
  lemma KeysClash(g: Handler, h: Handler)
    requires g.Subscriber? && h.Subscriber? && |g.topic| <= |h.topic|
    ensures Key(g) == Key(h) <==> g == h || exists x :: h.topic == g.topic + "/" + x && g.subTag == x + "/" + h.subTag
  {
    JoinClash(g.topic, g.subTag, h.topic, h.subTag);
  }
}
