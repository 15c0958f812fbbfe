/** A connection that carries many frames: the reading loop, and what a cut stream looks like to it. */
module Receiver {
  import opened Basics
  import opened Headers
  import opened Frames
  import opened ByteOrder
  import opened Stream

  function Wires(ms: seq<Msg>): string
  {
    if ms == [] then [] else Bytes(ms[0]) + Wires(ms[1..])
  }

  ghost predicate AllSound(ms: seq<Msg>) {
    forall i :: 0 <= i < |ms| ==> Sound(ms[i])
  }

  /** The start of a frame, without its end. */
  ghost predicate CutShort(cut: string) {
    cut == [] || exists m, n {:trigger Bytes(m)[..n]} :: Sound(m) && 0 <= n < |Bytes(m)| && cut == Bytes(m)[..n]
  }

  /** frame__build has stamped the frame. */
  ghost predicate Stamped(m: Msg) {
    var i := Lookup(m.headers, "x-time");
    i < |m.headers| && Stamp(m.headers[i].value)
  }

  /** The frame with only the value of its x-time header replaced. */
  function Restamp(m: Msg, now: string): Msg {
    m.(headers := Set(m.headers, Header("x-time", now)))
  }

  lemma RestampFits(m: Msg, now: string)
    requires Sound(m) && Stamped(m) && Stamp(now)
    ensures Size(Restamp(m, now).headers) == Size(m.headers) < 65536
    ensures var i := Lookup(m.headers, "x-time");
            Restamp(m, now).headers == m.headers[i := Header("x-time", now)]
  {
    hide Size, Distinct, AllWellEscaped;
    SetSize(m.headers, Header("x-time", now));
  }

  /** A header block of a sound frame passes the scanner. */
  lemma SoundScans(m: Msg, rest: string)
    requires Sound(m)
    ensures var s := Bytes(m) + rest;
            |s| >= FIXED_HEADER_SIZE && Scannable(Field(s[0..2]), s[FIXED_HEADER_SIZE..])
  {
    hide Bytes, Field, Encode, Parse, Size, Network, Keep, SetAll, Distinct, WellEscaped, CutNul, Resume;
    Parts(m);
    var vs, e, s := Size(m.headers), Encode(m.headers), Bytes(m) + rest;
    FieldOf16(vs);
    EncodeSize(m.headers);
    RoundTrip(m.headers);
    Split(Bytes(m), rest, e, m.payload);
    assert s[8..][..vs] == e;
    forall h | h in m.headers ensures AsText(h).value != "" {
      var i :| 0 <= i < |m.headers| && m.headers[i] == h;
      PlainText(h.value);
    }
  }

  lemma CutData(opcode: Octet, flag: Octet, headers: seq<Header>, data_size: nat, data: string, m: Msg, n: nat)
    requires DecodeData(opcode, flag, headers, data_size, data) == Got(m, []) && n < |data|
    ensures DecodeData(opcode, flag, headers, data_size, data[..n]) == Bad(Closed)
  {
  }

  lemma CutHeaders(opcode: Octet, flag: Octet, vars_size: nat, data_size: nat, body: string, m: Msg, n: nat)
    requires DecodeHeaders(opcode, flag, vars_size, data_size, body) == Got(m, []) && n < |body|
    requires Scannable(vars_size, body)
    ensures DecodeHeaders(opcode, flag, vars_size, data_size, body[..n]) == Bad(Closed)
    ensures Scannable(vars_size, body[..n])
  {
    hide Parse, SetAll, Keep, DecodeData;
    if vars_size <= n {
      assert body[..n][..vars_size] == body[..vars_size] &&
          body[..n][vars_size..] == body[vars_size..][..n - vars_size];
      CutData(opcode, flag, SetAll([], Keep(Parse(body[..vars_size], 0).pairs)), data_size, body[vars_size..], m,
          n - vars_size);
    }
  }

  /** A cut frame is never taken for a frame: the receiver finds the connection closed. */
  lemma DecodeCut(m: Msg, n: nat)
    requires Sound(m) && n < |Bytes(m)|
    ensures Decode(Bytes(m)[..n]) == Bad(Closed)
    ensures n >= FIXED_HEADER_SIZE ==> Scannable(Field(Bytes(m)[..n][0..2]), Bytes(m)[..n][FIXED_HEADER_SIZE..])
  {
    hide Sound, Field, Bytes, DecodeHeaders, Code, Scannable;
    var b, s := Bytes(m), Bytes(m)[..n];
    DecodeBytes(m, []);
    SoundScans(m, []);
    assert b + [] == b;
    if n >= 8 {
      assert s[0..2] == b[0..2] && s[4..8] == b[4..8] && s[2] == b[2] && s[3] == b[3] && s[8..] == b[8..][..n - 8];
      CutHeaders(Code(b[2]), Code(b[3]), Field(b[0..2]), Field(b[4..8]), b[8..], m, n - 8);
    }
  }

  lemma NextWire(ms: seq<Msg>, cut: string)
    requires AllSound(ms) && ms != []
    ensures Wires(ms) + cut == Bytes(ms[0]) + (Wires(ms[1..]) + cut)
  {
    hide Bytes, Sound;
    Assoc(Bytes(ms[0]), Wires(ms[1..]), cut);
  }

  /** What the next receive finds. */
  lemma NextDecode(ms: seq<Msg>, cut: string)
    requires AllSound(ms) && CutShort(cut)
    ensures var s := Wires(ms) + cut;
            && Decode(s) == (if ms == [] then Bad(Closed) else Got(ms[0], Wires(ms[1..]) + cut))
            && (|s| >= FIXED_HEADER_SIZE ==> Scannable(Field(s[0..2]), s[FIXED_HEADER_SIZE..]))
  {
    hide Bytes, Field, Parse, Decode, Scannable, Sound;
    if ms == [] {
      assert Wires(ms) + cut == cut;
      if cut == [] {
        assert Decode([]) == Bad(Closed) by { DecodeNothing(); }
      } else {
        var m, n {:trigger Bytes(m)[..n]} :| Sound(m) && 0 <= n < |Bytes(m)| && cut == Bytes(m)[..n];
        DecodeCut(m, n);
      }
    } else {
      NextWire(ms, cut);
      DecodeBytes(ms[0], Wires(ms[1..]) + cut);
      SoundScans(ms[0], Wires(ms[1..]) + cut);
    }
  }

  lemma DecodeNothing()
    ensures Decode([]) == Bad(Closed)
  {
  }

  // ---- what was received can be sent on

  /** Updating with well-escaped headers keeps a table well escaped. */
  lemma {:induction false} SetAllEscaped(hs: seq<Header>, vs: seq<Header>)
    requires Distinct(hs) && AllWellEscaped(hs) && AllWellEscaped(vs)
    ensures Distinct(SetAll(hs, vs)) && AllWellEscaped(SetAll(hs, vs))
    decreases |vs|
  {
    hide WellEscaped, Distinct;
    if vs != [] {
      var init, h := vs[..|vs| - 1], vs[|vs| - 1];
      SetAllEscaped(hs, init);
      SetKeys(SetAll(hs, init), h);
    }
  }

  /**
   * A header block whose headers can be printed again: no NUL, no empty key or value, no escaped quote at its start.
   */
  ghost predicate Reprintable(block: string) {
    && NUL !in block && AllTexts(Parse(block, 0).pairs)
    && !(|block| > 1 && block[0] == ESCAPE && block[1] == QUOTE)
  }

  /** A frame that was read from such a block is sound, so the next receiver reads it back. */
  lemma ReceivedIsSound(s: string, m: Msg, rest: string)
    requires IsBytes(s) && Decode(s) == Got(m, rest)
    requires var vs := Field(s[0..2]);
             vs <= |s| - FIXED_HEADER_SIZE && Reprintable(s[FIXED_HEADER_SIZE..][..vs]) && Size(m.headers) < 65536
    ensures Sound(m)
  {
    hide Parse, SetAll, Keep, Size, WellEscaped, Field;
    var block := s[FIXED_HEADER_SIZE..][..Field(s[0..2])];
    var ps := Parse(block, 0).pairs;
    ParsedEscaped(block, 0);
    KeepAll(ps);
    SetAllEscaped([], ps);
    AnyHost32(s[4..8], true);
  }

  /** A sound frame whose headers are updated with well-escaped ones stays sound as long as they fit. */
  lemma UpdatedIsSound(m: Msg, vs: seq<Header>)
    requires Sound(m) && AllWellEscaped(vs) && Size(SetAll(m.headers, vs)) < 65536
    ensures Sound(m.(headers := SetAll(m.headers, vs)))
  {
    SetAllEscaped(m.headers, vs);
  }

  /** One receive of the frame that comes next, whatever comes after it. */
  method ReceiveNext(conn: Connection, frame: Frame, now: string, bigendian: bool, ghost m: Msg, ghost rest: string)
    returns (st: Status)
    requires conn.Valid() && Flat(conn.inbox) == Bytes(m) + rest && Sound(m) && Stamped(m) && Stamp(now)
    modifies conn`inbox, frame
    ensures conn.Valid() && fresh(frame.payload) && (st == Ok || st == IoError)
    ensures st == Ok ==> Flat(conn.inbox) == rest && frame.Valid() && Held(frame) == Restamp(m, now)
  {
    hide Flat, Decode, Field, Scannable, Sound, Stamped, Bytes, Stamp, Restamp;
    DecodeBytes(m, rest);
    SoundScans(m, rest);
    StepFits(m, now);
    st := RecvFrame(conn, frame, now, bigendian);
  }

  /** What a loop of receives has got: the frames that were sent, in order, each with a time of its own. */
  ghost predicate InOrder(got: seq<Msg>, ms: seq<Msg>, clock: nat -> string) {
    |got| <= |ms| && forall i :: 0 <= i < |got| ==> got[i] == Restamp(ms[i], clock(i))
  }

  /**
   * As many receives as whole frames came first: whatever the fragmentation and whatever follows them, they get exactly
   * these frames, in order, with only the time replaced. Only a failed read cuts the row short.
   */
  method ReceiveFirst(conn: Connection, frame: Frame, clock: nat -> string, bigendian: bool, count: nat,
                      ghost ms: seq<Msg>, ghost rest: string)
    returns (got: seq<Msg>, st: Status)
    requires conn.Valid() && Flat(conn.inbox) == Wires(ms) + rest && |ms| == count
    requires AllSound(ms) && (forall i :: 0 <= i < |ms| ==> Stamped(ms[i])) && forall k :: Stamp(clock(k))
    modifies conn`inbox, frame
    ensures conn.Valid() && InOrder(got, ms, clock) && (st == Ok || st == IoError)
    ensures st == Ok ==> |got| == |ms| && Flat(conn.inbox) == rest
  {
    hide Flat, Wires, Sound, Stamped, Stamp, Restamp, Bytes;
    got, st := [], Ok;
    assert ms[0..] == ms;
    while |got| < count
      invariant st == Ok && InOrder(got, ms, clock) && conn.Valid()
      invariant Flat(conn.inbox) == Wires(ms[|got|..]) + rest
      decreases |ms| - |got|
    {
      ghost var left := ms[|got|..];
      NextWire(left, rest);
      assert left[1..] == ms[|got| + 1..];
      st := ReceiveNext(conn, frame, clock(|got|), bigendian, left[0], Wires(left[1..]) + rest);
      if st != Ok {
        return;
      }
      got := got + [Held(frame)];
    }
    NoWires(ms[|got|..], rest);
  }

  lemma NoWires(ms: seq<Msg>, rest: string)
    requires ms == []
    ensures Wires(ms) + rest == rest
  {
  }

  /**
   * The reading loop of a connection. Whatever the fragmentation, it gets exactly the frames that were sent, in
   * order, with only the time replaced; a frame that was cut off at the end of the stream is not delivered. A failed
   * read ends it early.
   */
  method ReceiveAll(conn: Connection, frame: Frame, clock: nat -> string, bigendian: bool, ghost ms: seq<Msg>,
                    ghost cut: string)
    returns (got: seq<Msg>, st: Status)
    requires conn.Valid() && Flat(conn.inbox) == Wires(ms) + cut
    requires AllSound(ms) && (forall i :: 0 <= i < |ms| ==> Stamped(ms[i])) && CutShort(cut)
    requires forall k :: Stamp(clock(k))
    modifies conn`inbox, frame
    ensures InOrder(got, ms, clock) && (st == Closed || st == IoError)
    ensures st == Closed ==> |got| == |ms|
  {
    hide Flat, Wires, Decode, Field, Scannable, Sound, Stamped, CutShort, Stamp, Restamp;
    got, st := [], Ok;
    assert ms[0..] == ms;
    while st == Ok
      invariant InOrder(got, ms, clock) && conn.Valid()
      invariant st == Ok ==> Flat(conn.inbox) == Wires(ms[|got|..]) + cut
      invariant st == Ok || st == IoError || (st == Closed && |got| == |ms|)
      decreases |ms| - |got|, st == Ok
    {
      ghost var left := ms[|got|..];
      NextDecode(left, cut);
      if left != [] { StepFits(left[0], clock(|got|)); }
      st := RecvFrame(conn, frame, clock(|got|), bigendian);
      if st == Ok {
        assert left[1..] == ms[|got| + 1..];
        got := got + [Held(frame)];
      }
    }
  }

  lemma StepFits(m: Msg, now: string)
    requires Sound(m) && Stamped(m) && Stamp(now)
    ensures var hs := Set(m.headers, Header("x-time", now));
            Size(hs) < 65536 && Restamp(m, now) == m.(headers := hs)
  {
    RestampFits(m, now);
  }
}
