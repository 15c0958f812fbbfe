/** frame_rw.c over the read and write loops of net.c: frames to bytes and back, under any fragmentation. */
module Stream {
  import opened Basics
  import opened Headers
  import opened Frames
  import opened ByteOrder

  const FIXED_HEADER_SIZE: nat := 8

  type Octet = n: nat | n < 256

  /** datatype__d8 */
  function Code(c: char): (o: Octet)
    ensures c as nat < 256 ==> o == c as nat
  {
    c as nat % 256
  }

  /** What a frame carries. */
  datatype Msg = Msg(opcode: Octet, flag: Octet, headers: seq<Header>, payload: string)

  function Fixed(m: Msg): (s: string)
    ensures |s| == FIXED_HEADER_SIZE
  {
    Network(Size(m.headers), 2) + [AsChar(m.opcode), AsChar(m.flag)] + Network(|m.payload|, 4)
  }

  /** The bytes of a frame. */
  function Bytes(m: Msg): string
  {
    Fixed(m) + Encode(m.headers) + m.payload
  }

  // ---- the connection

  function Flat(chunks: seq<string>): string {
    if chunks == [] then [] else chunks[0] + Flat(chunks[1..])
  }

  /** One end of a connection: the chunks still to arrive, in any cutting, and all that was sent. */
  class Connection {
    var inbox: seq<string>
    var sent: string

    ghost predicate Valid()
      reads this
    {
      (forall i :: 0 <= i < |inbox| ==> inbox[i] != []) && IsBytes(Flat(inbox))
    }

    /** recv: -1 for an error, 0 when the peer has closed, else some bytes of the first chunk, at most `size`. */
    method Recv(size: nat) returns (n: int, w: string)
      requires Valid() && size > 0
      modifies this`inbox
      ensures Valid() && |w| <= size && old(Flat(inbox)) == w + Flat(inbox)
      ensures n == -1 ==> w == []
      ensures n != -1 ==> n == |w| && (n == 0 <==> old(Flat(inbox)) == [])
    {
      if * {
        return -1, [];
      }
      if inbox == [] {
        return 0, [];
      }
      ghost var all := Flat(inbox);
      n := if |inbox[0]| < size then |inbox[0]| else size;
      w := inbox[0][..n];
      var rest := inbox[0][n..];
      ghost var tail := Flat(inbox[1..]);
      Cut(inbox[0], n, tail);
      inbox := if rest == [] then inbox[1..] else [rest] + inbox[1..];
      assert rest != [] ==> inbox[0] == rest && inbox[1..] == old(inbox)[1..];
      assert Flat(inbox) == rest + tail;
    }

    /** send: -1 for an error, else how many of the bytes were taken. */
    method Send(w: string) returns (n: int)
      requires w != []
      modifies this`sent
      ensures -1 <= n <= |w| && sent == old(sent) + w[..if n < 0 then 0 else n]
    {
      if * {
        return -1;
      }
      n :| 0 <= n <= |w|;
      sent := sent + w[..n];
    }
  }

  lemma Cut(c: string, n: nat, tail: string)
    requires n <= |c|
    ensures c + tail == c[..n] + (c[n..] + tail)
    ensures IsBytes(c + tail) ==> IsBytes(c[n..] + tail)
  {
    var r := c[n..] + tail;
    assert c + tail == c[..n] + r;
    assert forall i :: 0 <= i < |r| ==> r[i] == (c + tail)[n + i];
  }

  /** net__read. Blocking, it reads all it was asked for unless the peer closes or an error comes first. */
  method NetRead(conn: Connection, buf: array<char>, size: nat, block: bool) returns (st: Status, n_read: nat)
    requires conn.Valid() && size <= buf.Length
    modifies conn`inbox, buf
    ensures conn.Valid() && (st == Ok || st == Closed || st == IoError)
    ensures var s := old(Flat(conn.inbox));
            && n_read <= size && n_read <= |s| && buf[..n_read] == s[..n_read] && Flat(conn.inbox) == s[n_read..]
            && (block && st != IoError ==> n_read == (if size <= |s| then size else |s|) && (st == Ok <==> size <= |s|))
            && (!block && st == Ok ==> n_read > 0 || size == 0)
            && (st == Closed ==> n_read == |s|)
  {
    ghost var s := Flat(conn.inbox);
    st, n_read := Ok, 0;
    assert s[0..] == s;
    while n_read < size
      invariant conn.Valid() && n_read <= size && n_read <= |s| && Flat(conn.inbox) == s[n_read..]
      invariant buf[..n_read] == s[..n_read] && (!block ==> n_read == 0)
    {
      var n, w := conn.Recv(size - n_read);
      if n == 0 {
        st := Closed;
        break;
      }
      if n < 0 {
        st := IoError;
        break;
      }
      Advance(s, n_read, w, Flat(conn.inbox));
      forall j | 0 <= j < |w| { buf[n_read + j] := w[j]; }
      assert buf[..n_read + |w|] == buf[..n_read] + w;
      n_read := n_read + n;
      if !block {
        break;
      }
    }
  }

  lemma Advance(s: string, n: nat, w: string, rest: string)
    requires n <= |s| && s[n..] == w + rest
    ensures n + |w| <= |s| && s[..n + |w|] == s[..n] + w && s[n + |w|..] == rest
  {
    assert s == s[..n] + (w + rest);
  }

  /** net__write. Blocking, it sends all it was given unless the connection closes or an error comes first. */
  method NetWrite(conn: Connection, buf: array<char>, size: nat, block: bool) returns (st: Status, n_write: nat)
    requires size <= buf.Length
    modifies conn`sent
    ensures n_write <= size && conn.sent == old(conn.sent) + buf[..n_write]
    ensures st == Ok || st == Closed || st == IoError
    ensures block ==> (st == Ok <==> n_write == size)
    ensures !block ==> (st == Ok <==> n_write > 0 || size == 0)
  {
    st, n_write := Ok, 0;
    while n_write < size
      invariant n_write <= size && conn.sent == old(conn.sent) + buf[..n_write] && (!block ==> n_write == 0)
    {
      var n := conn.Send(buf[n_write..size]);
      assert n >= 0 ==> buf[..n_write + n] == buf[..n_write] + buf[n_write..size][..n];
      if n == 0 {
        st := Closed;
        break;
      }
      if n < 0 {
        st := IoError;
        break;
      }
      n_write := n_write + n;
      if !block {
        break;
      }
    }
  }

  // ---- frame__recv

  datatype Decoded = Got(msg: Msg, rest: string) | Bad(st: Status)

  /** What the next bytes of a connection hold. */
  function Decode(s: string): Decoded {
    if |s| < FIXED_HEADER_SIZE then Bad(Closed)
    else DecodeHeaders(Code(s[2]), Code(s[3]), Field(s[0..2]), Field(s[4..8]), s[FIXED_HEADER_SIZE..])
  }

  /** The same after the fixed header. */
  function DecodeHeaders(opcode: Octet, flag: Octet, vars_size: nat, data_size: nat, body: string): Decoded {
    if opcode == 0 then Bad(InvalidOpcode)
    else if |body| < vars_size then Bad(Closed)
    else
      var p := Parse(body[..vars_size], 0);
      if p.ok then DecodeData(opcode, flag, SetAll([], Keep(p.pairs)), data_size, body[vars_size..])
      else Bad(InvalidVarHeaders)
  }

  /** The same after the headers. */
  function DecodeData(opcode: Octet, flag: Octet, headers: seq<Header>, data_size: nat, data: string): Decoded {
    if |data| < data_size then Bad(Closed)
    else Got(Msg(opcode, flag, headers, data[..data_size]), data[data_size..])
  }

  /** A header block that the scanner can take: a key has a value, and 65535 bytes do not end with the end of a pair. */
  ghost predicate Scannable(vars_size: nat, body: string) {
    vars_size <= |body| ==>
      && (vars_size == 65535 ==> Resume(body[..vars_size], 0) <= vars_size)
      && TextsOk(Parse(body[..vars_size], 0).pairs)
  }

  /** What a receive leaves behind, when the bytes held d and no read failed. */
  ghost predicate Received(d: Decoded, st: Status, frame: Frame, rest: string, now: string)
    reads frame, frame.payload
  {
    st == IoError ||
    match d
    case Bad(e) => st == e
    case Got(m, r) =>
      && rest == r
      && var hs := Set(m.headers, Header("x-time", now));
         if Size(hs) < 65536 then st == Ok && frame.Valid() && frame.completed && Carries(frame, m.(headers := hs))
         else st == MaxVarHeaders
  }

  ghost predicate Carries(frame: Frame, m: Msg)
    reads frame, frame.payload
  {
    frame.opcode == m.opcode && frame.flag == m.flag && frame.headers == m.headers && frame.payload[..] == m.payload
  }

  /** The end of frame__recv: the payload, then the build. */
  method RecvPayload(conn: Connection, frame: Frame, data_size: nat, now: string) returns (st: Status)
    requires conn.Valid() && frame.Valid() && frame.opcode != 0 && frame.payload_size == 0
    requires data_size < 0x1_0000_0000 && Stamp(now)
    modifies conn`inbox, frame, frame.payload
    ensures conn.Valid() && (frame.payload == old(frame.payload) || fresh(frame.payload))
    ensures Received(DecodeData(old(frame.opcode), old(frame.flag), old(frame.headers), data_size,
        old(Flat(conn.inbox))),
                     st, frame, Flat(conn.inbox), now)
  {
    hide Set, Size, Distinct, Filled, IsBytes, Flat;
    frame.MallocPayload(data_size);
    if data_size > 0 {
      var n_read;
      st, n_read := NetRead(conn, frame.payload, data_size, true);
      frame.pos := n_read;
      if st != Ok {
        return;
      }
    }
    assert Flat(conn.inbox) == old(Flat(conn.inbox))[data_size..];
    assert frame.payload[..] == old(Flat(conn.inbox))[..data_size];
    st := frame.Build(now);
  }

  /** The middle of frame__recv: the headers. */
  method RecvHeaders(conn: Connection, frame: Frame, vars_size: nat, data_size: nat, now: string) returns (st: Status)
    requires conn.Valid() && frame.Valid() && frame.opcode != 0 && frame.payload_size == 0 && frame.headers == []
    requires vars_size < 0x1_0000 && data_size < 0x1_0000_0000 && Stamp(now) && Scannable(vars_size, Flat(conn.inbox))
    modifies conn`inbox, frame, frame.payload
    ensures conn.Valid() && (frame.payload == old(frame.payload) || fresh(frame.payload))
    ensures Received(DecodeHeaders(old(frame.opcode), old(frame.flag), vars_size, data_size, old(Flat(conn.inbox))),
                     st, frame, Flat(conn.inbox), now)
  {
    hide Parse, Set, SetAll, Keep, Distinct, Filled, IsBytes, Flat, Received;
    ghost var body := Flat(conn.inbox);
    ghost var d := DecodeHeaders(frame.opcode, frame.flag, vars_size, data_size, body);
    var var_hdr_buf := new char[vars_size];
    var n_read;
    st, n_read := NetRead(conn, var_hdr_buf, vars_size, true);
    if st != Ok {
      Rejected(d, frame, Flat(conn.inbox), now);
      return;
    }
    assert var_hdr_buf[..vars_size] == body[..vars_size];
    st := frame.ParseVarHeader(var_hdr_buf, vars_size);
    if st != Ok {
      Rejected(d, frame, Flat(conn.inbox), now);
      return;
    }
    st := RecvPayload(conn, frame, data_size, now);
  }

  lemma Rejected(d: Decoded, frame: Frame, rest: string, now: string)
    ensures Received(d, IoError, frame, rest, now) && (d.Bad? ==> Received(d, d.st, frame, rest, now))
  {
  }

  /** The start of frame__recv: the fixed header. */
  method RecvFixed(conn: Connection, bigendian: bool)
    returns (st: Status, vars_size: nat, opcode: Octet, flag: Octet, data_size: nat)
    requires conn.Valid()
    modifies conn`inbox
    ensures conn.Valid()
    ensures var s := old(Flat(conn.inbox));
            st == IoError ||
            if |s| < FIXED_HEADER_SIZE then st == Closed
            else
              && st == Ok && Flat(conn.inbox) == s[FIXED_HEADER_SIZE..]
              && vars_size == Field(s[0..2]) < 0x1_0000 && data_size == Field(s[4..8]) < 0x1_0000_0000
              && opcode == Code(s[2]) < 256 && flag == Code(s[3]) < 256
  {
    hide Field, Flat, Code;
    vars_size, opcode, flag, data_size := 0, 0, 0, 0;
    ghost var s := Flat(conn.inbox);
    var fixed_header, n_read := new char[FIXED_HEADER_SIZE], 0;
    st, n_read := NetRead(conn, fixed_header, FIXED_HEADER_SIZE, true);
    if st != Ok {
      return;
    }
    FixedFields(s, fixed_header[..], bigendian);
    assert fixed_header[..][0..2] == fixed_header[0..2] && fixed_header[..][4..8] == fixed_header[4..8];
    vars_size, opcode, flag := D16(fixed_header[0..2], bigendian), Code(fixed_header[2]), Code(fixed_header[3]);
    data_size := D32(fixed_header[4..8], bigendian);
  }

  /** frame__recv, at the time `now`: whatever the chunks, what arrives is what the bytes hold, with a new time. */
  method RecvFrame(conn: Connection, frame: Frame, now: string, bigendian: bool) returns (st: Status)
    requires conn.Valid() && Stamp(now)
    requires var s := Flat(conn.inbox);
             |s| >= FIXED_HEADER_SIZE ==> Scannable(Field(s[0..2]), s[FIXED_HEADER_SIZE..])
    modifies conn`inbox, frame
    ensures conn.Valid() && fresh(frame.payload)
    ensures Received(Decode(old(Flat(conn.inbox))), st, frame, Flat(conn.inbox), now)
  {
    hide DecodeHeaders, Scannable, Field, Flat, Received, Code;
    ghost var s := Flat(conn.inbox);
    frame.Empty();
    var vars_size, opcode, flag, data_size;
    st, vars_size, opcode, flag, data_size := RecvFixed(conn, bigendian);
    if st != Ok {
      Rejected(Decode(s), frame, Flat(conn.inbox), now);
      return;
    }
    st := frame.SetFrameControl(opcode, flag);
    if st != Ok {
      ZeroOpcode(flag, vars_size, data_size, s[FIXED_HEADER_SIZE..]);
      Rejected(Decode(s), frame, Flat(conn.inbox), now);
      return;
    }
    st := RecvHeaders(conn, frame, vars_size, data_size, now);
  }

  lemma ZeroOpcode(flag: Octet, vars_size: nat, data_size: nat, body: string)
    ensures DecodeHeaders(0, flag, vars_size, data_size, body) == Bad(InvalidOpcode)
  {
  }

  /** The fixed header as either host reads it. */
  lemma FixedFields(s: string, fixed: string, bigendian: bool)
    requires |s| >= FIXED_HEADER_SIZE && fixed == s[..FIXED_HEADER_SIZE] && IsBytes(s)
    ensures D16(fixed[0..2], bigendian) == Field(s[0..2]) < 0x1_0000
    ensures D32(fixed[4..8], bigendian) == Field(s[4..8]) < 0x1_0000_0000
    ensures fixed[2] == s[2] && fixed[3] == s[3]
  {
    assert fixed[0..2] == s[0..2] && fixed[4..8] == s[4..8];
    AnyHost16(s[0..2], bigendian);
    AnyHost32(s[4..8], bigendian);
  }

  // ---- frame__send

  /** What a frame holds. */
  function Held(frame: Frame): Msg
    requires frame.opcode < 256 && frame.flag < 256
    reads frame, frame.payload
  {
    Msg(frame.opcode, frame.flag, frame.headers, frame.payload[..])
  }

  /** Of the bytes `all` some were sent, and nothing else. */
  ghost predicate SentSome(before: string, all: string, sent: string) {
    exists n {:trigger all[..n]} :: 0 <= n <= |all| && sent == before + all[..n]
  }

  /** Send one part of a frame, after the parts x and before the parts z. */
  method SendPart(conn: Connection, buf: array<char>, size: nat, ghost before: string, ghost x: string, ghost z: string)
    returns (st: Status, n_write: nat)
    requires size <= buf.Length && conn.sent == before + x
    modifies conn`sent
    ensures n_write <= size
    ensures st == Ok ==> conn.sent == before + (x + buf[..size])
    ensures SentSome(before, x + buf[..size] + z, conn.sent)
  {
    st, n_write := NetWrite(conn, buf, size, true);
    Partly(before, x, buf[..size], z, n_write);
    assert buf[..size][..n_write] == buf[..n_write];
  }

  lemma Partly(before: string, x: string, w: string, z: string, n: nat)
    requires n <= |w|
    ensures SentSome(before, x + w + z, before + x + w[..n])
    ensures before + x + w == before + (x + w)
  {
    assert (x + w + z)[..|x| + n] == x + w[..n];
    assert before + x + w[..n] == before + (x + w[..n]);
  }

  method FillFixed(frame: Frame, bigendian: bool) returns (fixed_header: array<char>)
    requires frame.Valid()
    ensures fresh(fixed_header) && fixed_header[..] == Fixed(Held(frame))
  {
    hide Network, Size, Distinct, Filled;
    fixed_header := new char[FIXED_HEADER_SIZE];
    E16(frame.vars_size, fixed_header, 0, bigendian);
    fixed_header[2] := AsChar(frame.opcode);
    fixed_header[3] := AsChar(frame.flag);
    E32(frame.data_size, fixed_header, 4, bigendian);
  }

  /** frame__send: an accepted frame goes out whole; a failed one as a prefix of its bytes. */
  method SendFrame(conn: Connection, frame: Frame, bigendian: bool) returns (st: Status)
    requires frame.Valid()
    modifies conn`sent, frame`pos
    ensures frame.Valid()
    ensures !frame.completed ==> st == NotCompleted && conn.sent == old(conn.sent)
    ensures st == Ok ==> conn.sent == old(conn.sent) + Bytes(Held(frame))
    ensures SentSome(old(conn.sent), Bytes(Held(frame)), conn.sent)
  {
    hide Encode, Size, Distinct, Filled, Fixed, SentSome;
    ghost var before, m, data := conn.sent, Held(frame), frame.payload[..];
    ghost var fixed, vars := Fixed(m), Encode(m.headers);
    NothingOrAll(before, Bytes(m));
    if !frame.completed {
      return NotCompleted;
    }
    var fixed_header := FillFixed(frame, bigendian);
    var n_write;
    Regroup(fixed, vars, data);
    assert fixed_header[..FIXED_HEADER_SIZE] == fixed;
    st, n_write := SendPart(conn, fixed_header, FIXED_HEADER_SIZE, before, [], vars + data);
    if st != Ok {
      return;
    }
    EncodeSize(frame.headers);
    assert conn.sent == before + fixed;
    if frame.vars_size > 0 {
      var var_hdr_buf := new char[frame.vars_size];
      ToBytes(frame.headers, var_hdr_buf);
      st, n_write := SendPart(conn, var_hdr_buf, frame.vars_size, before, fixed, data);
      if st != Ok {
        return;
      }
    }
    assert conn.sent == before + (fixed + vars) && frame.payload[..frame.data_size] == data;
    if frame.data_size > 0 {
      st, n_write := SendPart(conn, frame.payload, frame.data_size, before, fixed + vars, []);
      frame.pos := n_write;
    }
  }

  lemma NothingOrAll(before: string, all: string)
    ensures SentSome(before, all, before) && SentSome(before, all, before + all)
  {
    assert before == before + all[..0] && all == all[..|all|];
  }

  lemma Regroup(x: string, y: string, z: string)
    ensures [] + x + (y + z) == x + y + z && [] + x == x && x + y + z + [] == x + y + z
    ensures y == [] ==> x + y == x
    ensures z == [] ==> x + y + z == x + y
  {
  }

  lemma Parts(m: Msg)
    ensures var b, vs := Bytes(m), Size(m.headers);
            && |b| == FIXED_HEADER_SIZE + vs + |m.payload|
            && b[0..2] == Network(vs, 2) && b[2] as nat == m.opcode && b[3] as nat == m.flag
            && b[4..8] == Network(|m.payload|, 4)
            && b[8..] == Encode(m.headers) + m.payload
  {
    hide Encode, Size, Network;
    EncodeSize(m.headers);
    var b, f := Bytes(m), Fixed(m);
    assert b == f + (Encode(m.headers) + m.payload);
    assert b[..8] == f && b[0..2] == f[0..2] && b[4..8] == f[4..8];
  }

  /** The fixed header byte by byte, then the headers, then the payload. */
  lemma Layout(m: Msg)
    requires Size(m.headers) < 0x1_0000 && |m.payload| < 0x1_0000_0000
    ensures var b, vs := Bytes(m), Size(m.headers);
            && |b| == 8 + vs + |m.payload|
            && b[0] as nat * 0x100 + b[1] as nat == vs
            && b[2] as nat == m.opcode && b[3] as nat == m.flag
            && b[4] as nat * 0x100_0000 + b[5] as nat * 0x1_0000 + b[6] as nat * 0x100 + b[7] as nat == |m.payload|
            && b[8..8 + vs] == Encode(m.headers) && b[8 + vs..] == m.payload
  {
    hide Encode, Size, Network, Bytes, FromMemory;
    var b, vs := Bytes(m), Size(m.headers);
    Parts(m);
    EncodeSize(m.headers);
    FieldOf16(vs);
    FieldOf32(|m.payload|);
    NetworkIsBytes(vs, 2);
    NetworkIsBytes(|m.payload|, 4);
    assert b[0] == b[0..2][0] && b[1] == b[0..2][1];
    assert b[4] == b[4..8][0] && b[5] == b[4..8][1] && b[6] == b[4..8][2] && b[7] == b[4..8][3];
    Read2(b[0..2], b[0] as nat, b[1] as nat);
    Read4(b[4..8], b[4] as nat, b[5] as nat, b[6] as nat, b[7] as nat);
    assert b[8..8 + vs] == b[8..][..vs] && b[8 + vs..] == b[8..][vs..];
  }

  lemma NetworkIsBytes(val: nat, n: nat)
    ensures IsBytes(Network(val, n))
  {
    hide Byte;
  }

  // ---- the two ends together

  /** A frame that the other end can read back: the scanner's conditions, and sizes that fit their fields. */
  ghost predicate Sound(m: Msg) {
    && 0 < m.opcode && |m.payload| < 0x1_0000_0000
    && Distinct(m.headers) && AllWellEscaped(m.headers) && Size(m.headers) < 65536
  }

  /** Main theorem: decoding the bytes of a frame gives the frame back and leaves what follows it. */
  lemma DecodeBytes(m: Msg, rest: string)
    requires Sound(m)
    ensures Decode(Bytes(m) + rest) == Got(m, rest)
  {
    Parts(m);
    var vs, e := Size(m.headers), Encode(m.headers);
    FieldOf16(vs);
    FieldOf32(|m.payload|);
    RoundTrip(m.headers);
    EncodeSize(m.headers);
    KeepAll(m.headers);
    Split(Bytes(m), rest, e, m.payload);
    hide *;
    Reassemble(m, Bytes(m) + rest, e, rest);
  }

  lemma Split(b: string, rest: string, e: string, payload: string)
    requires |b| >= 8 && b[8..] == e + payload
    ensures var s := b + rest;
            && s[0..2] == b[0..2] && s[2] == b[2] && s[3] == b[3] && s[4..8] == b[4..8]
            && s[8..] == e + (payload + rest)
  {
    assert (b + rest)[8..] == b[8..] + rest;
  }

  lemma Reassemble(m: Msg, s: string, e: string, rest: string)
    requires 0 < m.opcode && |s| >= FIXED_HEADER_SIZE
    requires Field(s[0..2]) == |e| && s[2] as nat == m.opcode && s[3] as nat == m.flag && Field(s[4..8]) == |m.payload|
    requires s[8..] == e + (m.payload + rest)
    requires Parse(e, 0) == Parsed(m.headers, true) && SetAll([], Keep(m.headers)) == m.headers
    ensures Decode(s) == Got(m, rest)
  {
    hide Parse, Keep, SetAll, Field, Code;
    var body := s[8..];
    assert body[..|e|] == e && body[|e|..] == m.payload + rest;
    var data := body[|e|..];
    assert data[..|m.payload|] == m.payload && data[|m.payload|..] == rest;
  }
}
