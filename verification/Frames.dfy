/** Frames: the header table with its 16-bit size account, the payload buffer, and the frames built from others. */
module Frames {
  import opened Basics
  import opened Headers
  import opened HeaderScan

  const OP_MSG: nat := 6
  const OP_OK: nat := 7
  const OP_ERR: nat := 8

  function Trunc16(n: int): (r: nat) { n % 65536 }

  lemma Trunc(n: nat)
    ensures 0 <= Trunc16(n) <= n && Trunc16(n) < 65536 && (Trunc16(n) == n <==> n < 65536)
  {
  }

  /** In the 16-bit range nothing is cut off. */
  lemma Small(n: int)
    ensures 0 <= Trunc16(n) < 65536 && (0 <= n < 65536 ==> Trunc16(n) == n)
  {
  }

  datatype Account = Account(st: Status, vars_size: nat)

  /** The 16-bit arithmetic of an update: first the old value is taken off, then the new text must fit. */
  function Spend(vs: nat, hs: seq<Header>, h: Header): Account {
    var i := Lookup(hs, h.key);
    var less := if i < |hs| then Trunc16(vs - |hs[i].value|) else vs;
    var more := Trunc16(|h.value|) + if i < |hs| then 0 else Trunc16(|h.key|) + 5;
    if less + more < 65536 then Account(Ok, less + more) else Account(MaxVarHeaders, less)
  }

  ghost predicate Filled(hs: seq<Header>) {
    forall i :: 0 <= i < |hs| ==> hs[i].key != "" && hs[i].value != ""
  }

  /** The stamp of date_now_utc: 27 characters. */
  ghost predicate Stamp(now: string) { |now| == 27 }

  lemma SetFilled(hs: seq<Header>, h: Header)
    requires Filled(hs) && h.key != "" && h.value != ""
    ensures Filled(Set(hs, h))
  {
  }

  class Frame {
    var vars_size: nat
    var opcode: nat
    var flag: nat
    var data_size: nat
    var headers: seq<Header>
    var payload: array<char>
    var payload_size: nat
    var pos: nat
    var completed: bool

    /** The size account is exact, fits 16 bits, and the table has no repeated key and no empty string. */
    ghost predicate InSync()
      reads this`vars_size, this`headers
    {
      vars_size == Size(headers) < 65536 && Distinct(headers) && Filled(headers)
    }

    ghost predicate Valid()
      reads this
    {
      && InSync()
      && payload.Length == payload_size == data_size < 0x1_0000_0000 && pos <= payload_size
      && opcode < 256 && flag < 256
    }

    /** frame__new */
    constructor ()
      ensures Valid() && headers == [] && payload_size == 0 && opcode == 0 && flag == 0 && !completed
      ensures fresh(payload)
    {
      vars_size, opcode, flag, data_size, headers := 0, 0, 0, 0, [];
      payload, payload_size, pos, completed := new char[0], 0, 0, false;
    }

    /** frame__free_payload */
    method FreePayload()
      modifies this`payload, this`payload_size, this`data_size, this`pos
      ensures fresh(payload) && payload.Length == 0 && payload_size == data_size == pos == 0
    {
      payload_size, data_size, pos := 0, 0, 0;
      payload := new char[0];
    }

    /** frame__empty */
    method Empty()
      modifies this
      ensures Valid() && headers == [] && payload_size == 0 && opcode == 0 && flag == 0 && !completed
      ensures fresh(payload)
    {
      FreePayload();
      headers := [];
      vars_size, opcode, flag, completed := 0, 0, 0, false;
    }

    /**
     * frame__set_var_header. A new header needs a value that is not empty. The first clauses hold whatever the
     * account says. From an exact account, an accepted update leaves an exact one just when both lengths fit 16 bits,
     * a refused addition changes nothing, and a refused overwrite leaves the account short by the new value.
     */
    method SetVarHeader(key: string, value: string) returns (st: Status)
      requires vars_size < 65536 && (key == "" || value != "" || Lookup(headers, key) < |headers|)
      modifies this`headers, this`vars_size
      ensures vars_size < 65536
      ensures key == "" <==> st == InvalidArg
      ensures key == "" ==> headers == old(headers) && vars_size == old(vars_size)
      ensures key != "" ==> Account(st, vars_size) == Spend(old(vars_size), old(headers), Header(key, value))
      ensures key != "" ==>
                var kept := st != Ok && Lookup(old(headers), key) == |old(headers)|;
                headers == if kept then old(headers) else Set(old(headers), Header(key, value))
      ensures old(InSync()) && st == Ok ==> (InSync() <==> |key| < 65536 && |value| < 65536 && value != "")
      ensures old(InSync()) && st == Ok && |key| < 65536 && |value| < 65536 ==> vars_size == Size(headers)
      ensures old(InSync()) && key != "" && |key| < 65536 && |value| < 65536 ==>
                st == if Size(Set(old(headers), Header(key, value))) < 65536 then Ok else MaxVarHeaders
      ensures old(InSync()) && st == MaxVarHeaders && Lookup(old(headers), key) == |old(headers)| ==> InSync()
      ensures old(InSync()) && st == MaxVarHeaders && Lookup(old(headers), key) < |old(headers)| ==>
                vars_size + |value| == Size(headers)
    {
      hide Distinct, Filled, Size, Set, Lookup, Cost, Trunc16;
      if key == "" {
        return InvalidArg;
      }
      var key_len, value_len := Trunc16(|key|), Trunc16(|value|);
      SpendExact(vars_size, headers, key, value);
      SetIs(headers, Header(key, value));
      var i := Lookup(headers, key);
      if i < |headers| {
        Small(vars_size - |headers[i].value|);
        vars_size := Trunc16(vars_size - |headers[i].value|);
        headers := headers[i := Header(key, value)];
        if vars_size + value_len >= 65536 {
          return MaxVarHeaders;
        }
        Small(vars_size + value_len);
        vars_size := Trunc16(vars_size + value_len);
      } else {
        if vars_size + key_len + value_len + 5 >= 65536 {
          return MaxVarHeaders;
        }
        Small(vars_size + key_len + value_len + 5);
        vars_size := Trunc16(vars_size + key_len + value_len + 5);
        headers := headers + [Header(key, value)];
      }
      st := Ok;
    }

    /** frame__set_frame_control */
    method SetFrameControl(op: nat, fl: nat) returns (st: Status)
      modifies this`opcode, this`flag
      ensures op == 0 ==> st == InvalidOpcode && opcode == old(opcode) && flag == old(flag)
      ensures op != 0 ==> st == Ok && opcode == op && flag == fl
    {
      if op == 0 {
        return InvalidOpcode;
      }
      opcode, flag, st := op, fl, Ok;
    }

    /** frame__malloc_payload. What the new buffer keeps of the old one is its common prefix. */
    method MallocPayload(n: nat)
      requires payload_size == payload.Length
      modifies this`payload, this`payload_size, this`data_size, this`pos
      ensures payload.Length == payload_size == data_size == n && pos == 0
      ensures payload == old(payload) || fresh(payload)
      ensures payload == old(payload) ==> n == old(payload.Length)
      ensures n > 0 ==> forall j :: 0 <= j < n && j < old(payload.Length) ==> payload[j] == old(payload[j])
    {
      if n == 0 {
        FreePayload();
        return;
      }
      if payload_size != 0 {
        if payload_size != n {
          var old_payload := payload;
          var grown := new char[n];
          forall j | 0 <= j < n && j < old_payload.Length { grown[j] := old_payload[j]; }
          payload := grown;
        }
      } else {
        payload := new char[n];
      }
      pos, payload_size, data_size := 0, n, n;
    }

    /**
     * frame__put_payload. An append writes at `pos`; what is before it stays, and so does what the resize leaves
     * behind it.
     */
    method PutPayload(data: seq<char>, append: bool)
      requires payload_size == payload.Length && pos <= payload_size && payload_size + |data| < 0x1_0000_0000
      modifies this`payload, this`payload_size, this`data_size, this`pos, payload
      ensures payload == old(payload) || fresh(payload)
      ensures payload.Length == payload_size == data_size == (if append then old(payload_size) else 0) + |data|
      ensures var at := if append then old(pos) else 0;
              && pos == at + |data| && payload[..pos] == old(payload[..])[..at] + data
              && (append ==> forall j :: pos <= j < old(payload_size) ==> payload[j] == old(payload[j]))
    {
      var at, allocate_size := pos, payload_size + |data|;
      if !append {
        at, allocate_size := 0, |data|;
      }
      MallocPayload(allocate_size);
      forall j | 0 <= j < |data| { payload[at + j] := data[j]; }
      pos := |data| + at;
    }

    /** frame__replace_payload */
    method ReplacePayload(data: array<char>)
      modifies this`payload, this`payload_size, this`data_size, this`pos
      ensures payload == data && payload_size == data_size == pos == data.Length
    {
      FreePayload();
      payload, pos, data_size, payload_size := data, data.Length, data.Length, data.Length;
    }

    /** frame__build, at the time `now` */
    method Build(now: string) returns (st: Status)
      requires InSync() && Stamp(now)
      modifies this`headers, this`vars_size, this`completed
      ensures var r := Set(old(headers), Header("x-time", now));
              && (Size(r) >= 65536 ==> st == MaxVarHeaders && completed == old(completed))
              && (Size(r) < 65536 ==> InSync() && headers == r && st == (if opcode == 0 then InvalidOpcode else Ok))
              && (Size(r) < 65536 ==> completed == (opcode != 0 || old(completed)))
    {
      st := SetVarHeader("x-time", now);
      if st == Ok {
        st := if opcode == 0 then InvalidOpcode else Ok;
        if st == Ok {
          completed := true;
        }
      }
    }

    // ---- frame__parse_var_header

    /** The index does not wrap behind the pair that is complete at n, and its value is not empty if its key is not. */
    lemma PairFits(b: string, n: nat, h: Header, done: seq<Header>, vs: nat)
      requires n < |b| && vs + |b| <= 65535 && (vs + |b| == 65535 ==> Resume(b, 0) <= |b|)
      requires Parse(b, 0).pairs == done + [h] + Parse(b, n + 2).pairs && Resume(b, n + 2) == Resume(b, 0)
      requires TextsOk(Parse(b, 0).pairs)
      ensures (AsText(h).key != "" ==> AsText(h).value != "") && vs + n + 2 < 65536
    {
      hide Parse, AsText, Resume;
      ResumeGrows(b, n + 2);
      assert Parse(b, 0).pairs[|done|] == h;
      assert h in Parse(b, 0).pairs;
    }

    /** The C string that starts at position i of the buffer. */
    method ReadString(buf: array<char>, i: nat, ghost e: nat) returns (w: string)
      requires i <= e < buf.Length && buf[e] == NUL
      ensures w == CutNul(buf[i..e])
    {
      var j := i;
      assert buf[i..i] == [];
      while buf[j] != NUL
        invariant i <= j <= e && NUL !in buf[i..j]
        decreases e - j
      {
        assert buf[i..j + 1] == buf[i..j] + [buf[j]];
        j := j + 1;
      }
      w := buf[i..j];
      assert buf[i..e][..j - i] == w;
      CutNulIs(buf[i..e], j - i);
    }

    /** Store one pair: a pair with an empty key is refused and that is not reported. */
    method StorePair(key: string, value: string, ghost h: Header, ghost done: seq<Header>, ghost hs: seq<Header>,
                     ghost room: nat)
      requires InSync() && headers == SetAll(hs, Keep(done)) && Header(key, value) == AsText(h) &&
          (key != "" ==> value != "")
      requires Size(headers) + |key| + |value| + 5 <= room < 65536
      modifies this`headers, this`vars_size
      ensures InSync() && headers == SetAll(hs, Keep(done + [h])) && Size(headers) <= room
    {
      KeepSnoc(done, h);
      SetAllSnoc(hs, Keep(done), Header(key, value));
      assert Keep(done) + [] == Keep(done);
      if key != "" { SetFits(headers, key, value); }
      var _ := SetVarHeader(key, value);
    }

    /** Terminate the key and the value of the pair that is complete at n, and store the two strings. */
    method TakePair(buf: array<char>, n: nat, start_key: nat, end_key: nat, start_value: nat,
                    ghost b: string, ghost done: seq<Header>, ghost hs: seq<Header>, ghost room: nat)
      requires 0 < start_key <= end_key < start_value <= n < |b| <= buf.Length
      requires forall j :: start_key <= j < |b| ==> buf[j] == b[j]
      requires var h := AsText(Header(b[start_key..end_key], b[start_value..n])); h.key != "" ==> h.value != ""
      requires InSync() && headers == SetAll(hs, Keep(done))
      requires Size(headers) + (end_key - start_key) + (n - start_value) + 5 <= room < 65536
      modifies this`headers, this`vars_size, buf
      ensures InSync() && headers == SetAll(hs, Keep(done + [Header(b[start_key..end_key], b[start_value..n])]))
      ensures Size(headers) <= room && forall j :: n < j < |b| ==> buf[j] == b[j]
    {
      hide Distinct, Filled, Size, Set, SetAll, Keep, CutNul;
      ghost var h := Header(b[start_key..end_key], b[start_value..n]);
      buf[end_key] := NUL;
      buf[n] := NUL;
      assert buf[start_key..end_key] == h.key && buf[start_value..n] == h.value;
      var key := ReadString(buf, start_key, end_key);
      var value := ReadString(buf, start_value, n);
      StorePair(key, value, h, done, hs, room);
    }

    /**
     * frame__parse_var_header. The scan stops, it writes terminators into the buffer as it goes and never reads one
     * back as anything else, and it stores the pairs of the text as it was: the last value of each key counts. The
     * 16-bit index can take 65535 bytes as long as no pair ends with the last of them.
     */
    method ParseVarHeader(buf: array<char>, size: nat) returns (st: Status)
      requires InSync() && size <= buf.Length && vars_size + size <= 65535
      requires vars_size + size == 65535 ==> Resume(buf[..size], 0) <= size
      requires TextsOk(Parse(buf[..size], 0).pairs)
      modifies this`headers, this`vars_size, buf
      ensures InSync()
      ensures var r := Parse(old(buf[..size]), 0);
              headers == SetAll(old(headers), Keep(r.pairs)) && st == if r.ok then Ok else InvalidVarHeaders
    {
      hide Parse, NextQuote, Distinct, Filled, Size, Set, SetAll, Keep, Cursors, Trunc16, AsText, Resume, TextsOk;
      ghost var b, from: nat, done: seq<Header> := buf[..size], 0, [];
      ghost var hs, vs := headers, vars_size;
      ScanStart(hs, b);
      if size == 0 {
        return Ok;
      }
      var n: nat, start_key: nat, end_key: nat, start_value: nat := 0, 0, 0, 0;
      Restart(b, 0);
      while n < size
        invariant from <= n <= size + 1 && vs + n < 65536 && Cursors(b, from, n, start_key, end_key, start_value)
        invariant Parse(b, 0) == Parsed(done + Parse(b, from).pairs, Parse(b, from).ok) &&
            Resume(b, from) == Resume(b, 0)
        invariant forall j :: 0 <= j < size && from <= j + 1 ==> buf[j] == b[j]
        invariant InSync() && headers == SetAll(hs, Keep(done)) && Size(headers) <= vs + from
        decreases size + 1 - n
      {
        Trunc(n + 1);
        if n != 0 && (buf[n] != QUOTE || buf[n - 1] == ESCAPE) {
          NoQuoteHere(b, from, n, start_key, end_key, start_value);
          n := Trunc16(n + 1);
          continue;
        }
        QuoteHere(b, from, n, start_key, end_key, start_value);
        if start_key == 0 {
          start_key := Trunc16(n + 1);
        } else if end_key == 0 {
          end_key := n;
        } else if start_value == 0 {
          start_value := Trunc16(n + 1);
        } else {
          PairComplete(b, from, n, start_key, end_key, start_value, done);
          ghost var h := Header(b[start_key..end_key], b[start_value..n]);
          PairFits(b, n, h, done, vs);
          TakePair(buf, n, start_key, end_key, start_value, b, done, hs, vs + n + 2);
          done, from := done + [h], n + 2;
          Trunc(n + 2);
          n := Trunc16(n + 1);
          start_key, end_key, start_value := 0, 0, 0;
        }
        n := Trunc16(n + 1);
      }
      ScanEnd(b, from, n, start_key, end_key, start_value);
      assert done + [] == done;
      st := if start_key != 0 then InvalidVarHeaders else Ok;
    }

    // ---- frames made from other frames

    /** frame__copy_var_headers succeeds exactly when the table still fits after each header. */
    method CopyVarHeaders(src: Frame) returns (st: Status)
      requires src != this && src.InSync() && InSync()
      modifies this`headers, this`vars_size
      ensures st == Ok <==> forall i :: 0 <= i <= |src.headers| ==> Size(SetAll(old(headers), src.headers[..i])) < 65536
      ensures st == Ok ==> InSync() && headers == SetAll(old(headers), src.headers)
      ensures st != Ok ==> st == MaxVarHeaders
      ensures old(headers) == [] ==> st == Ok && headers == src.headers
    {
      hide Size, Distinct, Filled, Set, SetAll;
      ghost var hs, hs0 := src.headers, headers;
      assert hs[..0] == [];
      NoneSet(hs0);
      if hs0 == [] { CopyToEmpty(hs); }
      for i := 0 to |src.headers|
        invariant InSync() && headers == SetAll(hs0, hs[..i])
        invariant forall k :: 0 <= k <= i ==> Size(SetAll(hs0, hs[..k])) < 65536
      {
        var h := src.headers[i];
        SourceText(hs, i);
        assert hs[..i + 1] == hs[..i] + [h];
        SetAllSnoc(hs0, hs[..i], h);
        st := SetVarHeader(h.key, h.value);
        if st != Ok {
          return;
        }
      }
      assert hs[..|hs|] == hs;
      st := Ok;
    }

    /** frame__copy_header */
    method CopyHeader(src: Frame) returns (st: Status)
      requires src != this && src.InSync() && InSync() && headers == []
      modifies this`headers, this`vars_size, this`opcode, this`flag
      ensures src.opcode == 0 <==> st == InvalidOpcode
      ensures src.opcode == 0 ==> headers == [] && InSync() && opcode == old(opcode) && flag == old(flag)
      ensures src.opcode != 0 ==>
          st == Ok && InSync() && headers == src.headers && opcode == src.opcode && flag == src.flag
    {
      st := SetFrameControl(src.opcode, src.flag);
      if st != Ok {
        return;
      }
      st := CopyVarHeaders(src);
    }

    /** frame__copy. Without the build the copy is not complete; with it the time is new. */
    method Copy(src: Frame, build: bool, now: string) returns (st: Status)
      requires src != this && src.Valid() && (src.completed ==> src.opcode != 0) && Stamp(now)
      modifies this
      ensures !src.completed ==> st == InvalidArg && unchanged(this)
      ensures src.completed && !build ==> st == Ok && Valid() && headers == src.headers && !completed
      ensures src.completed && build ==>
                var hs := Set(src.headers, Header("x-time", now));
                if Size(hs) < 65536 then st == Ok && Valid() && headers == hs && completed else st == MaxVarHeaders
      ensures src.completed ==>
          opcode == src.opcode && flag == src.flag && fresh(payload) && payload[..] == src.payload[..]
    {
      hide Size, Distinct, Filled, Set;
      if !src.completed {
        return InvalidArg;
      }
      Empty();
      st := CopyHeader(src);
      PutPayload(src.payload[..], false);
      if build {
        st := Build(now);
      }
    }

    /** frame__MSG: a delivery keeps all of its source but the opcode and the time. */
    method MSG(src: Frame, now: string) returns (st: Status)
      requires src != this && src.Valid() && (src.completed ==> src.opcode != 0) && Stamp(now)
      modifies this
      ensures src.completed && Size(Set(src.headers, Header("x-time", now))) < 65536 ==>
                && st == Ok && Valid() && completed && opcode == OP_MSG && flag == src.flag
                && headers == Set(src.headers, Header("x-time", now))
                && fresh(payload) && payload[..] == src.payload[..]
      ensures src.completed && Size(Set(src.headers, Header("x-time", now))) >= 65536 ==> st == MaxVarHeaders
      ensures !src.completed ==> st == InvalidArg
    {
      st := Copy(src, false, now);
      if st != Ok {
        return;
      }
      opcode := OP_MSG;
      st := Build(now);
    }

    /** The end of frame__OK and frame__ERR: the status code, then the build. */
    method Finish(code: string, now: string) returns (st: Status)
      requires InSync() && opcode != 0 && (code == "200" || code == "500") && Stamp(now)
      modifies this`headers, this`vars_size, this`completed
      ensures st == Ok <==> ReplyFits(old(headers), code, now)
      ensures st == Ok ==> InSync() && completed && headers == ReplyHeaders(old(headers), code, now)
    {
      hide Size, Set, Distinct, Filled;
      st := SetVarHeader("x-status-code", code);
      if st != Ok {
        return;
      }
      st := Build(now);
    }

    /** What a reply starts from: an empty frame, or the headers and control of the request. */
    method StartReply(src: Frame?) returns (st: Status)
      requires src != this && (src != null ==> src.Valid())
      modifies this
      ensures Valid() && !completed && payload_size == 0 && fresh(payload)
      ensures st == Ok <==> src == null || src.opcode != 0
      ensures st == Ok ==> headers == RequestHeaders(src) && flag == if src == null then 0 else src.flag
    {
      Empty();
      st := Ok;
      if src != null {
        st := CopyHeader(src);
      }
    }

    /** frame__OK */
    method OK(src: Frame?, msg: string, now: string) returns (st: Status)
      requires src != this && (src != null ==> src.Valid()) && Stamp(now) && |msg| < 0x1_0000_0000
      modifies this
      ensures st == Ok <==> (src == null || src.opcode != 0) && ReplyFits(RequestHeaders(src), "200", now)
      ensures st == Ok ==>
                && Valid() && completed && opcode == OP_OK && flag == (if src == null then 0 else src.flag)
                && headers == ReplyHeaders(RequestHeaders(src), "200", now)
                && Get(headers, "x-status-code") == Some("200") && Get(headers, "x-time") == Some(now)
                && fresh(payload) && payload[..] == if msg == "" then "OK." else msg
      ensures st == Ok ==> forall key :: key != "x-status-code" && key != "x-time" ==>
                Get(headers, key) == Get(RequestHeaders(src), key)
    {
      hide ReplyFits, ReplyHeaders, Size, Set, Distinct, Filled, Get;
      st := StartReply(src);
      if st != Ok {
        return;
      }
      opcode := OP_OK;
      var text := if msg == "" then "OK." else msg;
      PutPayload(text, false);
      ReplyCarries(RequestHeaders(src), "200", now);
      st := Finish("200", now);
    }

    /** frame__ERR */
    method ERR(src: Frame?, err_text: string, msg: string, now: string) returns (st: Status)
      requires src != this && (src != null ==> src.Valid()) && Stamp(now) && |err_text| + |msg| + 6 < 0x1_0000_0000
      modifies this
      ensures st == Ok <==> (src == null || src.opcode != 0) && ReplyFits(RequestHeaders(src), "500", now)
      ensures st == Ok ==>
                && Valid() && completed && opcode == OP_ERR && flag == (if src == null then 0 else src.flag)
                && headers == ReplyHeaders(RequestHeaders(src), "500", now)
                && Get(headers, "x-status-code") == Some("500") && Get(headers, "x-time") == Some(now)
                && fresh(payload) && payload[..] == "(" + err_text + ") " + if msg == "" then "OK." else msg
      ensures st == Ok ==> forall key :: key != "x-status-code" && key != "x-time" ==>
                Get(headers, key) == Get(RequestHeaders(src), key)
    {
      hide ReplyFits, ReplyHeaders, Size, Set, Distinct, Filled, Get;
      st := StartReply(src);
      if st != Ok {
        return;
      }
      opcode := OP_ERR;
      var text := "(" + err_text + ") " + if msg == "" then "OK." else msg;
      var data := new char[|text|](i requires 0 <= i < |text| => text[i]);
      assert data[..] == text;
      ReplacePayload(data);
      ReplyCarries(RequestHeaders(src), "500", now);
      st := Finish("500", now);
    }
  }

  /** The headers that a reply takes over. */
  function RequestHeaders(src: Frame?): seq<Header>
    reads src
  {
    if src == null then [] else src.headers
  }

  /** The headers of a reply: those of the request, the status and the time. */
  function ReplyHeaders(hs: seq<Header>, code: string, now: string): seq<Header> {
    Set(Set(hs, Header("x-status-code", code)), Header("x-time", now))
  }

  /** What the receiver of a reply reads: the status, the time, and all else as the request had it. */
  lemma ReplyCarries(hs: seq<Header>, code: string, now: string)
    ensures Get(ReplyHeaders(hs, code, now), "x-status-code") == Some(code)
    ensures Get(ReplyHeaders(hs, code, now), "x-time") == Some(now)
    ensures forall key :: key != "x-status-code" && key != "x-time" ==>
              Get(ReplyHeaders(hs, code, now), key) == Get(hs, key)
  {
    hide Get, Set;
    assert |"x-status-code"| == 13 && |"x-time"| == 6;
    var status, time := Header("x-status-code", code), Header("x-time", now);
    forall key
      ensures Get(ReplyHeaders(hs, code, now), key) ==
                if key == "x-time" then Some(now) else if key == "x-status-code" then Some(code) else Get(hs, key)
    {
      GetSet(hs, status, key);
      GetSet(Set(hs, status), time, key);
    }
  }

  /** A reply to a request that has a time and no status has the new time in its place and the status at the end. */
  lemma ReplyOrder(hs: seq<Header>, code: string, now: string)
    requires Get(hs, "x-status-code") == None
    ensures var i := Lookup(hs, "x-time");
            ReplyHeaders(hs, code, now) ==
            if i < |hs| then hs[i := Header("x-time", now)] + [Header("x-status-code", code)]
            else hs + [Header("x-status-code", code), Header("x-time", now)]
  {
    hide Set, Lookup, Get;
    assert |"x-status-code"| == 13 && |"x-time"| == 6;
    SetAt(hs, Header("x-status-code", code));
    SetTwo(hs, Header("x-status-code", code), Header("x-time", now));
  }

  /** A new header and then another one, which may be there. */
  lemma SetTwo(hs: seq<Header>, a: Header, b: Header)
    requires a.key != b.key && Lookup(hs, a.key) == |hs|
    ensures var i := Lookup(hs, b.key);
            Set(Set(hs, a), b) == if i < |hs| then hs[i := b] + [a] else hs + [a, b]
  {
    hide Set, Lookup, Get;
    var i := Lookup(hs, b.key);
    SetAt(hs, a);
    LookupSnoc(hs, a, b.key);
    SetAt(hs + [a], b);
    if i < |hs| { UpdateAppended(hs, i, a, b); } else { AppendTwice(hs, a, b); }
  }

  lemma UpdateAppended<T>(s: seq<T>, i: nat, a: T, b: T)
    requires i < |s|
    ensures (s + [a])[i := b] == s[i := b] + [a]
  {
  }

  lemma AppendTwice<T>(s: seq<T>, a: T, b: T)
    ensures s + [a] + [b] == s + [a, b]
  {
  }

  lemma SetAt(hs: seq<Header>, h: Header)
    ensures Get(hs, h.key) == None <==> Lookup(hs, h.key) == |hs|
    ensures Lookup(hs, h.key) <= |hs|
    ensures Set(hs, h) == if Lookup(hs, h.key) == |hs| then hs + [h] else hs[Lookup(hs, h.key) := h]
  {
    hide Lookup;
  }

  lemma {:induction false} LookupSnoc(hs: seq<Header>, h: Header, key: string)
    requires h.key != key
    ensures Lookup(hs + [h], key) == if Lookup(hs, key) < |hs| then Lookup(hs, key) else |hs| + 1
  {
    if hs == [] {
      assert hs + [h] == [h] && [h][1..] == [];
    } else {
      assert (hs + [h])[1..] == hs[1..] + [h] && (hs + [h])[0] == hs[0];
      LookupSnoc(hs[1..], h, key);
    }
  }

  /** Both header updates of a reply stay within the 16-bit account. */
  ghost predicate ReplyFits(hs: seq<Header>, code: string, now: string) {
    Size(Set(hs, Header("x-status-code", code))) < 65536 && Size(ReplyHeaders(hs, code, now)) < 65536
  }

  lemma SourceText(hs: seq<Header>, i: nat)
    requires i < |hs| && Filled(hs) && Size(hs) < 65536
    ensures hs[i].key != "" && hs[i].value != "" && |hs[i].key| < 65536 && |hs[i].value| < 65536
  {
    ValueFits(hs, i);
  }

  lemma NoneSet(hs: seq<Header>)
    ensures SetAll(hs, []) == hs
  {
  }

  /** A prefix of a table that fits always fits, so a copy into an empty table never fails. */
  lemma CopyToEmpty(hs: seq<Header>)
    requires Distinct(hs) && Size(hs) < 65536
    ensures SetAll([], hs) == hs
    ensures forall i :: 0 <= i <= |hs| ==> Size(SetAll([], hs[..i])) < 65536
  {
    hide Size, Distinct, SetAll;
    SetAllDistinct(hs);
    forall i | 0 <= i <= |hs| ensures Size(SetAll([], hs[..i])) < 65536 { PrefixFits(hs, i); }
  }

  lemma PrefixFits(hs: seq<Header>, i: nat)
    requires Distinct(hs) && i <= |hs|
    ensures Size(SetAll([], hs[..i])) <= Size(hs)
  {
    hide Size, SetAll;
    SetAllDistinct(hs[..i]);
    SizeConcat(hs[..i], hs[i..]);
    assert hs == hs[..i] + hs[i..];
  }

  // ---- var_header__to_bytes

  method PutBytes(data: array<char>, n: nat, w: string) returns (n': nat)
    requires n + |w| <= data.Length && n + |w| < 65536
    modifies data
    ensures n' == n + |w| && data[..n'] == old(data[..n]) + w
    ensures forall j :: n' <= j < data.Length ==> data[j] == old(data[j])
  {
    forall j | 0 <= j < |w| { data[n + j] := w[j]; }
    n' := Trunc16(n + Trunc16(|w|));
  }

  /** One header in its wire form. */
  method PutHeader(data: array<char>, n: nat, h: Header) returns (n': nat)
    requires n + Cost(h) <= data.Length && n + Cost(h) < 65536
    modifies data
    ensures n' == n + Cost(h) && data[..n'] == old(data[..n]) + Wire(h)
    ensures forall j :: n' <= j < data.Length ==> data[j] == old(data[j])
  {
    hide Wire;
    ghost var e := data[..n];
    n' := PutBytes(data, n, [QUOTE]);
    n' := PutBytes(data, n', h.key);
    n' := PutBytes(data, n', [QUOTE]);
    n' := PutBytes(data, n', [QUOTE]);
    n' := PutBytes(data, n', h.value);
    n' := PutBytes(data, n', [QUOTE]);
    n' := PutBytes(data, n', [';']);
    WireIs(e, h);
  }

  /** The printer writes exactly the bytes that the size account says, and no more. */
  method ToBytes(hs: seq<Header>, data: array<char>)
    requires Size(hs) < 65536 && Size(hs) <= data.Length
    modifies data
    ensures data[..Size(hs)] == Encode(hs) && forall j :: Size(hs) <= j < data.Length ==> data[j] == old(data[j])
  {
    assert hs[..0] == [] && Size([]) == 0 && Encode([]) == [];
    hide Size, Encode, Wire, Cost;
    var n := 0;
    for i := 0 to |hs|
      invariant n == Size(hs[..i]) <= Size(hs) && data[..n] == Encode(hs[..i])
      invariant forall j :: Size(hs) <= j < data.Length ==> data[j] == old(data[j])
    {
      Prefix(hs, i);
      n := PutHeader(data, n, hs[i]);
    }
    assert hs[..|hs|] == hs;
  }

  lemma WireIs(e: string, h: Header)
    ensures e + [QUOTE] + h.key + [QUOTE] + [QUOTE] + h.value + [QUOTE] + [';'] == e + Wire(h)
  {
  }

  lemma PrefixSize(hs: seq<Header>, i: nat)
    requires i < |hs|
    ensures Size(hs[..i + 1]) == Size(hs[..i]) + Cost(hs[i]) <= Size(hs)
  {
    hide *;
    SizeConcat(hs[..i], [hs[i]]);
    SizeOne(hs[i]);
    SizeConcat(hs[..i + 1], hs[i + 1..]);
    assert hs[..i + 1] == hs[..i] + [hs[i]] && hs == hs[..i + 1] + hs[i + 1..];
  }

  lemma SizeOne(h: Header)
    ensures Size([h]) == Cost(h)
  {
  }

  lemma Prefix(hs: seq<Header>, i: nat)
    requires i <= |hs|
    ensures i < |hs| ==> Size(hs[..i + 1]) == Size(hs[..i]) + Cost(hs[i]) <= Size(hs)
    ensures i < |hs| ==> Encode(hs[..i + 1]) == Encode(hs[..i]) + Wire(hs[i])
  {
    hide *;
    if i < |hs| {
      PrefixSize(hs, i);
      EncodeSnoc(hs[..i], hs[i]);
      assert hs[..i + 1] == hs[..i] + [hs[i]];
    }
  }

  lemma ScanStart(hs: seq<Header>, b: string)
    ensures SetAll(hs, Keep([])) == hs && Parse(b, 0) == Parsed([] + Parse(b, 0).pairs, Parse(b, 0).ok)
    ensures b == [] ==> Parse(b, 0) == Parsed([], true)
  {
    hide NextQuote;
  }

  lemma SetIs(hs: seq<Header>, h: Header)
    ensures var i := Lookup(hs, h.key);
            Set(hs, h) == if i < |hs| then hs[i := h] else hs + [h]
  {
  }

  /** What a set does to a table with an exact account. */
  lemma SetFits(hs: seq<Header>, key: string, value: string)
    requires Distinct(hs) && Filled(hs) && Size(hs) < 65536 && key != ""
    ensures var i, h := Lookup(hs, key), Header(key, value);
            var r := Set(hs, h);
            && Distinct(r) && (Filled(r) <==> value != "") && Size(r) >= |key| + |value| + 5
            && (i < |hs| ==> Size(r) == Size(hs) - |hs[i].value| + |value| && |key| + |hs[i].value| + 5 <= Size(hs))
            && (i == |hs| ==> Size(r) == Size(hs) + |key| + |value| + 5)
  {
    var i, h := Lookup(hs, key), Header(key, value);
    SetSize(hs, h);
    SetKeys(hs, h);
    if value != "" { SetFilled(hs, h); }
    if i < |hs| { ValueFits(hs, i); }
    assert Set(hs, h)[i] == h;
    ValueFits(Set(hs, h), i);
  }

  /** What the arithmetic comes to, in terms of lengths. */
  lemma SpendIs(vs: nat, hs: seq<Header>, h: Header)
    requires vs < 65536
    ensures var i, a, k, v := Lookup(hs, h.key), Spend(vs, hs, h), Trunc16(|h.key|), Trunc16(|h.value|);
            && a.vars_size < 65536
            && (i == |hs| ==>
                  a == if vs + k + v + 5 < 65536 then Account(Ok, vs + k + v + 5) else Account(MaxVarHeaders, vs))
            && (i < |hs| && |hs[i].value| <= vs ==>
                  var less := vs - |hs[i].value|;
                  a == if less + v < 65536 then Account(Ok, less + v) else Account(MaxVarHeaders, less))
  {
    hide Lookup, Trunc16;
    Trunc(|h.key|);
    Trunc(|h.value|);
    var i := Lookup(hs, h.key);
    if i < |hs| { Small(vs - |hs[i].value|); }
  }

  /** What the arithmetic means for an exact account. */
  lemma SpendExact(vs: nat, hs: seq<Header>, key: string, value: string)
    requires vs < 65536
    ensures var i, h := Lookup(hs, key), Header(key, value);
            var r, a, short := Set(hs, h), Spend(vs, hs, h), |key| < 65536 && |value| < 65536;
            && a.vars_size < 65536
            && (vs == Size(hs) && Distinct(hs) && Filled(hs) && key != "" ==>
                  && Distinct(r) && (Filled(r) <==> value != "")
                  && (a.st == Ok ==> (a.vars_size == Size(r) <==> short))
                  && (a.st == Ok && !short ==> Size(r) >= 65536)
                  && (short ==> (a.st == Ok <==> Size(r) < 65536))
                  && (a.st != Ok ==> a.vars_size == if i < |hs| then Size(r) - |value| else vs))
  {
    hide *;
    Trunc(|key|);
    Trunc(|value|);
    SpendIs(vs, hs, Header(key, value));
    if vs == Size(hs) && Distinct(hs) && Filled(hs) && key != "" { SetFits(hs, key, value); }
  }
}
