/** VarHeader.java: the Java end of the header codec. Its table is a hash map, printed in any order. */
module JavaHeaders {
  import opened Basics
  import opened Headers
  import opened HeaderScan

  type HeaderMap = map<string, string>

  datatype Outcome = Accepted(headers: HeaderMap) | Invalid

  function ToMap(ps: seq<Header>): HeaderMap {
    if ps == [] then map[] else ToMap(ps[..|ps| - 1])[ps[|ps| - 1].key := ps[|ps| - 1].value]
  }

  /** What reading a text gives. */
  function Read(s: string): Outcome {
    var r := Parse(s, 0);
    if r.ok then Outcome.Accepted(ToMap(r.pairs)) else Invalid
  }

  lemma ToMapSnoc(ps: seq<Header>, h: Header)
    ensures ToMap(ps + [h]) == ToMap(ps)[h.key := h.value]
  {
    assert (ps + [h])[..|ps|] == ps;
  }

  /** VarHeader.fromString */
  method FromString(s: string) returns (r: Outcome)
    ensures r == Read(s)
  {
    hide Parse, NextQuote, Quote, Cursors, ToMap, Resume;
    var varHeaders: HeaderMap := map[];
    ghost var from: nat, done: seq<Header> := 0, [];
    NothingRead(s);
    if |s| <= 0 {
      return Outcome.Accepted(varHeaders);
    }
    var n: nat, startKey: nat, endKey: nat, startValue: nat := 0, 0, 0, 0;
    Restart(s, 0);
    while n < |s|
      invariant from <= n <= |s| + 1 && Cursors(s, from, n, startKey, endKey, startValue)
      invariant Parse(s, 0) == Parsed(done + Parse(s, from).pairs, Parse(s, from).ok)
      invariant varHeaders == ToMap(done)
    {
      IsQuote(s, n);
      if n != 0 && (s[n] != QUOTE || s[n - 1] == ESCAPE) {
        NoQuoteHere(s, from, n, startKey, endKey, startValue);
        n := n + 1;
        continue;
      }
      QuoteHere(s, from, n, startKey, endKey, startValue);
      if startKey == 0 {
        startKey := n + 1;
      } else if endKey == 0 {
        endKey := n;
      } else if startValue == 0 {
        startValue := n + 1;
      } else {
        PairComplete(s, from, n, startKey, endKey, startValue, done);
        var key, value := s[startKey..endKey], s[startValue..n];
        ghost var h := Header(key, value);
        ToMapSnoc(done, h);
        varHeaders := varHeaders[key := value];
        done, from := done + [h], n + 2;
        n := n + 1;
        startKey, endKey, startValue := 0, 0, 0;
      }
      n := n + 1;
    }
    ScanEnd(s, from, n, startKey, endKey, startValue);
    assert done + [] == done;
    r := if startKey > 0 then Invalid else Outcome.Accepted(varHeaders);
  }

  lemma NothingRead(s: string)
    ensures Parse(s, 0) == Parsed([] + Parse(s, 0).pairs, Parse(s, 0).ok) && ToMap([]) == map[]
    ensures s == [] ==> Read(s) == Outcome.Accepted(map[])
  {
    hide NextQuote;
  }

  lemma IsQuote(s: string, n: nat)
    requires n < |s|
    ensures Quote(s, n) <==> n == 0 || (s[n] == QUOTE && s[n - 1] != ESCAPE)
  {
  }

  /** VarHeader.toStr, for the order in which the map hands out its values */
  method ToStr(values: seq<Header>) returns (s: string)
    ensures s == Encode(values)
  {
    hide Encode;
    s := [];
    NonePrinted(values);
    for i := 0 to |values|
      invariant s == Encode(values[..i])
    {
      s := s + [QUOTE] + values[i].key + [QUOTE, QUOTE] + values[i].value + [QUOTE, ';'];
      NextPrinted(values, i);
    }
    assert values[..|values|] == values;
  }

  lemma NonePrinted(values: seq<Header>)
    ensures Encode(values[..0]) == []
  {
  }

  lemma NextPrinted(values: seq<Header>, i: nat)
    requires i < |values|
    ensures var h := values[i];
            Encode(values[..i + 1]) ==
            Encode(values[..i]) + [QUOTE] + h.key + [QUOTE, QUOTE] + h.value + [QUOTE, ';']
  {
    hide Encode;
    var p, h := Encode(values[..i]), values[i];
    assert values[..i + 1] == values[..i] + [h];
    EncodeSnoc(values[..i], h);
    Assoc(p, [QUOTE], h.key);
    Assoc(p, [QUOTE] + h.key, [QUOTE, QUOTE]);
    Assoc(p, [QUOTE] + h.key + [QUOTE, QUOTE], h.value);
    Assoc(p, [QUOTE] + h.key + [QUOTE, QUOTE] + h.value, [QUOTE, ';']);
  }

  /** The map holds the last value of each key. */
  lemma {:induction false} ToMapSpec(ps: seq<Header>, h: Header)
    ensures h.key in ToMap(ps) && ToMap(ps)[h.key] == h.value <==> LastValue(ps, h)
    decreases |ps|
  {
    if ps != [] {
      var init, last := ps[..|ps| - 1], ps[|ps| - 1];
      assert ps == init + [last];
      ToMapSpec(init, h);
      LastSnoc(init, last, h);
    }
  }

  /** The broker's table and the client's map, filled from the same pairs, hold the same headers. */
  lemma SameTable(ps: seq<Header>, h: Header)
    ensures h in SetAll([], ps) <==> h.key in ToMap(ps) && ToMap(ps)[h.key] == h.value
  {
    SetAllSpec(ps);
    ToMapSpec(ps, h);
  }

  /** `values` lists the entries of the table, each once. */
  ghost predicate Lists(t: HeaderMap, values: seq<Header>) {
    && Distinct(values)
    && forall h :: h in values <==> h.key in t && t[h.key] == h.value
  }

  lemma {:induction false} ListsToMap(t: HeaderMap, values: seq<Header>)
    requires Lists(t, values)
    ensures ToMap(values) == t
  {
    forall h: Header
      ensures h.key in ToMap(values) && ToMap(values)[h.key] == h.value <==> h.key in t && t[h.key] == h.value
    {
      ToMapSpec(values, h);
      if h in values {
        var i :| 0 <= i < |values| && values[i] == h;
        assert LastValue(values, h);
      }
    }
    forall k ensures k in t <==> k in ToMap(values) {
      if k in t { assert Header(k, t[k]).key in ToMap(values); }
      if k in ToMap(values) { assert Header(k, ToMap(values)[k]).key in t; }
    }
    forall k | k in t ensures t[k] == ToMap(values)[k] { assert Header(k, t[k]).value == t[k]; }
  }

  /** Printed in any order, a table of well-escaped headers reads back as itself, here and at the broker. */
  lemma JavaRoundTrip(t: HeaderMap, values: seq<Header>)
    requires Lists(t, values) && AllWellEscaped(values)
    ensures Read(Encode(values)) == Outcome.Accepted(t)
    ensures var r := Parse(Encode(values), 0);
            r.ok && SetAll([], Keep(r.pairs)) == values
  {
    RoundTrip(values);
    ListsToMap(t, values);
    KeepAll(values);
  }
}
