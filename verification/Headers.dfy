/** Variable headers: the table, its wire form, and what a scan of that form reads back. */
module Headers {
  import opened Basics

  datatype Header = Header(key: string, value: string)

  const QUOTE: char := '"'
  const ESCAPE: char := '\\'

  /** Bytes a header takes on the wire: two pairs of quotes and a semicolon around it. */
  function Cost(h: Header): nat { |h.key| + |h.value| + 5 }

  function Size(hs: seq<Header>): nat {
    if hs == [] then 0 else Cost(hs[0]) + Size(hs[1..])
  }

  function Wire(h: Header): string {
    [QUOTE] + h.key + [QUOTE, QUOTE] + h.value + [QUOTE, ';']
  }

  function Encode(hs: seq<Header>): string {
    if hs == [] then [] else Wire(hs[0]) + Encode(hs[1..])
  }

  /** The wire form of two headers, byte by byte. */
  lemma EncodeExample()
    ensures Encode([Header("k", "v"), Header("x", "12")]) == "\"k\"\"v\";\"x\"\"12\";"
  {
    var a, b := Header("k", "v"), Header("x", "12");
    assert [a, b][1..] == [b] && [b][1..] == [];
    assert Wire(a) == "\"k\"\"v\";";
    assert Wire(b) == "\"x\"\"12\";";
  }

  // ---- the table: insertion order, an overwrite stays in place

  function Lookup(hs: seq<Header>, key: string): (i: nat)
    ensures i <= |hs|
    ensures i < |hs| ==> hs[i].key == key
    ensures forall j :: 0 <= j < i ==> hs[j].key != key
  {
    if hs == [] || hs[0].key == key then 0 else 1 + Lookup(hs[1..], key)
  }

  function Set(hs: seq<Header>, h: Header): seq<Header> {
    var i := Lookup(hs, h.key);
    if i < |hs| then hs[i := h] else hs + [h]
  }

  /** frame__get_var_header, getVarHeader */
  function Get(hs: seq<Header>, key: string): Option<string> {
    var i := Lookup(hs, key);
    if i < |hs| then Some(hs[i].value) else None
  }

  lemma GetSet(hs: seq<Header>, h: Header, key: string)
    ensures Get(Set(hs, h), key) == if key == h.key then Some(h.value) else Get(hs, key)
  {
    var i, r := Lookup(hs, h.key), Set(hs, h);
    var j, k := Lookup(hs, key), Lookup(r, key);
    assert r[i] == h && |hs| <= |r| && forall m :: 0 <= m < |hs| && m != i ==> r[m] == hs[m];
    assert key != h.key && j < |hs| ==> r[j].key == key;
    assert key != h.key && k < |r| ==> k < |hs| && hs[k].key == key;
  }

  function SetAll(hs: seq<Header>, ps: seq<Header>): seq<Header>
    decreases |ps|
  {
    if ps == [] then hs else Set(SetAll(hs, ps[..|ps| - 1]), ps[|ps| - 1])
  }

  ghost predicate Distinct(hs: seq<Header>) {
    forall i, j :: 0 <= i < j < |hs| ==> hs[i].key != hs[j].key
  }

  /** A table with distinct keys holds a header exactly when a look-up of its key gives its value. */
  lemma GetIsHeld(hs: seq<Header>, h: Header)
    requires Distinct(hs)
    ensures Get(hs, h.key) == Some(h.value) <==> h in hs
  {
    if h in hs {
      var i :| 0 <= i < |hs| && hs[i] == h;
      assert Lookup(hs, h.key) == i;
    }
  }

  function Keys(hs: seq<Header>): (r: seq<string>)
    ensures |r| == |hs|
  {
    seq(|hs|, i requires 0 <= i < |hs| => hs[i].key)
  }

  /** The keys of ps without repetition, in the order of their first occurrence. */
  function FirstKeys(ps: seq<Header>): seq<string> {
    if ps == [] then [] else [ps[0].key] + Others(FirstKeys(ps[1..]), ps[0].key)
  }

  function Others(ks: seq<string>, k: string): seq<string> {
    if ks == [] then [] else (if ks[0] == k then [] else [ks[0]]) + Others(ks[1..], k)
  }

  /** Whether the last pair with this key carries this value. */
  ghost predicate LastValue(ps: seq<Header>, h: Header) {
    exists i :: 0 <= i < |ps| && ps[i] == h && forall j :: i < j < |ps| ==> ps[j].key != h.key
  }

  lemma {:induction false} OthersIn(ks: seq<string>, k: string, x: string)
    ensures x in Others(ks, k) <==> x in ks && x != k
  {
    if ks != [] { OthersIn(ks[1..], k, x); }
  }

  lemma {:induction false} OthersSnoc(ks: seq<string>, k: string, x: string)
    ensures Others(ks + [x], k) == Others(ks, k) + if x == k then [] else [x]
  {
    if ks == [] {
      assert ks + [x] == [x];
    } else {
      assert (ks + [x])[1..] == ks[1..] + [x];
      OthersSnoc(ks[1..], k, x);
    }
  }

  lemma {:induction false} FirstKeysSnoc(ps: seq<Header>, h: Header)
    ensures FirstKeys(ps + [h]) == if h.key in FirstKeys(ps) then FirstKeys(ps) else FirstKeys(ps) + [h.key]
  {
    if ps == [] {
      assert ps + [h] == [h];
    } else {
      assert (ps + [h])[1..] == ps[1..] + [h];
      FirstKeysSnoc(ps[1..], h);
      OthersIn(FirstKeys(ps[1..]), ps[0].key, h.key);
      OthersSnoc(FirstKeys(ps[1..]), ps[0].key, h.key);
    }
  }

  lemma SetKeys(hs: seq<Header>, h: Header)
    requires Distinct(hs)
    ensures Distinct(Set(hs, h))
    ensures Keys(Set(hs, h)) == if h.key in Keys(hs) then Keys(hs) else Keys(hs) + [h.key]
    ensures forall g :: g in Set(hs, h) <==> g == h || (g in hs && g.key != h.key)
  {
    var i, r := Lookup(hs, h.key), Set(hs, h);
    if i < |hs| {
      assert Keys(hs)[i] == h.key && r[i] == h;
      forall g | g in hs && g.key != h.key ensures g in r {
        var j :| 0 <= j < |hs| && hs[j] == g;
        assert r[j] == g;
      }
    }
  }

  /** What a run of sets leaves in an empty table: the last value of each key, in first-occurrence order. */
  lemma {:induction false} SetAllSpec(ps: seq<Header>)
    ensures var r := SetAll([], ps);
            && Distinct(r) && Keys(r) == FirstKeys(ps)
            && forall h :: h in r <==> LastValue(ps, h)
    decreases |ps|
  {
    if ps != [] {
      var n := |ps| - 1;
      var init, h := ps[..n], ps[n];
      assert ps == init + [h];
      SetAllSpec(init);
      SetKeys(SetAll([], init), h);
      FirstKeysSnoc(init, h);
      forall g ensures LastValue(ps, g) <==> g == h || (LastValue(init, g) && g.key != h.key) {
        LastSnoc(init, h, g);
      }
    }
  }

  lemma LastSnoc(init: seq<Header>, h: Header, g: Header)
    ensures LastValue(init + [h], g) <==> g == h || (LastValue(init, g) && g.key != h.key)
  {
    var ps := init + [h];
    if g == h { assert ps[|init|] == g; }
    if LastValue(init, g) && g.key != h.key {
      var i :| 0 <= i < |init| && init[i] == g && forall j :: i < j < |init| ==> init[j].key != g.key;
      assert ps[i] == g;
    }
    if LastValue(ps, g) && g != h {
      var i :| 0 <= i < |ps| && ps[i] == g && forall j :: i < j < |ps| ==> ps[j].key != g.key;
      assert i < |init| && init[i] == g && ps[|init|] == h;
      assert forall j :: i < j < |init| ==> ps[j] == init[j];
    }
  }

  lemma {:induction false} SetAllDistinct(hs: seq<Header>)
    requires Distinct(hs)
    ensures SetAll([], hs) == hs
    decreases |hs|
  {
    if hs != [] {
      var init := hs[..|hs| - 1];
      SetAllDistinct(init);
      assert hs == init + [hs[|hs| - 1]];
    }
  }

  // ---- sizes

  lemma {:induction false} SizeConcat(a: seq<Header>, b: seq<Header>)
    ensures Size(a + b) == Size(a) + Size(b)
  {
    if a == [] {
      assert a + b == b;
    } else {
      assert (a + b)[1..] == a[1..] + b;
      SizeConcat(a[1..], b);
    }
  }

  lemma {:induction false} SizeUpdate(hs: seq<Header>, i: nat, h: Header)
    requires i < |hs|
    ensures Size(hs[i := h]) == Size(hs) - Cost(hs[i]) + Cost(h)
  {
    if i > 0 {
      assert hs[i := h][1..] == hs[1..][i - 1 := h];
      SizeUpdate(hs[1..], i - 1, h);
    }
  }

  lemma SetSize(hs: seq<Header>, h: Header)
    ensures var i := Lookup(hs, h.key);
            Size(Set(hs, h)) == if i < |hs| then Size(hs) - |hs[i].value| + |h.value| else Size(hs) + Cost(h)
  {
    var i := Lookup(hs, h.key);
    if i < |hs| {
      SizeUpdate(hs, i, h);
    } else {
      SizeConcat(hs, [h]);
    }
  }

  lemma {:induction false} ValueFits(hs: seq<Header>, i: nat)
    requires i < |hs|
    ensures Cost(hs[i]) <= Size(hs)
  {
    if i > 0 { ValueFits(hs[1..], i - 1); }
  }

  lemma {:induction false} EncodeSize(hs: seq<Header>)
    ensures |Encode(hs)| == Size(hs)
  {
    if hs != [] { EncodeSize(hs[1..]); }
  }

  lemma {:induction false} EncodeSnoc(hs: seq<Header>, h: Header)
    ensures Encode(hs + [h]) == Encode(hs) + Wire(h)
  {
    if hs == [] {
      assert hs + [h] == [h] && Encode([h]) == Wire(h) + [];
    } else {
      assert (hs + [h])[1..] == hs[1..] + [h];
      EncodeSnoc(hs[1..], h);
      assert Wire(hs[0]) + (Encode(hs[1..]) + Wire(h)) == Wire(hs[0]) + Encode(hs[1..]) + Wire(h);
    }
  }

  // ---- the scan

  /** An unescaped quote. The byte at position 0 is taken for one whatever it is. */
  predicate Quote(b: string, i: nat)
    requires i < |b|
  {
    i == 0 || (b[i] == QUOTE && b[i - 1] != ESCAPE)
  }

  function NextQuote(b: string, i: nat): (j: nat)
    ensures j <= |b| && (i <= j || j == |b|)
    ensures j < |b| ==> Quote(b, j)
    ensures forall k :: i <= k < j ==> !Quote(b, k)
    decreases |b| - i
  {
    if i >= |b| then |b| else if Quote(b, i) then i else NextQuote(b, i + 1)
  }

  datatype Ends = Ends(a: nat, k: nat, c: nat, d: nat)

  /** The four quotes that a scan looks for from i on. */
  function NextFour(b: string, i: nat): (e: Ends)
    ensures e.a <= |b| && e.d <= |b| && (e.a == |b| ==> e.d == |b|)
    ensures e.d < |b| ==> i <= e.a < e.k < e.c < e.d
  {
    hide Quote;
    var a := NextQuote(b, i);
    var k := NextQuote(b, a + 1);
    var c := NextQuote(b, k + 1);
    Ends(a, k, c, NextQuote(b, c + 1))
  }

  datatype Parsed = Parsed(pairs: seq<Header>, ok: bool)

  /** The key and value pairs from position i on, and whether the text ends between pairs. */
  function Parse(b: string, i: nat): Parsed
    decreases |b| - i
  {
    hide NextFour;
    var e := NextFour(b, i);
    if e.d == |b| then Parsed([], e.a == |b|)
    else
      var rest := Parse(b, e.d + 2);
      Parsed([Header(b[e.a + 1..e.k], b[e.c + 1..e.d])] + rest.pairs, rest.ok)
  }

  lemma NextQuoteIs(b: string, i: nat, j: nat)
    requires i <= j < |b| && Quote(b, j) && forall k :: i <= k < j ==> !Quote(b, k)
    ensures NextQuote(b, i) == j
  {
  }

  // ---- the scan, by counting quotes

  ghost predicate Rising(qs: seq<nat>, n: nat) {
    forall i, j :: 0 <= i < j < |qs| ==> qs[i] < qs[j] < n
  }

  /** Positions of the unescaped quotes from i on. */
  function Quotes(b: string, i: nat): (qs: seq<nat>)
    decreases |b| - i
  {
    var a := NextQuote(b, i);
    if a >= |b| || a < i then [] else [a] + Quotes(b, a + 1)
  }

  lemma {:induction false} QuotesAre(b: string, i: nat)
    ensures var qs := Quotes(b, i);
            && Rising(qs, |b|) && (forall m :: 0 <= m < |qs| ==> i <= qs[m] < |b|)
            && forall j :: j in qs <==> i <= j < |b| && Quote(b, j)
    decreases |b| - i
  {
    var a := NextQuote(b, i);
    if i <= a < |b| { QuotesAre(b, a + 1); }
  }

  /** The quotes after a pair: the byte right behind its last quote is skipped, also when it is a quote. */
  function AfterFour(qs: seq<nat>): (r: seq<nat>)
    requires |qs| >= 4
    ensures |r| < |qs|
  {
    var rest := qs[4..];
    if rest != [] && rest[0] == qs[3] + 1 then rest[1..] else rest
  }

  /** The quotes that the scan sees. */
  function Seen(qs: seq<nat>): seq<nat> {
    if |qs| < 4 then qs else qs[..4] + Seen(AfterFour(qs))
  }

  /** Quotes taken four at a time: around a key, then around a value. */
  ghost function PairsOf(b: string, qs: seq<nat>): seq<Header>
    requires Rising(qs, |b|)
  {
    if |qs| < 4 then []
    else
      var a, k, c, d := qs[0], qs[1], qs[2], qs[3];
      [Header(b[a + 1..k], b[c + 1..d])] + PairsOf(b, qs[4..])
  }

  /** The scan rejects exactly when the quotes it sees end mid-pair, and otherwise reads them four by four. */
  lemma {:induction false} ParseByQuotes(b: string, i: nat)
    ensures Rising(Seen(Quotes(b, i)), |b|)
    ensures Parse(b, i) == Parsed(PairsOf(b, Seen(Quotes(b, i))), |Seen(Quotes(b, i))| % 4 == 0)
    decreases |b| - i
  {
    hide *;
    QuotesAre(b, i);
    ParseStep(b, i);
    FourQuotes(b, i);
    var qs := Quotes(b, i);
    AllBetween(b, i);
    SeenStep(qs, i, |b|);
    if |qs| < 4 {
      TooFew(b, qs);
    } else {
      AfterPair(b, qs);
      FourFirst(b, qs[..4], Seen(AfterFour(qs)));
      ParseByQuotes(b, qs[3] + 2);
    }
  }

  lemma SeenStep(qs: seq<nat>, lo: nat, n: nat)
    requires Between(qs, lo, n)
    ensures Rising(Seen(qs), n)
    ensures |qs| < 4 ==> Seen(qs) == qs
    ensures |qs| >= 4 ==> Seen(qs) == qs[..4] + Seen(AfterFour(qs))
  {
    hide Between, AfterFour;
    SeenRises(qs, lo, n);
    BetweenRises(Seen(qs), lo, n);
  }

  ghost predicate Between(qs: seq<nat>, lo: nat, n: nat) {
    Rising(qs, n) && forall j :: 0 <= j < |qs| ==> lo <= qs[j] < n
  }

  lemma BetweenRises(qs: seq<nat>, lo: nat, n: nat)
    requires Between(qs, lo, n)
    ensures Rising(qs, n)
  {
  }

  lemma BetweenTail(qs: seq<nat>, k: nat, lo: nat, n: nat)
    requires Between(qs, lo, n) && 0 < k <= |qs|
    ensures Between(qs[..k], lo, qs[k - 1] + 1) && Between(qs[k..], qs[k - 1] + 1, n) && lo <= qs[k - 1] < n
  {
  }

  lemma BetweenJoin(a: seq<nat>, b: seq<nat>, lo: nat, mid: nat, n: nat)
    requires Between(a, lo, mid) && Between(b, mid, n) && lo <= mid <= n
    ensures Between(a + b, lo, n)
  {
  }

  lemma BetweenFrom(qs: seq<nat>, lo: nat, lo': nat, n: nat)
    requires Between(qs, lo', n) && lo <= lo'
    ensures Between(qs, lo, n)
  {
  }

  lemma AfterFourBetween(qs: seq<nat>, lo: nat, n: nat)
    requires Between(qs, lo, n) && |qs| >= 4
    ensures Between(AfterFour(qs), qs[3] + 1, n)
  {
    hide Between;
    BetweenTail(qs, 4, lo, n);
    if AfterFour(qs) != qs[4..] {
      BetweenTail(qs[4..], 1, qs[3] + 1, n);
      BetweenFrom(AfterFour(qs), qs[3] + 1, qs[4..][0] + 1, n);
    }
  }

  /** The quotes seen rise as the quotes do. */
  lemma {:induction false} SeenRises(qs: seq<nat>, lo: nat, n: nat)
    requires Between(qs, lo, n)
    ensures Between(Seen(qs), lo, n)
    decreases |qs|
  {
    hide Between, Seen, AfterFour;
    if |qs| >= 4 {
      AfterFourBetween(qs, lo, n);
      SeenRises(AfterFour(qs), qs[3] + 1, n);
      BetweenTail(qs, 4, lo, n);
      BetweenJoin(qs[..4], Seen(AfterFour(qs)), lo, qs[3] + 1, n);
      SeenUnfold(qs);
    } else {
      FewSeen(qs);
    }
  }

  lemma SeenUnfold(qs: seq<nat>)
    requires |qs| >= 4
    ensures Seen(qs) == qs[..4] + Seen(AfterFour(qs))
  {
  }

  lemma FewSeen(qs: seq<nat>)
    requires |qs| < 4
    ensures Seen(qs) == qs
  {
  }

  /** Nothing is skipped unseen when no quote follows a closing quote. */
  lemma {:induction false} AllSeen(qs: seq<nat>)
    requires forall j :: 0 < j < |qs| ==> qs[j] != qs[j - 1] + 1
    ensures Seen(qs) == qs
  {
    if |qs| >= 4 {
      hide Seen;
      var rest := qs[4..];
      assert forall j :: 0 <= j < |rest| ==> rest[j] == qs[j + 4];
      AllSeen(rest);
      SeenUnfold(qs);
      assert AfterFour(qs) == rest && qs == qs[..4] + rest;
    } else {
      FewSeen(qs);
    }
  }

  lemma QuotesStep(b: string, i: nat)
    ensures var a, qs := NextQuote(b, i), Quotes(b, i);
            && (a < |b| <==> qs != [])
            && (qs != [] ==> i <= a && qs[0] == a && qs[1..] == Quotes(b, a + 1))
  {
    hide Quote;
  }

  lemma FourQuotes(b: string, i: nat)
    ensures var e, qs := NextFour(b, i), Quotes(b, i);
            && (e.a >= |b| <==> qs == []) && (e.d < |b| <==> |qs| >= 4)
            && (|qs| >= 4 ==> i <= e.a < e.k < e.c < e.d < |b|)
            && (|qs| >= 4 ==> qs[0] == e.a && qs[1] == e.k && qs[2] == e.c && qs[3] == e.d)
            && (|qs| >= 4 ==> qs[4..] == Quotes(b, e.d + 1))
  {
    hide Quote, Quotes, NextQuote;
    var e := NextFour(b, i);
    QuotesStep(b, i);
    QuotesStep(b, e.a + 1);
    QuotesStep(b, e.k + 1);
    QuotesStep(b, e.c + 1);
  }

  lemma AllBetween(b: string, i: nat)
    ensures Between(Quotes(b, i), i, |b|)
  {
    hide Quotes;
    QuotesAre(b, i);
  }

  lemma PairsUnfold(b: string, qs: seq<nat>)
    requires |qs| >= 4 && Rising(qs, |b|)
    ensures qs[0] < qs[1] < qs[2] < qs[3] < |b| && Rising(qs[4..], |b|)
    ensures PairsOf(b, qs) == [Header(b[qs[0] + 1..qs[1]], b[qs[2] + 1..qs[3]])] + PairsOf(b, qs[4..])
  {
  }

  lemma FourFirst(b: string, four: seq<nat>, s: seq<nat>)
    requires |four| == 4 && Rising(four + s, |b|)
    ensures four[0] < four[1] < four[2] < four[3] < |b| && Rising(s, |b|) && |four + s| == 4 + |s|
    ensures PairsOf(b, four + s) == [Header(b[four[0] + 1..four[1]], b[four[2] + 1..four[3]])] + PairsOf(b, s)
  {
    hide Rising, PairsOf;
    var qs := four + s;
    PairsUnfold(b, qs);
    assert qs[4..] == s;
    assert qs[0] == four[0] && qs[1] == four[1] && qs[2] == four[2] && qs[3] == four[3];
  }

  lemma TooFew(b: string, qs: seq<nat>)
    requires Rising(qs, |b|)
    ensures |qs| < 4 ==> PairsOf(b, qs) == []
  {
  }

  /** The scan goes on two bytes behind a closing quote, so it sees the quotes that are left by then. */
  lemma AfterPair(b: string, qs: seq<nat>)
    requires |qs| >= 4 && qs[3] < |b| && qs[4..] == Quotes(b, qs[3] + 1)
    ensures AfterFour(qs) == Quotes(b, qs[3] + 2)
  {
    hide Quotes;
    QuotesSkip(b, qs[3] + 1);
  }

  lemma NextQuoteStep(b: string, i: nat)
    ensures NextQuote(b, i) == if i >= |b| then |b| else if Quote(b, i) then i else NextQuote(b, i + 1)
  {
    hide Quote;
  }

  lemma QuotesUnfold(b: string, i: nat)
    ensures var a := NextQuote(b, i);
            Quotes(b, i) == if a >= |b| || a < i then [] else [a] + Quotes(b, a + 1)
  {
    hide NextQuote;
  }

  lemma QuotesSkip(b: string, i: nat)
    ensures var qs := Quotes(b, i);
            Quotes(b, i + 1) == if qs != [] && qs[0] == i then qs[1..] else qs
  {
    hide Quotes, Quote, NextQuote;
    QuotesUnfold(b, i);
    QuotesUnfold(b, i + 1);
    NextQuoteStep(b, i);
    NextQuoteStep(b, i + 1);
  }

  lemma ParseStep(b: string, i: nat)
    ensures var e := NextFour(b, i);
            Parse(b, i) ==
            if e.a < e.k < e.c < e.d < |b| then
              var h, rest := Header(b[e.a + 1..e.k], b[e.c + 1..e.d]), Parse(b, e.d + 2);
              Parsed([h] + rest.pairs, rest.ok)
            else Parsed([], e.a >= |b|)
  {
    hide NextFour;
  }

  // ---- the round trip

  /** Nonempty, no NUL, does not end in a backslash, and every quote inside has a backslash before it. */
  ghost predicate WellEscaped(w: string) {
    && w != [] && NUL !in w && w[|w| - 1] != ESCAPE
    && forall i :: 0 <= i < |w| && w[i] == QUOTE ==> i > 0 && w[i - 1] == ESCAPE
  }

  ghost predicate AllWellEscaped(hs: seq<Header>) {
    forall i :: 0 <= i < |hs| ==> WellEscaped(hs[i].key) && WellEscaped(hs[i].value)
  }

  /** A well-escaped field hides its own quotes, and the quote that closes it is seen. */
  lemma FieldEnd(b: string, s: nat, w: string)
    requires WellEscaped(w) && 0 < s && s + |w| < |b|
    requires b[s..s + |w|] == w && b[s + |w|] == QUOTE
    ensures NextQuote(b, s) == s + |w|
  {
    forall k | s <= k < s + |w| ensures !Quote(b, k) {
      assert b[k] == w[k - s];
      if k > s { assert b[k - 1] == w[k - s - 1]; }
    }
    assert b[s + |w| - 1] == w[|w| - 1];
    NextQuoteIs(b, s, s + |w|);
  }

  /** Header h lies at position i of b. */
  ghost predicate Laid(b: string, i: nat, h: Header) {
    var j, k := i + |h.key| + 3, i + |h.key| + 3 + |h.value|;
    && k + 1 < |b| && b[i] == QUOTE
    && b[i + 1..i + 1 + |h.key|] == h.key && b[i + 1 + |h.key|] == QUOTE
    && b[j - 1] == QUOTE && b[j..k] == h.value && b[k] == QUOTE
  }

  lemma WireLaid(pre: string, h: Header, post: string)
    ensures Laid(pre + (Wire(h) + post), |pre|, h)
    ensures pre + (Wire(h) + post) == (pre + Wire(h)) + post
    ensures (pre + Wire(h))[|pre + Wire(h)| - 1] == ';' && |Wire(h)| == Cost(h)
  {
  }

  lemma LaidQuotes(b: string, i: nat, h: Header)
    requires Laid(b, i, h) && (i == 0 || b[i - 1] == ';')
    requires WellEscaped(h.key) && WellEscaped(h.value)
    ensures var k, c, d := i + 1 + |h.key|, i + 2 + |h.key|, i + |h.key| + 3 + |h.value|;
            && NextQuote(b, i) == i && NextQuote(b, i + 1) == k && NextQuote(b, k + 1) == c && NextQuote(b, c + 1) == d
            && d < |b| && b[i + 1..k] == h.key && b[c + 1..d] == h.value && d + 2 == i + Cost(h)
  {
    hide WellEscaped, NextQuote;
    var c := i + 2 + |h.key|;
    NextQuoteIs(b, i, i);
    FieldEnd(b, i + 1, h.key);
    NextQuoteIs(b, c, c);
    FieldEnd(b, c + 1, h.value);
  }

  lemma LaidFour(b: string, i: nat, h: Header)
    requires Laid(b, i, h) && (i == 0 || b[i - 1] == ';')
    requires WellEscaped(h.key) && WellEscaped(h.value)
    ensures NextFour(b, i) == Ends(i, i + 1 + |h.key|, i + 2 + |h.key|, i + |h.key| + 3 + |h.value|)
  {
    hide Laid, NextQuote, WellEscaped;
    LaidQuotes(b, i, h);
  }

  lemma ScanLaid(b: string, i: nat, h: Header)
    requires Laid(b, i, h) && (i == 0 || b[i - 1] == ';')
    requires WellEscaped(h.key) && WellEscaped(h.value)
    ensures var rest := Parse(b, i + Cost(h));
            Parse(b, i) == Parsed([h] + rest.pairs, rest.ok)
    ensures Resume(b, i) == Resume(b, i + Cost(h))
  {
    hide Laid, Parse, NextQuote, NextFour, WellEscaped, Cost;
    LaidQuotes(b, i, h);
    LaidFour(b, i, h);
    ParseStep(b, i);
  }

  /** Whatever precedes it, the wire form of well-escaped headers reads back as those headers. */
  lemma {:induction false} ParseEncoded(pre: string, hs: seq<Header>)
    requires pre == [] || pre[|pre| - 1] == ';'
    requires AllWellEscaped(hs)
    ensures Parse(pre + Encode(hs), |pre|) == Parsed(hs, true)
    ensures Resume(pre + Encode(hs), |pre|) == |pre + Encode(hs)|
    decreases |hs|
  {
    hide Laid, Parse, Wire, Cost, WellEscaped, Resume;
    var b := pre + Encode(hs);
    if hs == [] {
      assert b == pre;
      ParseEnd(b);
    } else {
      var h, rest, tail := hs[0], hs[1..], Encode(hs[1..]);
      assert Encode(hs) == Wire(h) + tail && hs == [h] + rest;
      WireLaid(pre, h, tail);
      ParseEncoded(pre + Wire(h), rest);
      assert |pre| > 0 ==> b[|pre| - 1] == pre[|pre| - 1];
      ScanLaid(b, |pre|, h);
    }
  }

  lemma ParseEnd(b: string)
    ensures Parse(b, |b|) == Parsed([], true) && Resume(b, |b|) == |b|
  {
  }

  /** Main theorem: scanning the printed form of a table gives the table back, order included. */
  lemma RoundTrip(hs: seq<Header>)
    requires Distinct(hs) && AllWellEscaped(hs)
    ensures Parse(Encode(hs), 0) == Parsed(hs, true) && Resume(Encode(hs), 0) == |Encode(hs)|
    ensures SetAll([], Parse(Encode(hs), 0).pairs) == hs
  {
    ParseEncoded([], hs);
    assert [] + Encode(hs) == Encode(hs);
    SetAllDistinct(hs);
  }

  // ---- what a scan stores can be printed again

  /** Every key and value is there. */
  ghost predicate AllTexts(ps: seq<Header>) {
    forall i :: 0 <= i < |ps| ==> ps[i].key != "" && ps[i].value != ""
  }

  /** A field between two quotes of a scan is well escaped, when it is not empty and its first byte is not a quote. */
  lemma FieldEscaped(b: string, s: nat, e: nat)
    requires 0 < s < e < |b| && NextQuote(b, s) == e && b[s] != QUOTE && NUL !in b
    ensures WellEscaped(b[s..e])
  {
    var w := b[s..e];
    assert Quote(b, e) && w[|w| - 1] == b[e - 1];
    forall i | 0 <= i < |w| && w[i] == QUOTE ensures i > 0 && w[i - 1] == ESCAPE {
      assert !Quote(b, s + i) && w[i] == b[s + i] && (i > 0 ==> w[i - 1] == b[s + i - 1]);
    }
  }

  /** A quote right behind a quote that opens a field would close it, unless the text starts with an escaped one. */
  lemma FirstByte(b: string, a: nat)
    requires a + 1 < |b| && Quote(b, a) && NextQuote(b, a + 1) != a + 1 && !(a == 0 && b[0] == ESCAPE && b[1] == QUOTE)
    ensures b[a + 1] != QUOTE
  {
  }

  lemma PairEscaped(b: string, i: nat)
    requires NUL !in b && !(|b| > 1 && b[0] == ESCAPE && b[1] == QUOTE)
    ensures var e := NextFour(b, i);
            e.a + 1 < e.k < e.c < e.d < |b| && e.c + 1 < e.d ==>
              WellEscaped(b[e.a + 1..e.k]) && WellEscaped(b[e.c + 1..e.d])
  {
    hide WellEscaped, NextQuote, Quote;
    var e := NextFour(b, i);
    if e.a + 1 < e.k < e.c < e.d < |b| && e.c + 1 < e.d {
      FirstByte(b, e.a);
      FirstByte(b, e.c);
      FieldEscaped(b, e.a + 1, e.k);
      FieldEscaped(b, e.c + 1, e.d);
    }
  }

  /** What a scan reads from a text without NULs is well escaped, so it survives being printed and scanned again. */
  lemma {:induction false} ParsedEscaped(b: string, i: nat)
    requires NUL !in b && AllTexts(Parse(b, i).pairs) && !(|b| > 1 && b[0] == ESCAPE && b[1] == QUOTE)
    ensures AllWellEscaped(Parse(b, i).pairs)
    decreases |b| - i
  {
    hide WellEscaped, Parse, NextFour;
    ParseStep(b, i);
    FourForward(b, i);
    var e := NextFour(b, i);
    if e.a < e.k < e.c < e.d < |b| {
      var h, rest := Header(b[e.a + 1..e.k], b[e.c + 1..e.d]), Parse(b, e.d + 2).pairs;
      assert Parse(b, i).pairs[0] == h && Parse(b, i).pairs[1..] == rest;
      PairEscaped(b, i);
      ParsedEscaped(b, e.d + 2);
    }
  }

  lemma FourForward(b: string, i: nat)
    ensures NextFour(b, i).a < |b| ==> i <= NextFour(b, i).a
  {
    hide NextQuote;
  }

  // ---- what a scan can need

  /** What a C string reader makes of a text: it stops at the first NUL. */
  function CutNul(w: string): (r: string)
    ensures |r| <= |w|
  {
    if w == [] || w[0] == NUL then [] else [w[0]] + CutNul(w[1..])
  }

  lemma {:induction false} CutNulIs(w: string, n: nat)
    requires n <= |w| && NUL !in w[..n] && (n < |w| ==> w[n] == NUL)
    ensures CutNul(w) == w[..n]
  {
    if n > 0 {
      assert w[..n][0] == w[0] && w[..n][1..] == w[1..][..n - 1];
      CutNulIs(w[1..], n - 1);
    }
  }

  function AsText(h: Header): Header { Header(CutNul(h.key), CutNul(h.value)) }

  /** Pairs that the table takes: they are read as C strings, and one with an empty key is refused. */
  function Keep(ps: seq<Header>): seq<Header> {
    if ps == [] then [] else (if AsText(ps[0]).key == "" then [] else [AsText(ps[0])]) + Keep(ps[1..])
  }

  lemma KeepUnfold(ps: seq<Header>)
    requires ps != []
    ensures Keep(ps) == (if AsText(ps[0]).key == "" then [] else [AsText(ps[0])]) + Keep(ps[1..])
  {
    hide AsText;
  }

  lemma {:induction false} KeepSnoc(ps: seq<Header>, h: Header)
    ensures Keep(ps + [h]) == Keep(ps) + if AsText(h).key == "" then [] else [AsText(h)]
  {
    var last := if AsText(h).key == "" then [] else [AsText(h)];
    if ps == [] {
      assert ps + [h] == [h] && [h][1..] == [];
      KeepUnfold([h]);
    } else {
      hide AsText, Keep;
      assert (ps + [h])[1..] == ps[1..] + [h] && (ps + [h])[0] == ps[0];
      KeepSnoc(ps[1..], h);
      KeepUnfold(ps);
      KeepUnfold(ps + [h]);
      Assoc(if AsText(ps[0]).key == "" then [] else [AsText(ps[0])], Keep(ps[1..]), last);
    }
  }

  /** No pair that the table takes has an empty value. */
  ghost predicate TextsOk(ps: seq<Header>) {
    forall h :: h in ps ==> AsText(h).key == "" || AsText(h).value != ""
  }

  /** Where the scan goes on after the last complete pair: two bytes behind its closing quote. */
  function Resume(b: string, i: nat): nat
    decreases |b| - i
  {
    var e := NextFour(b, i);
    if e.a < e.k < e.c < e.d < |b| && i <= e.a then Resume(b, e.d + 2) else i
  }

  lemma {:induction false} ResumeGrows(b: string, i: nat)
    ensures i <= Resume(b, i)
    decreases |b| - i
  {
    hide NextFour;
    var e := NextFour(b, i);
    if e.a < e.k < e.c < e.d < |b| && i <= e.a { ResumeGrows(b, e.d + 2); }
  }

  lemma SetAllSnoc(hs: seq<Header>, ps: seq<Header>, h: Header)
    ensures SetAll(hs, ps + [h]) == Set(SetAll(hs, ps), h)
  {
    assert (ps + [h])[..|ps|] == ps;
  }

  /** The table refuses none of a list of well-escaped headers. */
  lemma {:induction false} KeepAll(hs: seq<Header>)
    requires AllWellEscaped(hs)
    ensures Keep(hs) == hs
  {
    hide WellEscaped, CutNul;
    if hs != [] {
      PlainText(hs[0].key);
      PlainText(hs[0].value);
      KeepAll(hs[1..]);
    }
  }

  lemma PlainText(w: string)
    requires WellEscaped(w)
    ensures w != "" && CutNul(w) == w
  {
    assert w[..|w|] == w;
    CutNulIs(w, |w|);
  }
}
