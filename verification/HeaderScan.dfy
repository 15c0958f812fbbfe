/** The cursors of the header scan, which the broker and the Java client move in the same way. */
module HeaderScan {
  import opened Basics
  import opened Headers

  /** Where the scan stands between two looks at the buffer: the cursors it has set since position `from`. */
  ghost predicate Cursors(b: string, from: nat, n: nat, start_key: nat, end_key: nat, start_value: nat) {
    && from <= n
    && (end_key != 0 ==> start_key != 0) && (start_value != 0 ==> end_key != 0)
    && (start_key == 0 ==> NextQuote(b, from) == NextQuote(b, n))
    && (start_key != 0 ==> from < start_key <= n && start_key <= |b| && NextQuote(b, from) == start_key - 1)
    && (start_key != 0 && end_key == 0 ==> NextQuote(b, start_key) == NextQuote(b, n))
    && (end_key != 0 ==> start_key <= end_key < n && NextQuote(b, start_key) == end_key)
    && (end_key != 0 && start_value == 0 ==> NextQuote(b, end_key + 1) == NextQuote(b, n))
    && (start_value != 0 ==> end_key + 1 < start_value <= n && NextQuote(b, end_key + 1) == start_value - 1)
    && (start_value != 0 ==> NextQuote(b, start_value) == NextQuote(b, n))
  }

  lemma Restart(b: string, n: nat)
    ensures Cursors(b, n, n, 0, 0, 0)
  {
  }

  lemma NoQuoteHere(b: string, from: nat, n: nat, start_key: nat, end_key: nat, start_value: nat)
    requires Cursors(b, from, n, start_key, end_key, start_value) && n < |b| && !Quote(b, n)
    ensures Cursors(b, from, n + 1, start_key, end_key, start_value)
  {
    hide Quote;
  }

  /** A quote sets the first cursor that is not set yet. */
  lemma QuoteHere(b: string, from: nat, n: nat, start_key: nat, end_key: nat, start_value: nat)
    requires Cursors(b, from, n, start_key, end_key, start_value) && n < |b| && Quote(b, n)
    ensures start_key == 0 ==> Cursors(b, from, n + 1, n + 1, end_key, start_value)
    ensures start_key != 0 && end_key == 0 ==> Cursors(b, from, n + 1, start_key, n, start_value)
    ensures end_key != 0 && start_value == 0 ==> Cursors(b, from, n + 1, start_key, end_key, n + 1)
  {
    hide Quote;
  }

  lemma CloseEnds(b: string, from: nat, n: nat, start_key: nat, end_key: nat, start_value: nat)
    requires Cursors(b, from, n, start_key, end_key, start_value) && n < |b| && start_value != 0 && Quote(b, n)
    ensures NextFour(b, from) == Ends(start_key - 1, end_key, start_value - 1, n)
  {
    assert NextQuote(b, n) == n;
    hide Quote, NextQuote;
  }

  /** The quote at n closes a value, so a pair is complete. */
  lemma ClosePair(b: string, from: nat, n: nat, start_key: nat, end_key: nat, start_value: nat)
    requires Cursors(b, from, n, start_key, end_key, start_value) && n < |b| && start_value != 0 && Quote(b, n)
    ensures from < start_key <= end_key < start_value <= n
    ensures var h := Header(b[start_key..end_key], b[start_value..n]);
            && Parse(b, from) == Parsed([h] + Parse(b, n + 2).pairs, Parse(b, n + 2).ok)
            && |h.key| + |h.value| + 5 <= n + 2 - from && Resume(b, from) == Resume(b, n + 2)
  {
    hide NextFour, Quote, Parse;
    CloseEnds(b, from, n, start_key, end_key, start_value);
    ParseStep(b, from);
  }

  /** So it is the next pair of the whole text, and the scan starts anew behind it. */
  lemma PairComplete(b: string, from: nat, n: nat, start_key: nat, end_key: nat, start_value: nat, done: seq<Header>)
    requires Cursors(b, from, n, start_key, end_key, start_value) && n < |b| && start_value != 0 && Quote(b, n)
    requires Parse(b, 0) == Parsed(done + Parse(b, from).pairs, Parse(b, from).ok)
    ensures from < start_key <= end_key < start_value <= n
    ensures var h := Header(b[start_key..end_key], b[start_value..n]);
            && Parse(b, 0) == Parsed(done + [h] + Parse(b, n + 2).pairs, Parse(b, n + 2).ok)
            && |h.key| + |h.value| + 5 <= n + 2 - from && Resume(b, from) == Resume(b, n + 2)
    ensures Cursors(b, n + 2, n + 2, 0, 0, 0)
  {
    hide Parse, Quote, Cursors, Resume;
    ClosePair(b, from, n, start_key, end_key, start_value);
    Assoc(done, [Header(b[start_key..end_key], b[start_value..n])], Parse(b, n + 2).pairs);
    Restart(b, n + 2);
  }

  lemma ScanEnd(b: string, from: nat, n: nat, start_key: nat, end_key: nat, start_value: nat)
    requires Cursors(b, from, n, start_key, end_key, start_value) && n >= |b|
    ensures Parse(b, from) == Parsed([], start_key == 0)
  {
    hide Quote, NextQuote;
    ParseStep(b, from);
  }

  // ---- the scan as a machine, for every text a 16-bit size can have

  /** The buffer and the cursors of frame__parse_var_header. */
  datatype Scan = Scan(b: string, n: nat, start_key: nat, end_key: nat, start_value: nat)

  predicate Fits16(s: Scan) {
    |s.b| < 65536 && s.n < 65536 && (s.b != [] ==> s.end_key < |s.b|)
  }

  function Wrap16(n: nat): nat { n % 65536 }

  /** One round of the loop, with the index and the cursors in 16 bits. */
  function ScanStep(s: Scan): (r: Scan)
    requires Fits16(s) && s.n < |s.b|
    ensures Fits16(r) && |r.b| == |s.b|
    ensures forall i :: 0 <= i < |s.b| ==> r.b[i] == s.b[i] || r.b[i] == NUL
  {
    if s.n != 0 && (s.b[s.n] != QUOTE || s.b[s.n - 1] == ESCAPE) then s.(n := Wrap16(s.n + 1))
    else if s.start_key == 0 then s.(n := Wrap16(s.n + 1), start_key := Wrap16(s.n + 1))
    else if s.end_key == 0 then s.(n := Wrap16(s.n + 1), end_key := s.n)
    else if s.start_value == 0 then s.(n := Wrap16(s.n + 1), start_value := Wrap16(s.n + 1))
    else Scan(s.b[s.end_key := NUL][s.n := NUL], Wrap16(Wrap16(s.n + 1) + 1), 0, 0, 0)
  }

  /** Whether the index can still wrap: only a quote in the last of 65535 bytes can make it. */
  function MayWrap(b: string): nat { if |b| == 65535 && b[65534] == QUOTE then 1 else 0 }

  lemma StepForward(s: Scan)
    requires Fits16(s) && s.n < |s.b|
    ensures var r := ScanStep(s);
            MayWrap(r.b) <= MayWrap(s.b) && (r.n > s.n || (r.n == 0 && MayWrap(r.b) == 0 && MayWrap(s.b) == 1))
  {
    assert s.n < 65534 ==> Wrap16(Wrap16(s.n + 1) + 1) == s.n + 2;
  }

  /** The loop ends for every text, and has only written NULs into it. */
  function Scanned(s: Scan): (r: Scan)
    requires Fits16(s)
    ensures r.n >= |r.b| && |r.b| == |s.b|
    ensures forall i :: 0 <= i < |s.b| ==> r.b[i] == s.b[i] || r.b[i] == NUL
    decreases MayWrap(s.b), 65536 - s.n
  {
    if s.n >= |s.b| then s
    else
      StepForward(s);
      Scanned(ScanStep(s))
  }

  /** How often the index falls back. */
  function Wraps(s: Scan): (count: nat)
    requires Fits16(s)
    ensures count <= MayWrap(s.b)
    decreases MayWrap(s.b), 65536 - s.n
  {
    if s.n >= |s.b| then 0
    else
      StepForward(s);
      var r := ScanStep(s);
      (if r.n <= s.n then 1 else 0) + Wraps(r)
  }

  /** While no pair closes with the last of 65535 bytes, the machine ends as the scan of the untouched text says. */
  lemma {:induction false} ScannedIsParse(b: string, from: nat, s: Scan)
    requires Fits16(s) && |s.b| == |b| && (|b| == 65535 ==> Resume(b, from) <= |b|)
    requires from <= s.n <= |b| + 1 && Cursors(b, from, s.n, s.start_key, s.end_key, s.start_value)
    requires forall j :: 0 <= j < |b| && from <= j + 1 ==> s.b[j] == b[j]
    ensures Scanned(s).start_key == 0 <==> Parse(b, from).ok
    decreases |b| + 1 - s.n
  {
    hide Parse, NextQuote, Cursors, Resume;
    var n := s.n;
    if n >= |b| {
      ScanEnd(b, from, n, s.start_key, s.end_key, s.start_value);
    } else {
      StepForward(s);
      var r := ScanStep(s);
      if n != 0 && (s.b[n] != QUOTE || s.b[n - 1] == ESCAPE) {
        NoQuoteHere(b, from, n, s.start_key, s.end_key, s.start_value);
        ScannedIsParse(b, from, r);
      } else {
        QuoteHere(b, from, n, s.start_key, s.end_key, s.start_value);
        if s.start_value != 0 {
          ClosePair(b, from, n, s.start_key, s.end_key, s.start_value);
          ResumeGrows(b, n + 2);
          Restart(b, n + 2);
          ScannedIsParse(b, n + 2, r);
        } else {
          ScannedIsParse(b, from, r);
        }
      }
    }
  }
}
