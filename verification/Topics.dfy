/** Topic strings and the tokenizer: `strtok_r` over a copied buffer, and the walk over that buffer. */
module Topics {
  import opened Basics

  /** A '/' that directly follows another character than '/' ends a level. Further slashes
      belong to the next level: `a//b` has the levels `a` and `/b`. */
  predicate IsCut(t: string, i: int) {
    0 < i < |t| && t[i] == '/' && t[i - 1] != '/'
  }

  function FirstCut(t: string, from: nat): (i: nat)
    requires from <= |t|
    ensures from <= i <= |t|
    ensures forall j :: from <= j < i ==> !IsCut(t, j)
    ensures i < |t| ==> IsCut(t, i)
    decreases |t| - from
  {
    if from == |t| || IsCut(t, from) then from else FirstCut(t, from + 1)
  }

  /** The levels of a topic. */
  function Levels(t: string): (ls: seq<string>)
    ensures |ls| > 0
    decreases |t|
  {
    var i := FirstCut(t, 0);
    if i == |t| then [t] else [t[..i]] + Levels(t[i + 1..])
  }

  function Join(ls: seq<string>): string
    requires |ls| > 0
  {
    if |ls| == 1 then ls[0] else ls[0] + "/" + Join(ls[1..])
  }

  /** A level without its leading slashes: the token that strtok_r hands out. */
  function Strip(level: string): string {
    if level != "" && level[0] == '/' then Strip(level[1..]) else level
  }

  predicate NulFree(t: string) {
    NUL !in t
  }

  /** The topics the broker accepts. */
  predicate Accepted(t: string) {
    && t != ""
    && t[0] != '/' && t[|t| - 1] != '/'
    && forall k :: 0 <= k < |Levels(t)| - 1 ==> Strip(Levels(t)[k]) != "*"
  }

  // ---- the accepted topics, by their text alone

  /** A star that stands for a whole level, with a slash behind it. */
  predicate LoneStarAt(t: string, i: nat) {
    i + 1 < |t| && t[i] == '*' && t[i + 1] == '/' && (i == 0 || t[i - 1] == '/')
  }

  ghost predicate HasLoneStar(t: string) { exists i: nat :: LoneStarAt(t, i) }

  ghost predicate StarBeforeLast(ls: seq<string>) { exists k :: 0 <= k < |ls| - 1 && Strip(ls[k]) == "*" }

  lemma {:induction false} StripStar(level: string)
    requires forall i :: 0 < i < |level| && level[i] == '/' ==> level[i - 1] == '/'
    ensures Strip(level) == "*" <==>
              level != "" && level[|level| - 1] == '*' && (|level| == 1 || level[|level| - 2] == '/')
  {
    if level != "" && level[0] == '/' {
      var rest := level[1..];
      assert forall i :: 0 <= i < |rest| ==> rest[i] == level[i + 1];
      StripStar(rest);
    } else if |level| > 1 {
      NoSlashAfter(level, |level| - 2);
    } else if |level| == 1 {
      assert level == [level[0]];
    }
  }

  lemma {:induction false} NoSlashAfter(level: string, i: nat)
    requires i < |level| && level[0] != '/' && forall i :: 0 < i < |level| && level[i] == '/' ==> level[i - 1] == '/'
    ensures level[i] != '/'
  {
    if i > 0 { NoSlashAfter(level, i - 1); }
  }

  /** A lone star ends the first level, or is one of the rest. */
  lemma WhereStar(t: string, c: nat, i: nat)
    requires c == FirstCut(t, 0)
    ensures c == |t| ==> !LoneStarAt(t, i)
    ensures c < |t| ==>
              (LoneStarAt(t, i) <==>
                (i == c - 1 && Strip(t[..c]) == "*") || (i > c && LoneStarAt(t[c + 1..], i - c - 1)))
  {
    assert i + 1 < c ==> !IsCut(t, i + 1);
    if c < |t| {
      var first, rest := t[..c], t[c + 1..];
      forall j | 0 < j < |first| && first[j] == '/' ensures first[j - 1] == '/' { assert !IsCut(t, j); }
      StripStar(first);
      if i > c && i + 1 < |t| { assert rest[i - c - 1] == t[i] && rest[i - c] == t[i + 1]; }
      if i > c + 1 && i < |t| { assert rest[i - c - 2] == t[i - 1]; }
    }
  }

  /** A level other than the last is a star exactly when the text has a lone star. */
  lemma {:induction false} LoneStars(t: string)
    ensures StarBeforeLast(Levels(t)) <==> HasLoneStar(t)
    decreases |t|
  {
    hide FirstCut, Strip, LoneStarAt;
    var c := FirstCut(t, 0);
    if c == |t| {
      forall i: nat ensures !LoneStarAt(t, i) { WhereStar(t, c, i); }
    } else {
      var first, rest := t[..c], t[c + 1..];
      LoneStars(rest);
      StarsCons(first, Levels(rest));
      if Strip(first) == "*" {
        WhereStar(t, c, c - 1);
      }
      if HasLoneStar(rest) {
        var i: nat :| LoneStarAt(rest, i);
        WhereStar(t, c, i + c + 1);
        assert LoneStarAt(t, i + c + 1);
      }
      if HasLoneStar(t) {
        var i: nat :| LoneStarAt(t, i);
        WhereStar(t, c, i);
      }
    }
  }

  lemma StarsCons(first: string, ls: seq<string>)
    requires ls != []
    ensures StarBeforeLast([first] + ls) <==> Strip(first) == "*" || StarBeforeLast(ls)
  {
    hide Strip;
    var r := [first] + ls;
    if StarBeforeLast(ls) {
      var k :| 0 <= k < |ls| - 1 && Strip(ls[k]) == "*";
      assert r[k + 1] == ls[k];
    }
    if StarBeforeLast(r) {
      var k :| 0 <= k < |r| - 1 && Strip(r[k]) == "*";
      if k > 0 { assert r[k] == ls[k - 1]; }
    }
    assert r[0] == first;
  }

  /** Every star with a slash behind it has a byte other than a slash in front of it. */
  ghost predicate NoStarLevelBeforeSlash(t: string) {
    forall i :: 0 <= i < |t| - 1 && t[i] == '*' && t[i + 1] == '/' ==> i > 0 && t[i - 1] != '/'
  }

  lemma NoStarIs(t: string)
    ensures NoStarLevelBeforeSlash(t) <==> !HasLoneStar(t)
  {
    if HasLoneStar(t) {
      var i: nat :| LoneStarAt(t, i);
      assert t[i] == '*';
    }
    if !NoStarLevelBeforeSlash(t) {
      var i :| 0 <= i < |t| - 1 && t[i] == '*' && t[i + 1] == '/' && !(i > 0 && t[i - 1] != '/');
      assert LoneStarAt(t, i);
    }
  }

  /** Accepted are the topics that neither start nor end with a slash and have no lone star but at their end. */
  lemma AcceptedIs(t: string)
    ensures Accepted(t) <==> t != "" && t[0] != '/' && t[|t| - 1] != '/' && NoStarLevelBeforeSlash(t)
  {
    hide Levels, Strip, NoStarLevelBeforeSlash, HasLoneStar;
    LoneStars(t);
    NoStarIs(t);
    assert StarBeforeLast(Levels(t)) <==> !(forall k :: 0 <= k < |Levels(t)| - 1 ==> Strip(Levels(t)[k]) != "*");
  }

  // ---- levels and topics determine each other

  lemma {:induction false} JoinLevels(t: string)
    ensures Join(Levels(t)) == t
    decreases |t|
  {
    var i := FirstCut(t, 0);
    if i < |t| {
      JoinLevels(t[i + 1..]);
      assert Levels(t)[1..] == Levels(t[i + 1..]);
      assert t == t[..i] + "/" + t[i + 1..];
    }
  }

  lemma LevelsInjective(t: string, u: string)
    requires Levels(t) == Levels(u)
    ensures t == u
  {
    JoinLevels(t);
    JoinLevels(u);
  }

  // ---- the buffer strtok_r leaves behind, and the walk over it

  /** Offset of the terminator of the C string that starts at `off`. */
  function Terminator(b: string, off: nat): (e: nat)
    requires off <= |b|
    ensures off <= e <= |b|
    ensures forall j :: off <= j < e ==> b[j] != NUL
    ensures e < |b| ==> b[e] == NUL
    decreases |b| - off
  {
    if off == |b| || b[off] == NUL then off else Terminator(b, off + 1)
  }

  /** The C string that starts at `off`. */
  function CStr(b: string, off: nat): string
    requires off <= |b|
  {
    b[off..Terminator(b, off)]
  }

  /** topic__next_token */
  function NextToken(b: string, off: nat): nat
    requires off <= |b|
  {
    off + |CStr(b, off)| + 1
  }

  /** `ls` is what n walked tokens from `off` spell, and every one of them lies inside the buffer. */
  ghost predicate Walks(b: string, off: nat, ls: seq<string>)
    decreases ls
  {
    ls == [] ||
    (off < |b| && Terminator(b, off) < |b| && CStr(b, off) == ls[0] && Walks(b, NextToken(b, off), ls[1..]))
  }

  /** The topic with a terminator written over every cut, and one at its end. */
  ghost predicate CutBuffer(t: string, b: string) {
    && |b| == |t| + 1
    && b[|t|] == NUL
    && forall i {:trigger b[i]} :: 0 <= i < |t| ==> b[i] == if IsCut(t, i) then NUL else t[i]
  }

  lemma CutBufferTerminator(t: string, off: nat, b: string)
    requires NulFree(t)
    requires off <= |t| && CutBuffer(t, b)
    ensures |b| == |t| + 1 && Terminator(b, off) == FirstCut(t, off)
    ensures CStr(b, off) == t[off..FirstCut(t, off)] && NextToken(b, off) == FirstCut(t, off) + 1
  {
    var e := FirstCut(t, off);
    forall j | off <= j < e ensures b[j] != NUL { assert !IsCut(t, j) && t[j] in t; }
    assert b[e] == NUL;
    hide IsCut, FirstCut;
    assert forall j :: off <= j < e ==> b[j] == t[j];
  }

  lemma WalksOn(b: string, off: nat, ls: seq<string>)
    requires off < |b| && Terminator(b, off) < |b|
    requires ls != [] && CStr(b, off) == ls[0] && Walks(b, NextToken(b, off), ls[1..])
    ensures Walks(b, off, ls)
  {
  }

  lemma WalksNext(b: string, off: nat, ls: seq<string>)
    requires Walks(b, off, ls) && ls != []
    ensures off < |b| && Terminator(b, off) < |b| && NextToken(b, off) <= |b|
    ensures CStr(b, off) == ls[0] && Walks(b, NextToken(b, off), ls[1..])
  {
  }

  lemma WalksNothing(b: string, off: nat)
    ensures Walks(b, off, [])
  {
  }

  lemma {:induction false} CutBufferWalks(t: string, off: nat, b: string)
    requires NulFree(t)
    requires off <= |t| && CutBuffer(t, b)
    requires off == 0 || IsCut(t, off - 1)
    ensures Walks(b, off, Levels(t[off..]))
    decreases |t| - off
  {
    hide *;
    var e := FirstCut(t, off);
    CutBufferTerminator(t, off, b);
    StartsLevel(t, off);
    LevelsHead(t, off);
    if e < |t| {
      CutBufferWalks(t, e + 1, b);
    } else {
      WalksNothing(b, e + 1);
    }
    WalksOn(b, off, Levels(t[off..]));
  }

  /** A place where a level can start, or the end of the topic. */
  ghost predicate LevelStart(t: string, o: nat) {
    o == 0 || o == |t| || (o < |t| && IsCut(t, o - 1))
  }

  lemma FirstCutFrom(t: string, o: nat)
    requires o <= |t| && LevelStart(t, o)
    ensures FirstCut(t[o..], 0) == FirstCut(t, o) - o
  {
    hide FirstCut;
    var u := t[o..];
    var i, e := FirstCut(u, 0), FirstCut(t, o);
    forall j | 0 <= j < |u| ensures IsCut(u, j) == IsCut(t, o + j) { }
    assert i < |u| ==> IsCut(t, o + i);
    assert e < |t| ==> IsCut(u, e - o);
  }

  lemma LevelsUnfold(u: string)
    ensures var i := FirstCut(u, 0);
            Levels(u) == if i == |u| then [u] else [u[..i]] + Levels(u[i + 1..])
  {
    hide FirstCut;
  }

  lemma LevelsFrom(t: string, o: nat)
    requires o <= |t| && LevelStart(t, o)
    ensures var e := FirstCut(t, o);
            Levels(t[o..]) == if e == |t| then [t[o..]] else [t[o..e]] + Levels(t[e + 1..])
  {
    hide Levels, FirstCut, LevelStart;
    var u, e := t[o..], FirstCut(t, o);
    FirstCutFrom(t, o);
    LevelsUnfold(u);
    assert u[..e - o] == t[o..e];
    if e < |t| { assert u[e - o + 1..] == t[e + 1..]; }
  }

  lemma StartsLevel(t: string, o: nat)
    requires o <= |t| && (o == 0 || IsCut(t, o - 1))
    ensures LevelStart(t, o)
  {
  }

  /** The level that starts at o, and the levels after it. */
  lemma LevelsHead(t: string, o: nat)
    requires o <= |t| && LevelStart(t, o)
    ensures var e, ls := FirstCut(t, o), Levels(t[o..]);
            && ls[0] == t[o..e] && ls[1..] == if e == |t| then [] else Levels(t[e + 1..])
  {
    hide *;
    LevelsFrom(t, o);
    var e := FirstCut(t, o);
    if e < |t| { HeadTail(t[o..e], Levels(t[e + 1..])); } else { HeadTail(t[o..], []); }
  }

  lemma HeadTail(x: string, xs: seq<string>)
    ensures ([x] + xs)[0] == x && ([x] + xs)[1..] == xs && [x] + [] == [x]
  {
  }

  // ---- strtok_r and topic__extract_token

  /** The topic with a terminator written over the cuts before `o` only. */
  ghost predicate CutBefore(t: string, b: string, o: nat) {
    && |b| == |t| + 1
    && b[|t|] == NUL
    && forall i {:trigger b[i]} :: 0 <= i < |t| ==> b[i] == if i < o && IsCut(t, i) then NUL else t[i]
  }

  /** strtok_r(buf, "/", &save): -1 stands for NULL. The text before `save` is already cut. */
  method StrtokR(buf: array<char>, save: nat, ghost t: string) returns (tok: int, next: nat)
    requires NulFree(t)
    requires save <= |t| && LevelStart(t, save) && CutBefore(t, buf[..], save)
    modifies buf
    ensures tok == -1 <==> forall i :: save <= i < |t| ==> t[i] == '/'
    ensures tok == -1 ==> buf[..] == old(buf[..])
    ensures tok != -1 ==>
              var e := FirstCut(t, save);
              && save <= tok < e
              && t[tok..e] == Strip(t[save..e])
              && next == (if e < |t| then e + 1 else e)
              && CutBefore(t, buf[..], e + 1)
  {
    var i := save;
    assert forall j :: 0 <= j < |t| ==> t[j] in t;
    while buf[i] == '/'
      invariant save <= i <= |t|
      invariant forall j :: save <= j < i ==> t[j] == '/'
      invariant LevelStart(t, save)
      decreases |t| - i
    {
      i := i + 1;
    }
    if buf[i] == NUL {
      return -1, i;
    }
    tok := i;
    ghost var e := FirstCut(t, save);
    assert forall j :: save <= j <= i ==> !IsCut(t, j);
    while buf[i] != '/' && buf[i] != NUL
      invariant tok <= i <= e
      invariant i > tok ==> t[i - 1] != '/'
      invariant i == tok ==> buf[i] != '/' && buf[i] != NUL
      decreases |t| - i
    {
      i := i + 1;
      assert i - 1 < |t|;
    }
    assert i < |t| ==> t[i] in t && IsCut(t, i);
    assert i == e;
    StripSlashes(t, save, tok, e);
    if buf[i] == NUL {
      next := i;
    } else {
      buf[i] := NUL;
      next := i + 1;
    }
  }

  lemma {:induction false} StripSlashes(t: string, a: nat, m: nat, e: nat)
    requires a <= m < e <= |t| && t[m] != '/'
    requires forall j :: a <= j < m ==> t[j] == '/'
    ensures Strip(t[a..e]) == t[m..e]
    decreases m - a
  {
    if a < m {
      assert t[a..e][1..] == t[a + 1..e];
      StripSlashes(t, a + 1, m, e);
    }
  }

  /** strtok_r has just handed out level `n`, which starts at `o`. */
  ghost predicate Handed(t: string, b: string, n: nat, o: nat, tok: int, save: nat) {
    && o < |t| && LevelStart(t, o)
    && n < |Levels(t)| && Levels(t)[n..] == Levels(t[o..])
    && var e := FirstCut(t, o);
       && o <= tok < e && t[tok..e] == Strip(t[o..e])
       && save == (if e < |t| then e + 1 else e)
       && CutBefore(t, b, e + 1)
  }

  lemma HandedLevel(t: string, b: string, n: nat, o: nat, tok: int, save: nat)
    requires Handed(t, b, n, o, tok, save)
    ensures var e := FirstCut(t, o);
            && Levels(t)[n] == t[o..e]
            && (e == |t| ==> |Levels(t)| == n + 1)
            && (e < |t| ==> n + 1 < |Levels(t)| && Levels(t)[n + 1..] == Levels(t[e + 1..]) && LevelStart(t, e + 1))
  {
    hide Levels, FirstCut, Strip, CutBefore;
    LevelsHead(t, o);
    assert Levels(t)[n] == Levels(t)[n..][0];
    assert Levels(t)[n + 1..] == Levels(t)[n..][1..];
  }

  lemma LoneStar(t: string, b: string, n: nat, o: nat, tok: int, save: nat)
    requires NulFree(t)
    requires Handed(t, b, n, o, tok, save)
    ensures (b[tok] == '*' && b[tok + 1] == NUL) <==> Strip(Levels(t)[n]) == "*"
  {
    hide Levels, FirstCut, Strip, LevelStart;
    HandedLevel(t, b, n, o, tok, save);
    var e := FirstCut(t, o);
    hide Handed;
    CutByte(t, b, tok, e);
    assert |t[tok..e]| == e - tok && t[tok..e][0] == t[tok];
  }

  /** A level's first byte is as it was, and a terminator follows it only when it is the whole level. */
  lemma CutByte(t: string, b: string, tok: nat, e: nat)
    requires NulFree(t) && tok < e <= |t| && CutBefore(t, b, e + 1) && (forall j :: tok <= j < e ==> !IsCut(t, j))
    requires e < |t| ==> IsCut(t, e)
    ensures b[tok] == t[tok] && (b[tok + 1] == NUL <==> tok + 1 == e)
  {
    assert t[tok] in t && (tok + 1 < |t| ==> t[tok + 1] in t);
    assert b[tok + 1] == NUL || tok + 1 < |t|;
  }

  /** The last level ends the topic; a level that is not the last is followed by another one. */
  lemma LastLevel(t: string, b: string, n: nat, o: nat, tok: int, save: nat)
    requires Handed(t, b, n, o, tok, save) && t[|t| - 1] != '/'
    ensures save <= |t| && LevelStart(t, save) && CutBefore(t, b, save)
    ensures (forall i :: save <= i < |t| ==> t[i] == '/') <==> n == |Levels(t)| - 1
    ensures n == |Levels(t)| - 1 ==> save == |t|
    ensures n < |Levels(t)| - 1 ==> o < save < |t|
  {
    hide Levels, FirstCut, Strip;
    HandedLevel(t, b, n, o, tok, save);
    var e := FirstCut(t, o);
    if e < |t| {
      assert t[e] == '/';
      assert save <= |t| - 1;
    }
  }

  lemma NextHanded(t: string, b: string, n: nat, o: nat, tok: int, save: nat, b': string, tok': int, save': nat)
    requires Handed(t, b, n, o, tok, save) && n < |Levels(t)| - 1 && save < |t|
    requires var e := FirstCut(t, save);
              && save <= tok' < e
              && t[tok'..e] == Strip(t[save..e])
              && save' == (if e < |t| then e + 1 else e)
              && CutBefore(t, b', e + 1)
    ensures Handed(t, b', n + 1, save, tok', save')
  {
    hide Levels, FirstCut, Strip, CutBefore;
    HandedLevel(t, b, n, o, tok, save);
  }

  /** topic__extract_token. The buffer is handed on as a value. */
  method ExtractToken(topic: string) returns (s: Status, n_tok: nat, first_tok: string)
    requires NulFree(topic)
    ensures s == if Accepted(topic) then Ok else InvalidTopic
    ensures s.Ok? ==> n_tok == |Levels(topic)| && Walks(first_tok, 0, Levels(topic))
  {
    hide Levels, Strip, IsCut, FirstCut, Walks;
    n_tok, first_tok := 0, "";
    if |topic| == 0 || topic[0] == '/' || topic[|topic| - 1] == '/' {
      return InvalidTopic, n_tok, first_tok;
    }
    var buf := new char[|topic| + 1](i requires 0 <= i => if i < |topic| then topic[i] else NUL);
    assert topic[0..] == topic;
    ghost var o := 0;
    var tok, save := StrtokR(buf, 0, topic);
    while tok != -1
      invariant tok == -1 ==> n_tok == |Levels(topic)| && CutBefore(topic, buf[..], |topic|)
      invariant tok != -1 ==> Handed(topic, buf[..], n_tok, o, tok, save)
      invariant n_tok <= |Levels(topic)|
      invariant forall k :: 0 <= k < n_tok && k < |Levels(topic)| - 1 ==> Strip(Levels(topic)[k]) != "*"
      decreases |topic| - o, tok
    {
      ghost var b := buf[..];
      LoneStar(topic, b, n_tok, o, tok, save);
      LastLevel(topic, b, n_tok, o, tok, save);
      var lone := buf[tok] == '*' && buf[tok + 1] == NUL;
      var next_tok, next := StrtokR(buf, save, topic);
      if lone && next_tok != -1 {
        return InvalidTopic, n_tok, first_tok;
      }
      if next_tok != -1 {
        NextHanded(topic, b, n_tok, o, tok, save, buf[..], next_tok, next);
      }
      n_tok := n_tok + 1;
      o, tok, save := save, next_tok, next;
    }
    first_tok := buf[..];
    CutBufferWalks(topic, 0, first_tok);
    return Ok, n_tok, first_tok;
  }
}
