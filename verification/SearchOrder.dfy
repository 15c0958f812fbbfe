/** The order of a search, by the patterns alone: at the first level where two of them differ, `*`, `+`, then a word. */
module SearchOrder {
  import opened Basics
  import opened Topics
  import opened Entities
  import opened Tries

  function Rank(tok: string): nat { if tok == "*" then 0 else if tok == "+" then 1 else 2 }

  /** At the first level where they differ, a ranks before b. */
  predicate Before(a: seq<string>, b: seq<string>) {
    a != [] && b != [] && if a[0] == b[0] then Before(a[1..], b[1..]) else Rank(a[0]) < Rank(b[0])
  }

  ghost predicate ComesFirst<T>(xs: seq<T>, x: T, y: T) {
    exists i, j :: 0 <= i < j < |xs| && xs[i] == x && xs[j] == y
  }

  // ---- levels and paths

  /** A node below the child for `tok` is reached by levels that start with `tok`. */
  lemma FirstLevel(p: Path, tok: string, ts: seq<string>)
    requires Above(Step(p, tok), PathOf(p, ts))
    ensures ts != [] && ts[0] == tok
  {
    if ts == [] {
      AboveDepth(Step(p, tok), p);
    } else {
      PathOfBelow(Step(p, ts[0]), ts[1..]);
      AboveUnique(Step(p, tok), Step(p, ts[0]), PathOf(p, ts));
    }
  }

  lemma {:induction false} SamePath(p: Path, a: seq<string>, b: seq<string>)
    requires PathOf(p, a) == PathOf(p, b)
    ensures a == b
    decreases |a|
  {
    PathOfBelow(p, a);
    PathOfBelow(p, b);
    if a != [] {
      PathOfBelow(Step(p, a[0]), a[1..]);
      FirstLevel(p, a[0], b);
      SamePath(Step(p, a[0]), a[1..], b[1..]);
      assert a == [a[0]] + a[1..] && b == [b[0]] + b[1..];
    }
  }

  // ---- the search

  /** Whom a search below p finds sits below p. */
  lemma FoundBelow(t: Trie, p: Path, topic: seq<string>, s: Subscriber)
    requires Shaped(t) && Homed(t) && p in t && s in Find(t, p, topic)
    ensures Above(p, Home(s))
  {
    hide Find, Home, Hit;
    FindCount(t, p, topic, s);
    assert s in multiset(Find(t, p, topic));
    HitBelow(p, Home(s), topic);
  }

  /** What the search finds in the child for `tok`, if there is one. */
  function Below(t: Trie, p: Path, tok: string, rest: seq<string>): seq<Subscriber> {
    if Step(p, tok) in t then Find(t, Step(p, tok), rest) else []
  }

  /** Whom the search finds through the child for `tok` has that level there. */
  lemma BelowStarts(t: Trie, p: Path, tok: string, rest: seq<string>, s: Subscriber, ts: seq<string>)
    requires Shaped(t) && Homed(t) && p in t && s in Below(t, p, tok, rest) && Home(s) == PathOf(p, ts)
    ensures ts != [] && ts[0] == tok && Home(s) == PathOf(Step(p, tok), ts[1..])
  {
    FoundBelow(t, Step(p, tok), rest, s);
    FirstLevel(p, tok, ts);
  }

  /** One pattern ranks before the other, or they are the same and the node's table has x first. */
  ghost predicate InOrder(t: Trie, x: Subscriber, y: Subscriber, a: seq<string>, b: seq<string>) {
    Before(a, b) || (a == b && ComesFirst(At(t, Home(x)), x, y))
  }

  /** The subscribers at one node are found in the order of its table. */
  lemma SeatOrder(t: Trie, q: Path, i: nat, j: nat, p: Path, a: seq<string>, b: seq<string>)
    requires Homed(t) && i < j < |At(t, q)|
    requires Home(At(t, q)[i]) == PathOf(p, a) && Home(At(t, q)[j]) == PathOf(p, b)
    ensures InOrder(t, At(t, q)[i], At(t, q)[j], a, b)
  {
    hide Home;
    assert Sits(t[q], q);
    SamePath(p, a, b);
  }

  /** At the `*` child the last level is a `*`. */
  lemma StarStarts(t: Trie, p: Path, s: Subscriber, ts: seq<string>)
    requires Homed(t) && s in At(t, Step(p, "*")) && Home(s) == PathOf(p, ts)
    ensures ts != [] && ts[0] == "*"
  {
    hide Home;
    assert Sits(t[Step(p, "*")], Step(p, "*"));
    SamePath(p, ts, ["*"]);
  }

  /** Levels that differ at once are in the order of their ranks. */
  lemma RanksDecide(a: seq<string>, b: seq<string>)
    requires a != [] && b != [] && Rank(a[0]) < Rank(b[0])
    ensures Before(a, b)
  {
  }

  lemma Deeper(t: Trie, x: Subscriber, y: Subscriber, a: seq<string>, b: seq<string>)
    requires a != [] && b != [] && a[0] == b[0] && InOrder(t, x, y, a[1..], b[1..])
    ensures InOrder(t, x, y, a, b)
  {
    assert a == [a[0]] + a[1..] && b == [b[0]] + b[1..];
  }

  /** Which of the three parts of a search list an index falls in. */
  lemma PartOf<T>(a: seq<T>, b: seq<T>, c: seq<T>, i: nat)
    requires i < |a + b + c|
    ensures i < |a| ==> (a + b + c)[i] == a[i]
    ensures |a| <= i < |a| + |b| ==> (a + b + c)[i] == b[i - |a|]
    ensures |a| + |b| <= i ==> (a + b + c)[i] == c[i - |a| - |b|]
  {
  }

  /** What the search finds in the child that the topic names. */
  function Words(t: Trie, p: Path, topic: seq<string>): seq<Subscriber>
    requires topic != []
  {
    if IsLiteral(topic[0]) then Below(t, p, topic[0], topic[1..]) else []
  }

  lemma ThreeParts(t: Trie, p: Path, topic: seq<string>)
    requires topic != []
    ensures Find(t, p, topic) == At(t, Step(p, "*")) + Below(t, p, "+", topic[1..]) + Words(t, p, topic)
  {
    hide At;
  }

  /** Two who are found through different children. */
  lemma CrossOrder(t: Trie, p: Path, topic: seq<string>, x: Subscriber, y: Subscriber, a: seq<string>, b: seq<string>)
    requires Shaped(t) && Homed(t) && p in t && topic != [] && Home(x) == PathOf(p, a) && Home(y) == PathOf(p, b)
    requires || (x in At(t, Step(p, "*")) && (y in Below(t, p, "+", topic[1..]) || y in Words(t, p, topic)))
             || (x in Below(t, p, "+", topic[1..]) && y in Words(t, p, topic))
    ensures InOrder(t, x, y, a, b)
  {
    hide Home, At, Below, PathOf, Shaped, Homed;
    if x in At(t, Step(p, "*")) { StarStarts(t, p, x, a); } else { BelowStarts(t, p, "+", topic[1..], x, a); }
    var tok := if y in Words(t, p, topic) then topic[0] else "+";
    BelowStarts(t, p, tok, topic[1..], y, b);
    RanksDecide(a, b);
  }

  /** The list of a search from p is in pattern order; a and b are the levels from p on. */
  lemma {:induction false} FindOrder(t: Trie, p: Path, topic: seq<string>, i: nat, j: nat,
                                     a: seq<string>, b: seq<string>)
    requires Shaped(t) && Homed(t) && p in t && i < j < |Find(t, p, topic)|
    requires Home(Find(t, p, topic)[i]) == PathOf(p, a) && Home(Find(t, p, topic)[j]) == PathOf(p, b)
    ensures InOrder(t, Find(t, p, topic)[i], Find(t, p, topic)[j], a, b)
    decreases |topic|
  {
    hide Find, Home, At, InOrder, Below, Words, PathOf, Shaped, Homed;
    if topic == [] {
      FindHere(t, p);
      SeatOrder(t, p, i, j, p, a, b);
    } else {
      var stars, plus, words := At(t, Step(p, "*")), Below(t, p, "+", topic[1..]), Words(t, p, topic);
      ThreeParts(t, p, topic);
      PartOf(stars, plus, words, i);
      PartOf(stars, plus, words, j);
      if j < |stars| {
        SeatOrder(t, Step(p, "*"), i, j, p, a, b);
      } else if |stars| <= i && j < |stars| + |plus| {
        BranchOrder(t, p, "+", topic, i - |stars|, j - |stars|, a, b);
      } else if |stars| + |plus| <= i {
        NoWords(t, p, topic);
        BranchOrder(t, p, topic[0], topic, i - |stars| - |plus|, j - |stars| - |plus|, a, b);
      } else {
        CrossOrder(t, p, topic, Find(t, p, topic)[i], Find(t, p, topic)[j], a, b);
      }
    }
  }

  lemma FindHere(t: Trie, p: Path)
    ensures Find(t, p, []) == At(t, p)
  {
  }

  lemma NoWords(t: Trie, p: Path, topic: seq<string>)
    requires topic != [] && Words(t, p, topic) != []
    ensures Words(t, p, topic) == Below(t, p, topic[0], topic[1..])
  {
  }

  /** Both are found through one child. */
  lemma BranchOrder(t: Trie, p: Path, tok: string, topic: seq<string>, i: nat, j: nat, a: seq<string>, b: seq<string>)
    requires Shaped(t) && Homed(t) && p in t && topic != [] && i < j < |Below(t, p, tok, topic[1..])|
    requires Home(Below(t, p, tok, topic[1..])[i]) == PathOf(p, a)
    requires Home(Below(t, p, tok, topic[1..])[j]) == PathOf(p, b)
    ensures InOrder(t, Below(t, p, tok, topic[1..])[i], Below(t, p, tok, topic[1..])[j], a, b)
    decreases |topic|, 0
  {
    hide InOrder, Home, Shaped, Homed, Before, Find, PathOf;
    var r := Below(t, p, tok, topic[1..]);
    assert Step(p, tok) in t && r == Find(t, Step(p, tok), topic[1..]);
    assert r[i] in r && r[j] in r;
    BelowStarts(t, p, tok, topic[1..], r[i], a);
    BelowStarts(t, p, tok, topic[1..], r[j], b);
    FindOrder(t, Step(p, tok), topic[1..], i, j, a[1..], b[1..]);
    Deeper(t, r[i], r[j], a, b);
  }

  /** In any well-formed tree, the list of a search is in pattern order, and equal patterns in the order of a table. */
  lemma TreeOrder(t: Trie, topic: string, i: nat, j: nat)
    requires Wf(t) && i < j < |Find(t, Root, Levels(topic))|
    ensures var subs := Find(t, Root, Levels(topic));
            var a, b := Levels(subs[i].Topic()), Levels(subs[j].Topic());
            Before(a, b) || (a == b && ComesFirst(At(t, Home(subs[i])), subs[i], subs[j]))
  {
    hide Find, Before, ComesFirst, Levels;
    var subs := Find(t, Root, Levels(topic));
    FindOrder(t, Root, Levels(topic), i, j, Levels(subs[i].Topic()), Levels(subs[j].Topic()));
  }

  // ---- runs

  /** Those of a list of subscribers who have one pattern. */
  function WithPattern(subs: seq<Subscriber>, p: Path): seq<Subscriber> {
    if subs == [] then [] else (if Home(subs[0]) == p then [subs[0]] else []) + WithPattern(subs[1..], p)
  }

  lemma {:induction false} WithPatternSnoc(subs: seq<Subscriber>, s: Subscriber, p: Path)
    ensures WithPattern(subs + [s], p) == WithPattern(subs, p) + if Home(s) == p then [s] else []
  {
    hide Home;
    if subs == [] {
      assert subs + [s] == [s] && [s][1..] == [];
    } else {
      assert (subs + [s])[1..] == subs[1..] + [s] && (subs + [s])[0] == subs[0];
      WithPatternSnoc(subs[1..], s, p);
    }
  }

  lemma WithPatternStep(subs: seq<Subscriber>, p: Path)
    requires subs != []
    ensures var w := WithPattern(subs[1..], p);
            WithPattern(subs, p) == if Home(subs[0]) == p then [subs[0]] + w else w
  {
    hide Home;
  }

  lemma WithoutStep(x: Subscriber, rest: seq<Subscriber>, s: Subscriber)
    ensures Without([x] + rest, s) == if x == s then rest else [x] + Without(rest, s)
  {
    assert ([x] + rest)[1..] == rest;
  }

  lemma {:induction false} WithPatternHas(subs: seq<Subscriber>, p: Path, x: Subscriber)
    ensures x in WithPattern(subs, p) <==> x in subs && Home(x) == p
  {
    hide Home;
    if subs != [] { WithPatternHas(subs[1..], p, x); }
  }

  lemma {:induction false} WithPatternWithout(subs: seq<Subscriber>, s: Subscriber, p: Path)
    ensures WithPattern(Without(subs, s), p) ==
            if Home(s) == p then Without(WithPattern(subs, p), s) else WithPattern(subs, p)
  {
    hide Home, WithPattern;
    if subs != [] {
      var x, rest := subs[0], subs[1..];
      WithPatternWithout(rest, s, p);
      assert subs == [x] + rest;
      WithoutStep(x, rest, s);
      WithPatternStep(subs, p);
      WithoutStep(x, WithPattern(rest, p), s);
      if x != s {
        assert ([x] + Without(rest, s))[1..] == Without(rest, s);
        WithPatternStep([x] + Without(rest, s), p);
      }
    } else {
      WithPatternNil(p);
    }
  }

  lemma WithPatternNil(p: Path)
    ensures WithPattern([], p) == []
  {
  }

  /** In the tree of a run, the table of every node is what the flat list has with that pattern, in its order. */
  lemma {:induction false} SeatsAreFlat(ops: seq<Op>, p: Path)
    ensures At(Run(ops), p) == WithPattern(Flat(ops), p)
  {
    if ops == [] {
      WithPatternNil(p);
    } else {
      var before, s := ops[..|ops| - 1], ops[|ops| - 1].s;
      var t, flat := Run(before), Flat(before);
      SeatsAreFlat(before, p);
      RunIsFlat(before);
      hide Home, Insert, Remove, WithPattern, Wf, Accepted, Members;
      assert s in Members(t) <==> s in flat;
      if ops[|ops| - 1].Add? {
        if Accepted(s.Topic()) && s !in flat {
          InsertAt(t, s);
          WithPatternSnoc(flat, s, p);
        }
      } else {
        WithPatternWithout(flat, s, p);
        if s in Members(t) {
          RemoveWf(t, s);
        } else {
          WithoutNone(flat, s);
        }
      }
    }
  }

  lemma {:induction false} WithoutNone(subs: seq<Subscriber>, s: Subscriber)
    requires s !in subs
    ensures Without(subs, s) == subs
  {
    if subs != [] { WithoutNone(subs[1..], s); }
  }

  lemma {:induction false} PatternOrder(subs: seq<Subscriber>, p: Path, i: nat, j: nat)
    requires i < j < |WithPattern(subs, p)|
    ensures ComesFirst(subs, WithPattern(subs, p)[i], WithPattern(subs, p)[j])
  {
    hide Home, WithPattern, ComesFirst;
    WithPatternNil(p);
    assert subs != [];
    var w := WithPattern(subs[1..], p);
    WithPatternStep(subs, p);
    if Home(subs[0]) != p {
      PatternOrder(subs[1..], p, i, j);
      LaterToo(subs, w[i], w[j]);
    } else if i == 0 {
      WithPatternHas(subs[1..], p, w[j - 1]);
      HeadFirst(subs, w[j - 1]);
    } else {
      PatternOrder(subs[1..], p, i - 1, j - 1);
      LaterToo(subs, w[i - 1], w[j - 1]);
    }
  }

  lemma HeadFirst(subs: seq<Subscriber>, y: Subscriber)
    requires subs != [] && y in subs[1..]
    ensures ComesFirst(subs, subs[0], y)
  {
    var k :| 0 <= k < |subs[1..]| && subs[1..][k] == y;
    assert subs[k + 1] == y;
  }

  lemma LaterToo(subs: seq<Subscriber>, x: Subscriber, y: Subscriber)
    requires subs != [] && ComesFirst(subs[1..], x, y)
    ensures ComesFirst(subs, x, y)
  {
    var i, j :| 0 <= i < j < |subs[1..]| && subs[1..][i] == x && subs[1..][j] == y;
    assert subs[i + 1] == x && subs[j + 1] == y;
  }

  /**
   * Main theorem about the order: after any run of additions and deletions, of two subscribers that a search finds the
   * first one's pattern ranks before the other's, or they have one pattern and the first was added earlier.
   */
  lemma SearchOrder(ops: seq<Op>, topic: string, i: nat, j: nat)
    requires i < j < |Find(Run(ops), Root, Levels(topic))|
    ensures var subs := Find(Run(ops), Root, Levels(topic));
            var a, b := Levels(subs[i].Topic()), Levels(subs[j].Topic());
            Before(a, b) || (a == b && ComesFirst(Flat(ops), subs[i], subs[j]))
  {
    hide Find, Before, ComesFirst, WithPattern, Levels;
    var t := Run(ops);
    var subs := Find(t, Root, Levels(topic));
    var x, y := subs[i], subs[j];
    var a, b := Levels(x.Topic()), Levels(y.Topic());
    RunIsFlat(ops);
    FindOrder(t, Root, Levels(topic), i, j, a, b);
    if !Before(a, b) {
      SeatsAreFlat(ops, Home(x));
      FirstOf(At(t, Home(x)), Flat(ops), Home(x), x, y);
    }
  }

  lemma FirstOf(seats: seq<Subscriber>, flat: seq<Subscriber>, p: Path, x: Subscriber, y: Subscriber)
    requires seats == WithPattern(flat, p) && ComesFirst(seats, x, y)
    ensures ComesFirst(flat, x, y)
  {
    var i, j :| 0 <= i < j < |seats| && seats[i] == x && seats[j] == y;
    PatternOrder(flat, p, i, j);
  }

  /** No two patterns rank before each other, and ranking is transitive, so the order of a result is the only one. */
  lemma {:induction false} BeforeIsStrict(a: seq<string>, b: seq<string>, c: seq<string>)
    ensures !(Before(a, b) && Before(b, a)) && (Before(a, b) && Before(b, c) ==> Before(a, c))
  {
    if a != [] && b != [] && (a[0] == b[0] || (c != [] && c[0] == b[0])) {
      BeforeIsStrict(a[1..], b[1..], if c == [] then [] else c[1..]);
    }
  }
}
