/** The topic tree as a value: a map from paths to the subscribers that sit there, in order. */
module Tries {
  import opened Basics
  import opened Topics
  import opened Entities

  /** A path from the root; the last level is outermost. */
  datatype Path = Root | Step(up: Path, tok: string)

  type Trie = map<Path, seq<Subscriber>>

  const EMPTY: Trie := map[Root := []]

  predicate IsLiteral(tok: string) { tok != "*" && tok != "+" }

  function PathOf(p: Path, ts: seq<string>): Path
    decreases |ts|
  {
    if ts == [] then p else PathOf(Step(p, ts[0]), ts[1..])
  }

  function Home(s: Subscriber): Path { PathOf(Root, Levels(s.Topic())) }

  /** p is q, or above q. */
  predicate Above(p: Path, q: Path) {
    p == q || (q.Step? && Above(p, q.up))
  }

  // ---- matching, independently of any tree

  /** Literal levels are equal, `+` stands for one level, a final `*` for one or more. */
  predicate Match(pattern: seq<string>, topic: seq<string>) {
    if pattern == [] then topic == []
    else if pattern == ["*"] then topic != []
    else topic != [] && (pattern[0] == "+" || pattern[0] == topic[0]) && Match(pattern[1..], topic[1..])
  }

  predicate NoStarBeforeLast(pattern: seq<string>) {
    forall k :: 0 <= k < |pattern| - 1 ==> pattern[k] != "*"
  }

  // ---- operations

  ghost predicate HasChild(t: Trie, p: Path) { exists tok :: Step(p, tok) in t }

  function At(t: Trie, p: Path): seq<Subscriber> { if p in t then t[p] else [] }

  function Grow(t: Trie, p: Path): Trie {
    if p in t || p.Root? then t else Grow(t, p.up)[p := []]
  }

  function Insert(t: Trie, s: Subscriber): Trie {
    var p := Home(s);
    Grow(t, p)[p := At(t, p) + [s]]
  }

  ghost function Prune(t: Trie, p: Path): Trie {
    if p.Root? || At(t, p) != [] || HasChild(t, p) then t else Prune(t - {p}, p.up)
  }

  ghost function Remove(t: Trie, s: Subscriber): Trie {
    var p := Home(s);
    Prune(t[p := Without(At(t, p), s)], p)
  }

  /** The order of the search: `*` here, then below `+`, then below the literal. */
  function Find(t: Trie, p: Path, topic: seq<string>): seq<Subscriber>
    decreases |topic|
  {
    if topic == [] then At(t, p)
    else
      At(t, Step(p, "*"))
      + (if Step(p, "+") in t then Find(t, Step(p, "+"), topic[1..]) else [])
      + (if IsLiteral(topic[0]) && Step(p, topic[0]) in t then Find(t, Step(p, topic[0]), topic[1..]) else [])
  }

  // ---- well-formed tries

  function Members(t: Trie): set<Subscriber> { set p, s | p in t && s in t[p] :: s }

  /** Every node has its parent, and nothing sits below a `*`. */
  ghost predicate Shaped(t: Trie) {
    && Root in t
    && forall p, tok :: Step(p, tok) in t ==> p in t && (p.Step? ==> p.tok != "*")
  }

  ghost predicate Sits(subs: seq<Subscriber>, p: Path) {
    NoDup(subs) && forall s :: s in subs ==> Home(s) == p && Accepted(s.Topic())
  }

  /** Every subscriber sits once, at the node its topic spells. */
  ghost predicate Homed(t: Trie) {
    forall p :: p in t ==> Sits(t[p], p)
  }

  /** Every node but the root has a subscriber or a child. */
  ghost predicate Lively(t: Trie) {
    forall p {:trigger HasChild(t, p)} :: p in t && p.Step? ==> t[p] != [] || HasChild(t, p)
  }

  ghost predicate Wf(t: Trie) { Shaped(t) && Homed(t) && Lively(t) }

  // ---- paths

  function Depth(p: Path): nat { if p.Root? then 0 else Depth(p.up) + 1 }

  lemma {:induction false} AboveDepth(p: Path, q: Path)
    requires Above(p, q)
    ensures Depth(p) <= Depth(q) && (Depth(p) == Depth(q) ==> p == q)
  {
    if p != q { AboveDepth(p, q.up); }
  }

  /** Two nodes of one depth above the same node are the same node. */
  lemma {:induction false} AboveUnique(p: Path, p': Path, q: Path)
    requires Above(p, q) && Above(p', q) && Depth(p) == Depth(p')
    ensures p == p'
  {
    AboveDepth(p, q);
    AboveDepth(p', q);
    if p != q && p' != q { AboveUnique(p, p', q.up); }
  }

  lemma {:induction false} AboveTrans(p: Path, q: Path, r: Path)
    requires Above(p, q) && Above(q, r)
    ensures Above(p, r)
  {
    if q != r { AboveTrans(p, q, r.up); }
  }

  lemma {:induction false} RootAbove(p: Path)
    ensures Above(Root, p)
  {
    if p.Step? { RootAbove(p.up); }
  }

  lemma {:induction false} AncestorsIn(t: Trie, p: Path, q: Path)
    requires Shaped(t) && q in t && Above(p, q)
    ensures p in t
  {
    if p != q { AncestorsIn(t, p, q.up); }
  }

  lemma {:induction false} PathOfBelow(p: Path, ts: seq<string>)
    ensures Above(p, PathOf(p, ts)) && Depth(PathOf(p, ts)) == Depth(p) + |ts|
    decreases |ts|
  {
    if ts != [] {
      PathOfBelow(Step(p, ts[0]), ts[1..]);
      AboveTrans(p, Step(p, ts[0]), PathOf(p, ts));
    }
  }

  // ---- the search finds what a scan with Match finds

  /** q is one of the nodes a search for `topic` from p collects. */
  predicate Hit(p: Path, q: Path, topic: seq<string>)
    decreases |topic|
  {
    if topic == [] then q == p
    else
      || q == Step(p, "*")
      || Hit(Step(p, "+"), q, topic[1..])
      || (IsLiteral(topic[0]) && Hit(Step(p, topic[0]), q, topic[1..]))
  }

  lemma {:induction false} HitBelow(p: Path, q: Path, topic: seq<string>)
    requires Hit(p, q, topic)
    ensures Above(p, q)
    decreases |topic|
  {
    if topic != [] && q != Step(p, "*") {
      var tok := if Hit(Step(p, "+"), q, topic[1..]) then "+" else topic[0];
      HitBelow(Step(p, tok), q, topic[1..]);
      AboveTrans(p, Step(p, tok), q);
    }
  }

  lemma HitStep(p: Path, tok: string, q: Path, topic: seq<string>, tok': string)
    requires Hit(Step(p, tok), q, topic) && Above(Step(p, tok'), q)
    ensures tok == tok'
  {
    HitBelow(Step(p, tok), q, topic);
    AboveUnique(Step(p, tok), Step(p, tok'), q);
  }

  /** Below p, the nodes collected are those whose remaining levels match. */
  lemma {:induction false} HitIsMatch(p: Path, pattern: seq<string>, topic: seq<string>)
    requires NoStarBeforeLast(pattern)
    ensures Hit(p, PathOf(p, pattern), topic) <==> Match(pattern, topic)
    decreases |topic|
  {
    var q := PathOf(p, pattern);
    PathOfBelow(p, pattern);
    if topic == [] || pattern == [] {
      if topic != [] && Hit(p, q, topic) {
        assert !Above(Step(p, "*"), p) && !Above(Step(p, "+"), p) && !Above(Step(p, topic[0]), p) by {
          forall tok | Above(Step(p, tok), p) ensures false { AboveDepth(Step(p, tok), p); }
        }
        if q != Step(p, "*") {
          var tok := if Hit(Step(p, "+"), q, topic[1..]) then "+" else topic[0];
          HitBelow(Step(p, tok), q, topic[1..]);
        }
        assert false;
      }
    } else {
      var a := pattern[0];
      PathOfBelow(Step(p, a), pattern[1..]);
      forall tok | Hit(Step(p, tok), q, topic[1..]) ensures tok == a { HitStep(p, tok, q, topic[1..], a); }
      HitIsMatch(Step(p, a), pattern[1..], topic[1..]);
      if |pattern| == 1 {
        assert pattern[1..] == [];
        assert pattern == [a];
      } else {
        PathOfBelow(p, pattern);
      }
    }
  }

  lemma {:induction false} CountNoDup(subs: seq<Subscriber>, s: Subscriber)
    requires NoDup(subs)
    ensures multiset(subs)[s] == if s in subs then 1 else 0
  {
    if subs != [] {
      CountNoDup(subs[1..], s);
      assert subs == [subs[0]] + subs[1..];
    }
  }

  lemma CountAt(t: Trie, p: Path, s: Subscriber)
    requires Homed(t)
    ensures multiset(At(t, p))[s] == if s in Members(t) && Home(s) == p then 1 else 0
  {
    if p in t { CountNoDup(t[p], s); }
  }

  /** At most one of the three places a search looks at leads to q. */
  lemma OneWay(p: Path, q: Path, topic: seq<string>)
    requires topic != []
    ensures q == Step(p, "*") ==> !Hit(Step(p, "+"), q, topic[1..])
    ensures IsLiteral(topic[0]) && Hit(Step(p, topic[0]), q, topic[1..]) ==>
              q != Step(p, "*") && !Hit(Step(p, "+"), q, topic[1..])
  {
    forall tok, tok' | Hit(Step(p, tok), q, topic[1..]) && Above(Step(p, tok'), q) ensures tok == tok' {
      HitStep(p, tok, q, topic[1..], tok');
    }
    forall tok | Hit(Step(p, tok), q, topic[1..]) ensures Above(Step(p, tok), q) {
      HitBelow(Step(p, tok), q, topic[1..]);
    }
  }

  lemma {:induction false} FindCount(t: Trie, p: Path, topic: seq<string>, s: Subscriber)
    requires Shaped(t) && Homed(t) && p in t
    ensures multiset(Find(t, p, topic))[s] == if s in Members(t) && Hit(p, Home(s), topic) then 1 else 0
    decreases |topic|, 0
  {
    if topic == [] {
      CountAt(t, p, s);
    } else {
      var rest, lit := topic[1..], IsLiteral(topic[0]);
      var a := At(t, Step(p, "*"));
      var b := if Step(p, "+") in t then Find(t, Step(p, "+"), rest) else [];
      var c := if Step(p, topic[0]) in t then Find(t, Step(p, topic[0]), rest) else [];
      assert Find(t, p, topic) == a + b + (if lit then c else []);
      assert Hit(p, Home(s), topic) <==> Home(s) == Step(p, "*") || Hit(Step(p, "+"), Home(s), rest)
                                         || (lit && Hit(Step(p, topic[0]), Home(s), rest));
      hide Find, Hit, Home, At;
      CountAt(t, Step(p, "*"), s);
      FindBranch(t, p, "+", rest, s);
      FindBranch(t, p, topic[0], rest, s);
      OneWay(p, Home(s), topic);
    }
  }

  lemma FindBranch(t: Trie, p: Path, tok: string, rest: seq<string>, s: Subscriber)
    requires Shaped(t) && Homed(t) && p in t
    ensures multiset(if Step(p, tok) in t then Find(t, Step(p, tok), rest) else [])[s]
         == if s in Members(t) && Hit(Step(p, tok), Home(s), rest) then 1 else 0
    decreases |rest|, 1
  {
    if Step(p, tok) in t {
      FindCount(t, Step(p, tok), rest, s);
    } else if s in Members(t) && Hit(Step(p, tok), Home(s), rest) {
      HitBelow(Step(p, tok), Home(s), rest);
      AncestorsIn(t, Step(p, tok), Home(s));
      assert false;
    }
  }

  /** Whether a scan of the flat list of subscribers selects s. */
  predicate Selects(s: Subscriber, topic: string) {
    Match(Levels(s.Topic()), Levels(topic))
  }

  /** Main theorem about the search: every matching subscriber once, and nobody else. */
  lemma SearchIsScan(t: Trie, topic: string, s: Subscriber)
    requires Wf(t)
    ensures multiset(Find(t, Root, Levels(topic)))[s] == if s in Members(t) && Selects(s, topic) then 1 else 0
  {
    FindCount(t, Root, Levels(topic), s);
    if s in Members(t) {
      AcceptedLevels(s.Topic());
      HitIsMatch(Root, Levels(s.Topic()), Levels(topic));
    }
  }

  lemma AcceptedLevels(t: string)
    requires Accepted(t)
    ensures NoStarBeforeLast(Levels(t))
  {
    assert Strip("*") == "*";
  }

  // ---- the nodes of a well-formed trie are exactly those above a subscriber

  ghost function MaxDepth(t: set<Path>): (n: nat)
    ensures forall p :: p in t ==> Depth(p) <= n
    decreases |t|
  {
    if t == {} then 0 else
      var p :| p in t;
      var n := MaxDepth(t - {p});
      assert forall q :: q in t ==> q == p || q in t - {p};
      if Depth(p) > n then Depth(p) else n
  }

  lemma {:induction false} LifeBelow(t: Trie, p: Path, n: nat)
    requires Wf(t) && p in t && p.Step?
    requires forall q :: q in t ==> Depth(q) <= n
    ensures exists s :: s in Members(t) && Above(p, Home(s))
    decreases n - Depth(p)
  {
    if t[p] != [] {
      assert t[p][0] in t[p] && t[p][0] in Members(t) && Above(p, Home(t[p][0]));
    } else {
      assert HasChild(t, p);
      var tok :| Step(p, tok) in t;
      LifeBelow(t, Step(p, tok), n);
      var s :| s in Members(t) && Above(Step(p, tok), Home(s));
      AboveTrans(p, Step(p, tok), Home(s));
    }
  }

  lemma Canonical(t: Trie, p: Path)
    requires Wf(t)
    ensures p in t <==> p.Root? || exists s :: s in Members(t) && Above(p, Home(s))
  {
    if p in t && p.Step? {
      LifeBelow(t, p, MaxDepth(t.Keys));
    }
    forall s | s in Members(t) && Above(p, Home(s)) ensures p in t {
      AncestorsIn(t, p, Home(s));
    }
  }

  /** Two well-formed trees that hold the same subscribers at the same places are the same tree. */
  lemma SameMembersSameTrie(t: Trie, u: Trie)
    requires Wf(t) && Wf(u)
    requires forall p :: At(t, p) == At(u, p)
    ensures t == u
  {
    forall p ensures p in t <==> p in u {
      Canonical(t, p);
      Canonical(u, p);
      assert Members(t) == Members(u) by {
        forall s ensures s in Members(t) <==> s in Members(u) {
          if s in Members(t) { var q :| q in t && s in t[q]; assert s in At(u, q); }
          if s in Members(u) { var q :| q in u && s in u[q]; assert s in At(t, q); }
        }
      }
    }
    forall p | p in t ensures t[p] == u[p] { assert At(t, p) == At(u, p); }
  }

  // ---- subscribing

  lemma {:induction false} GrowKeys(t: Trie, p: Path)
    requires Shaped(t)
    requires forall q :: Above(q, p) && q != p && q.Step? ==> q.tok != "*"
    ensures Shaped(Grow(t, p))
    ensures forall q :: q in Grow(t, p) <==> q in t || Above(q, p)
    ensures forall q :: At(Grow(t, p), q) == At(t, q)
    ensures forall q {:trigger Above(q, p)} :: q !in t && Above(q, p) && q != p ==> HasChild(Grow(t, p), q)
  {
    if p in t {
      forall q | Above(q, p) ensures q in t { AncestorsIn(t, q, p); }
    } else {
      assert p.Step?;
      forall q | Above(q, p.up) ensures Above(q, p) && q != p {
        if q == p { AboveDepth(p, p.up); }
      }
      GrowKeys(t, p.up);
      var g := Grow(t, p.up);
      assert Above(p.up, p.up);
      assert Grow(t, p) == g[p := []];
      forall q | q !in t && Above(q, p) && q != p ensures HasChild(g[p := []], q) {
        if q == p.up {
          assert Step(q, p.tok) in g[p := []];
        } else {
          var tok :| Step(q, tok) in g;
          assert Step(q, tok) in g[p := []];
        }
      }
    }
  }

  lemma {:induction false} GrowIn(t: Trie, p: Path)
    requires Root in t
    ensures p in Grow(t, p) && forall q :: q in Grow(t, p) ==> q in t || Above(q, p)
  {
    if p !in t { GrowIn(t, p.up); }
  }

  lemma {:induction false} NoStarAbove(ls: seq<string>, p: Path)
    requires NoStarBeforeLast(ls)
    requires forall q :: Above(q, p) && q.Step? ==> q.tok != "*"
    ensures forall q :: Above(q, PathOf(p, ls)) && q != PathOf(p, ls) && q.Step? ==> q.tok != "*"
    decreases |ls|
  {
    if |ls| == 1 {
      assert PathOf(Step(p, ls[0]), ls[1..]) == Step(p, ls[0]);
    } else if ls != [] {
      NoStarAbove(ls[1..], Step(p, ls[0]));
    }
  }

  lemma HomeNoStar(s: Subscriber)
    requires Accepted(s.Topic())
    ensures forall q :: Above(q, Home(s)) && q != Home(s) && q.Step? ==> q.tok != "*"
    ensures Home(s).Step?
  {
    AcceptedLevels(s.Topic());
    NoStarAbove(Levels(s.Topic()), Root);
    PathOfBelow(Root, Levels(s.Topic()));
  }

  lemma InsertAt(t: Trie, s: Subscriber)
    requires Shaped(t) && Accepted(s.Topic())
    ensures forall q :: At(Insert(t, s), q) == if q == Home(s) then At(t, q) + [s] else At(t, q)
  {
    HomeNoStar(s);
    GrowKeys(t, Home(s));
  }

  lemma GrowKeepsAt(t: Trie, s: Subscriber)
    requires Shaped(t) && Accepted(s.Topic())
    ensures At(Grow(t, Home(s)), Home(s)) == At(t, Home(s)) && Home(s) in Grow(t, Home(s))
    ensures s in At(t, Home(s)) ==> Grow(t, Home(s)) == t
  {
    HomeNoStar(s);
    GrowKeys(t, Home(s));
    assert Above(Home(s), Home(s));
  }

  /** A subscriber in the tree is found at the node its topic spells. */
  lemma AtHome(t: Trie, s: Subscriber)
    requires Homed(t)
    ensures s in Members(t) <==> s in At(t, Home(s))
  {
    if s in Members(t) {
      var q :| q in t && s in t[q];
      assert Sits(t[q], q);
    }
  }

  lemma InsertLively(t: Trie, s: Subscriber)
    requires Shaped(t) && Lively(t) && Accepted(s.Topic())
    ensures Lively(Insert(t, s)) && Shaped(Insert(t, s))
  {
    var p := Home(s);
    HomeNoStar(s);
    GrowKeys(t, p);
    var g, u := Grow(t, p), Insert(t, s);
    assert Above(p, p);
    assert u == g[p := At(t, p) + [s]] && p in g;
    forall q | q in u && q.Step? ensures u[q] != [] || HasChild(u, q) {
      assert At(g, q) == At(t, q);
      if q != p && u[q] == [] {
        if q in t {
          assert HasChild(t, q);
          var tok :| Step(q, tok) in t;
          assert Step(q, tok) in g;
        }
        var tok :| Step(q, tok) in g;
        assert Step(q, tok) in u;
      }
    }
  }

  lemma InsertWf(t: Trie, s: Subscriber)
    requires Wf(t) && Accepted(s.Topic()) && s !in Members(t)
    ensures Wf(Insert(t, s))
  {
    InsertLively(t, s);
    InsertAt(t, s);
    var u := Insert(t, s);
    assert s !in At(t, Home(s));
    assert Sits([], Home(s));
    forall q | q in u ensures Sits(u[q], q) {
      assert u[q] == At(u, q);
      if q == Home(s) { SitsAppend(At(t, q), q, s); } else { assert Sits([], q); }
    }
  }

  lemma InsertMembers(t: Trie, s: Subscriber)
    requires Wf(t) && Accepted(s.Topic()) && s !in Members(t)
    ensures Wf(Insert(t, s)) && Members(Insert(t, s)) == Members(t) + {s}
  {
    InsertWf(t, s);
    InsertAt(t, s);
    var u := Insert(t, s);
    forall x: Subscriber ensures x in Members(u) <==> x in Members(t) || x == s {
      AtHome(t, x);
      AtHome(u, x);
      assert At(u, Home(x)) == if Home(x) == Home(s) then At(t, Home(x)) + [s] else At(t, Home(x));
    }
    assert Members(u) == Members(t) + {s};
  }

  lemma SitsAppend(subs: seq<Subscriber>, p: Path, s: Subscriber)
    requires Sits(subs, p) && Home(s) == p && Accepted(s.Topic()) && s !in subs
    ensures Sits(subs + [s], p)
  {
  }

  // ---- unsubscribing

  lemma {:induction false} WithoutMember(subs: seq<Subscriber>, s: Subscriber)
    requires NoDup(subs)
    ensures forall x :: x in Without(subs, s) <==> x in subs && x != s
    ensures NoDup(Without(subs, s))
  {
    if subs != [] {
      WithoutMember(subs[1..], s);
      assert forall x :: x in subs <==> x == subs[0] || x in subs[1..];
      assert forall x :: x in [subs[0]] + Without(subs[1..], s) <==> x == subs[0] || x in Without(subs[1..], s);
      assert subs[0] !in subs[1..];
    }
  }

  lemma {:induction false} WithoutLast(subs: seq<Subscriber>, s: Subscriber)
    requires s !in subs
    ensures Without(subs + [s], s) == subs
  {
    if subs == [] {
      assert [s][1..] == [];
    } else {
      WithoutLast(subs[1..], s);
      assert (subs + [s])[1..] == subs[1..] + [s];
    }
  }

  /** Alive everywhere, except perhaps at p. */
  ghost predicate LivelyBut(t: Trie, p: Path) {
    forall q {:trigger HasChild(t, q)} :: q in t && q.Step? && q != p ==> t[q] != [] || HasChild(t, q)
  }

  lemma {:induction false} PruneWf(t: Trie, p: Path)
    requires Shaped(t) && Homed(t) && LivelyBut(t, p) && p in t
    ensures Wf(Prune(t, p))
    ensures forall q :: At(Prune(t, p), q) == At(t, q)
    ensures forall q :: q in Prune(t, p) ==> q in t
  {
    if p.Step? && At(t, p) == [] && !HasChild(t, p) {
      var u := t - {p};
      assert p.up != p;
      forall q | q in u && q.Step? ensures q.up in u && (q.up.Step? ==> q.up.tok != "*") {
        assert q == Step(q.up, q.tok);
      }
      forall q | q in u && q.Step? && q != p.up ensures u[q] != [] || HasChild(u, q) {
        if t[q] == [] {
          assert HasChild(t, q);
          var tok :| Step(q, tok) in t;
          assert Step(q, tok) != p;
          assert Step(q, tok) in u;
        }
      }
      PruneWf(u, p.up);
    }
  }

  lemma RemoveWf(t: Trie, s: Subscriber)
    requires Wf(t) && s in Members(t)
    ensures Wf(Remove(t, s))
    ensures forall q :: At(Remove(t, s), q) == if q == Home(s) then Without(At(t, q), s) else At(t, q)
  {
    var p := Home(s);
    var u := t[p := Without(At(t, p), s)];
    AtHome(t, s);
    forall q | q in u ensures Sits(u[q], q) {
      assert Sits(t[q], q);
      SitsWithout(t[q], q, s);
    }
    forall q | q in u && q.Step? && q != p ensures u[q] != [] || HasChild(u, q) {
      if t[q] == [] {
        assert HasChild(t, q);
        var tok :| Step(q, tok) in t;
        assert Step(q, tok) in u;
      }
    }
    PruneWf(u, p);
  }

  lemma SitsWithout(subs: seq<Subscriber>, p: Path, s: Subscriber)
    requires Sits(subs, p)
    ensures Sits(Without(subs, s), p)
    ensures forall x :: x in Without(subs, s) <==> x in subs && x != s
  {
    WithoutMember(subs, s);
  }

  lemma RemoveMembers(t: Trie, s: Subscriber)
    requires Wf(t) && s in Members(t)
    ensures Wf(Remove(t, s)) && Members(Remove(t, s)) == Members(t) - {s}
  {
    RemoveWf(t, s);
    var v := Remove(t, s);
    AtHome(t, s);
    SitsWithout(t[Home(s)], Home(s), s);
    forall x: Subscriber ensures x in Members(v) <==> x in Members(t) && x != s {
      AtHome(t, x);
      AtHome(v, x);
      assert At(v, Home(x)) == if Home(x) == Home(s) then Without(At(t, Home(x)), s) else At(t, Home(x));
    }
    assert Members(v) == Members(t) - {s};
  }

  /** No node is freed that a surviving subscriber sits on or below; every other node but the root is. */
  lemma RemoveFreesDeadNodesOnly(t: Trie, s: Subscriber, p: Path)
    requires Wf(t) && s in Members(t) && p in t
    ensures p !in Remove(t, s) <==> p.Step? && forall x :: x in Members(t) && Above(p, Home(x)) ==> x == s
  {
    RemoveMembers(t, s);
    Canonical(Remove(t, s), p);
    assert forall x :: x in Members(Remove(t, s)) <==> x in Members(t) && x != s;
  }

  /** Subscribing and then unsubscribing gives the same tree back. */
  lemma InsertRemove(t: Trie, s: Subscriber)
    requires Wf(t) && Accepted(s.Topic()) && s !in Members(t)
    ensures Remove(Insert(t, s), s) == t
  {
    InsertMembers(t, s);
    InsertAt(t, s);
    RemoveWf(Insert(t, s), s);
    AtHome(t, s);
    WithoutLast(At(t, Home(s)), s);
    SameMembersSameTrie(Remove(Insert(t, s), s), t);
  }

  // ---- runs

  datatype Op = Add(s: Subscriber) | Del(s: Subscriber)

  ghost function Apply(t: Trie, op: Op): Trie {
    match op
    case Add(s) => if Accepted(s.Topic()) && s !in Members(t) then Insert(t, s) else t
    case Del(s) => if s in Members(t) then Remove(t, s) else t
  }

  ghost function Run(ops: seq<Op>): Trie {
    if ops == [] then EMPTY else Apply(Run(ops[..|ops| - 1]), ops[|ops| - 1])
  }

  /** The same run on a flat list of subscribers. */
  function Flat(ops: seq<Op>): seq<Subscriber> {
    if ops == [] then []
    else
      var flat := Flat(ops[..|ops| - 1]);
      match ops[|ops| - 1]
      case Add(s) => if Accepted(s.Topic()) && s !in flat then flat + [s] else flat
      case Del(s) => Without(flat, s)
  }

  function Scan(flat: seq<Subscriber>, topic: string): seq<Subscriber> {
    if flat == [] then []
    else (if Selects(flat[0], topic) then [flat[0]] else []) + Scan(flat[1..], topic)
  }

  lemma {:induction false} ScanCount(flat: seq<Subscriber>, topic: string, s: Subscriber)
    requires NoDup(flat)
    ensures multiset(Scan(flat, topic))[s] == if s in flat && Selects(s, topic) then 1 else 0
  {
    if flat != [] {
      ScanCount(flat[1..], topic, s);
      assert flat == [flat[0]] + flat[1..];
    }
  }

  lemma {:induction false} RunIsFlat(ops: seq<Op>)
    ensures Wf(Run(ops)) && NoDup(Flat(ops))
    ensures forall s :: s in Members(Run(ops)) <==> s in Flat(ops)
  {
    if ops == [] {
      assert Sits([], Root);
    } else {
      var before := ops[..|ops| - 1];
      RunIsFlat(before);
      var t, flat := Run(before), Flat(before);
      var s := ops[|ops| - 1].s;
      if ops[|ops| - 1].Add? {
        if Accepted(s.Topic()) && s !in Members(t) { InsertMembers(t, s); }
      } else {
        WithoutMember(flat, s);
        if s in Members(t) { RemoveMembers(t, s); }
      }
    }
  }

  lemma {:induction false} SearchAgreesWithScan(t: Trie, flat: seq<Subscriber>, topic: string)
    requires Wf(t) && NoDup(flat) && forall s :: s in Members(t) <==> s in flat
    ensures multiset(Find(t, Root, Levels(topic))) == multiset(Scan(flat, topic))
  {
    forall s: Subscriber
      ensures multiset(Find(t, Root, Levels(topic)))[s] == multiset(Scan(flat, topic))[s]
    {
      SearchIsScan(t, topic, s);
      ScanCount(flat, topic, s);
    }
    SameCounts(multiset(Find(t, Root, Levels(topic))), multiset(Scan(flat, topic)));
  }

  lemma SameCounts(a: multiset<Subscriber>, b: multiset<Subscriber>)
    requires forall s: Subscriber :: a[s] == b[s]
    ensures a == b
  {
  }

  /** For every run of adds and deletes and every topic, the search and a scan of the flat list agree. */
  lemma {:induction false} RunSearch(ops: seq<Op>, topic: string)
    ensures multiset(Find(Run(ops), Root, Levels(topic))) == multiset(Scan(Flat(ops), topic))
  {
    RunIsFlat(ops);
    SearchAgreesWithScan(Run(ops), Flat(ops), topic);
  }
}
