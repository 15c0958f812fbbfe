/** The topic tree on the heap. The ghost map `at` lists its nodes by path; `View()` is the tree as a value. */
module TopicTree {
  import opened Basics
  import opened Topics
  import opened Entities
  import opened Tries

  ghost predicate UniqueIds(subs: set<Subscriber>) {
    forall a, b :: a in subs && b in subs && a.id == b.id ==> a == b
  }

  /** The links of a node. */
  datatype Links = Links(parent: Node?, ml: Node?, sl: Node?, nodes: map<string, Node>)
  {
    /** The links after the place for `tok` is given to a node, or emptied. */
    function With(tok: string, node: Node?): Links {
      if tok == "*" then this.(ml := node)
      else if tok == "+" then this.(sl := node)
      else if node == null then this.(nodes := nodes - {tok})
      else this.(nodes := nodes[tok := node])
    }
  }

  function LinksOf(n: Node): Links
    reads n`parent, n`ml_node, n`sl_node, n`nodes
  {
    Links(n.parent, n.ml_node, n.sl_node, n.nodes)
  }

  /** The links that the node at p must have, given where all nodes are. */
  ghost predicate Fit(at: map<Path, Node>, p: Path, links: Links) {
    && (p.Root? ==> links.parent == null)
    && (p.Step? ==> p.up in at && links.parent == at[p.up])
    && links.ml == (if Step(p, "*") in at then at[Step(p, "*")] else null)
    && links.sl == (if Step(p, "+") in at then at[Step(p, "+")] else null)
    && (forall tok :: tok in links.nodes <==> IsLiteral(tok) && Step(p, tok) in at)
    && (forall tok :: tok in links.nodes ==> links.nodes[tok] == at[Step(p, tok)])
  }

  lemma FitLeaf(at: map<Path, Node>, q: Path, node: Node)
    requires q.Step? && q.up in at && q !in at
    requires forall tok :: Step(q, tok) !in at
    ensures Fit(at[q := node], q, Links(at[q.up], null, null, map[]))
  {
  }

  lemma FitAbove(at: map<Path, Node>, q: Path, node: Node, links: Links)
    requires q.Step? && q.up in at && q !in at && Fit(at, q.up, links)
    ensures Fit(at[q := node], q.up, links.With(q.tok, node))
  {
  }

  lemma FitBeside(at: map<Path, Node>, q: Path, node: Node, x: Path, links: Links)
    requires q.Step? && x != q.up && x != q && Fit(at, x, links) && q !in at
    ensures Fit(at[q := node], x, links)
  {
  }

  lemma CutAbove(at: map<Path, Node>, p: Path, links: Links)
    requires p.Step? && Fit(at, p.up, links)
    ensures Fit(at - {p}, p.up, links.With(p.tok, null))
  {
  }

  lemma CutBeside(at: map<Path, Node>, p: Path, x: Path, links: Links)
    requires p.Step? && x != p.up && (x.Step? ==> x.up != p) && Fit(at, x, links)
    ensures Fit(at - {p}, x, links)
  {
  }

  class Tree {
    const root: Node
    ghost var at: map<Path, Node>
    ghost var pathOf: map<Node, Path>
    ghost var repr: set<Node>

    /** Distinct paths lead to distinct nodes, and parents and children mirror each other. */
    ghost predicate Linked()
      reads this, repr`parent, repr`ml_node, repr`sl_node, repr`nodes
    {
      && Root in at && at[Root] == root
      && (forall p {:trigger at[p]} :: p in at ==> at[p] in repr && at[p] in pathOf && pathOf[at[p]] == p)
      && (forall p {:trigger Mirrors(p)} :: p in at ==> Mirrors(p))
    }

    ghost predicate Mirrors(p: Path)
      requires p in at && at[p] in repr
      reads this, repr`parent, repr`ml_node, repr`sl_node, repr`nodes
    {
      Fit(at, p, LinksOf(at[p]))
    }

    ghost function View(): Trie
      reads this, repr`subs
    {
      map p | p in at && at[p] in repr :: at[p].subs
    }

    /** A subscriber's node is the node it sits at. */
    ghost predicate Seated()
      reads this, repr`subs, Members(View())
    {
      SeatedIn(Members(View()))
    }

    ghost predicate SeatedIn(subs: set<Subscriber>)
      reads this, subs
    {
      forall s :: s in subs ==> Home(s) in at && s.node == at[Home(s)]
    }

    ghost predicate Valid()
      reads this, repr, Members(View())
    {
      Linked() && Seated() && Wf(View()) && UniqueIds(Members(View()))
    }

    constructor ()
      ensures Valid() && View() == EMPTY && fresh(repr)
    {
      var r := new Node();
      root := r;
      at, pathOf, repr := map[Root := r], map[r := Root], {r};
    }

    /** A new leaf at q, hung under its parent in the place its token names, keeps the tree linked. */
    twostate lemma Hung(q: Path, new node: Node)
      requires old(Linked()) && q.Step? && q.up in old(at) && q !in old(at)
      requires forall tok :: Step(q, tok) !in old(at)
      requires at == old(at)[q := node] && pathOf == old(pathOf)[node := q] && repr == old(repr) + {node} &&
          node !in old(repr)
      requires node.parent == at[q.up] && node.ml_node == null && node.sl_node == null
      requires node.nodes == map[] && node.subs == []
      requires forall x {:trigger at[x]} :: x in old(at) ==> at[x].subs == old(at[x].subs)
      requires forall x {:trigger at[x]} :: x in old(at) && x != q.up ==> LinksOf(at[x]) == old(LinksOf(at[x]))
      requires LinksOf(at[q.up]) == old(LinksOf(at[q.up])).With(q.tok, node)
      ensures Linked() && View() == old(View())[q := []]
    {
      hide Fit;
      forall x | x in at ensures Mirrors(x) {
        if x == q {
          FitLeaf(old(at), q, node);
        } else if x == q.up {
          assert old(Mirrors(x));
          FitAbove(old(at), q, node, old(LinksOf(at[x])));
        } else {
          assert old(Mirrors(x));
          FitBeside(old(at), q, node, x, old(LinksOf(at[x])));
        }
      }
    }

    lemma NoOrphans(q: Path)
      requires Linked() && q !in at
      ensures forall tok :: Step(q, tok) !in at
    {
      forall tok ensures Step(q, tok) !in at { assert Step(q, tok) in at ==> Mirrors(Step(q, tok)); }
    }

    lemma Distinct(p: Path)
      requires Linked() && p in at
      ensures at[p] in repr && forall x :: x in at && x != p ==> at[x] != at[p] && at[x] in repr
    {
      assert forall x :: x in at ==> pathOf[at[x]] == x;
    }

    /** Make the missing child of p for `tok`: the three creation branches of topic__add_subscriber. */
    method NewChild(cur: Node, ghost p: Path, tok: string)
      requires Linked() && p in at && at[p] == cur && Step(p, tok) !in at
      modifies this, cur
      ensures Linked() && View() == old(View())[Step(p, tok) := []]
      ensures Step(p, tok) in at && fresh(at[Step(p, tok)]) && at == old(at)[Step(p, tok) := at[Step(p, tok)]]
      ensures repr == old(repr) + {at[Step(p, tok)]}
    {
      hide Linked, View;
      Distinct(p);
      NoOrphans(Step(p, tok));
      var node := new Node();
      if tok == "*" {
        cur.ml_node := node;
      } else if tok == "+" {
        cur.sl_node := node;
      } else {
        cur.nodes := cur.nodes[tok := node];
      }
      node.parent := cur;
      at, pathOf, repr := at[Step(p, tok) := node], pathOf[node := Step(p, tok)], repr + {node};
      Hung(Step(p, tok), node);
    }

    /** Where the child of a node for `tok` is found. */
    lemma Place(node: Node, p: Path, tok: string)
      requires Linked() && p in at && at[p] == node
      ensures Grow(View(), Step(p, tok)) == if Step(p, tok) in at then View() else View()[Step(p, tok) := []]
      ensures tok == "*" ==> node.ml_node == if Step(p, tok) in at then at[Step(p, tok)] else null
      ensures tok == "+" ==> node.sl_node == if Step(p, tok) in at then at[Step(p, tok)] else null
      ensures IsLiteral(tok) ==> (tok in node.nodes <==> Step(p, tok) in at)
      ensures IsLiteral(tok) && tok in node.nodes ==> node.nodes[tok] == at[Step(p, tok)]
      ensures Step(p, tok) in at ==> at[Step(p, tok)] in repr
    {
      assert Mirrors(p);
    }

    /** The body of the loop in topic__add_subscriber: go to the child for `tok`, made if it is missing. */
    method Child(cur: Node, ghost p: Path, tok: string) returns (child: Node)
      requires Linked() && p in at && at[p] == cur
      modifies this, cur
      ensures Linked() && View() == Grow(old(View()), Step(p, tok))
      ensures Step(p, tok) in at && at[Step(p, tok)] == child
      ensures at == old(at)[Step(p, tok) := child]
      ensures if Step(p, tok) in old(at) then at == old(at) else fresh(child)
      ensures repr == old(repr) + {child}
    {
      hide Linked, View, Grow;
      Place(cur, p, tok);
      if tok == "*" {
        if cur.ml_node == null {
          NewChild(cur, p, tok);
          Place(cur, p, tok);
        }
        child := cur.ml_node;
      } else if tok == "+" {
        if cur.sl_node == null {
          NewChild(cur, p, tok);
          Place(cur, p, tok);
        }
        child := cur.sl_node;
      } else {
        if tok !in cur.nodes {
          NewChild(cur, p, tok);
          Place(cur, p, tok);
        }
        child := cur.nodes[tok];
      }
    }

    /** Replace the table of subscribers of the node at p. */
    method SetSubs(node: Node, ghost p: Path, subs: seq<Subscriber>)
      requires Linked() && p in at && at[p] == node
      modifies node`subs
      ensures Linked() && View() == old(View())[p := subs]
    {
      node.subs := subs;
      forall q | q in at && q != p ensures at[q].subs == old(at[q].subs) { assert pathOf[at[q]] == q; }
    }

    /** What the table of the last node holds when the walk of topic__add_subscriber ends. */
    lemma WalkEnd(node: Node, s: Subscriber, t0: Trie)
      requires Home(s) in at && at[Home(s)] == node && View() == Grow(t0, Home(s)) && Wf(t0) && Accepted(s.Topic())
      ensures node.subs == At(t0, Home(s)) && (s in node.subs <==> s in Members(t0))
      ensures forall x :: x in node.subs ==> x in Members(t0)
      ensures View()[Home(s) := node.subs + [s]] == Insert(t0, s)
      ensures s in Members(t0) ==> View() == t0
      ensures s !in Members(t0) ==> Wf(Insert(t0, s)) && Members(Insert(t0, s)) == Members(t0) + {s}
    {
      AtHome(t0, s);
      GrowKeepsAt(t0, s);
      assert View()[Home(s)] == node.subs;
      if s !in Members(t0) { InsertMembers(t0, s); }
    }

    /** topic__node_add_sub, at the end of the walk that grew the tree from t0 */
    method NodeAddSub(node: Node, s: Subscriber, ghost t0: Trie) returns (st: Status)
      requires Linked() && Home(s) in at && at[Home(s)] == node && View() == Grow(t0, Home(s))
      requires Wf(t0) && Accepted(s.Topic())
      requires forall x :: x in Members(t0) && x.id == s.id ==> x == s
      modifies node`subs, s`node
      ensures Linked() && View() == Apply(t0, Add(s)) && s.node == node
      ensures st == if s in Members(t0) then DuplicateSubscriber else Ok
    {
      hide Home, Wf, Insert, Grow, Linked, View, Members, At;
      WalkEnd(node, s, t0);
      var hsh := FindSub(node.subs, s.id);
      s.node := node;
      if hsh == null || hsh != s {
        SetSubs(node, Home(s), node.subs + [s]);
        st := Ok;
      } else {
        st := DuplicateSubscriber;
      }
    }

    /** The walk of topic__add_subscriber, down to the node the topic spells. */
    method Walk(ghost s: Subscriber, n: int, first_tok: string) returns (cur_node: Node)
      requires Linked() && Wf(View()) && Accepted(s.Topic())
      requires n == |Levels(s.Topic())| && Walks(first_tok, 0, Levels(s.Topic()))
      modifies this, repr
      ensures Linked() && fresh(repr - old(repr)) && old(repr) <= repr && View() == Grow(old(View()), Home(s))
      ensures Home(s) in at && at[Home(s)] == cur_node && cur_node in repr
      ensures forall q :: q in old(at) ==> q in at && at[q] == old(at[q])
    {
      hide Home, Wf, Grow, View, Levels, Accepted, Walks, Terminator, CStr, NextToken;
      ghost var rest, t0, p := Levels(s.Topic()), View(), Root;
      var cur_tok, n_tok := 0, n;
      cur_node := root;
      WalkStart(s, t0);
      while n_tok > 0
        invariant n_tok == |rest| && Walks(first_tok, cur_tok, rest) && NoStarBeforeLast(rest)
        invariant PathOf(p, rest) == Home(s)
        invariant Linked() && View() == Grow(t0, p) && p in at && at[p] == cur_node && cur_node in repr
        invariant fresh(repr - old(repr)) && old(repr) <= repr
        invariant forall q :: q in old(at) ==> q in at && at[q] == old(at[q])
      {
        WalksNext(first_tok, cur_tok, rest);
        var tok := CStr(first_tok, cur_tok);
        GrowStep(t0, p, tok);
        cur_node := Child(cur_node, p, tok);
        p, rest := Step(p, tok), rest[1..];
        if tok == "*" {
          n_tok := 1;
        }
        n_tok := n_tok - 1;
        cur_tok := NextToken(first_tok, cur_tok);
      }
    }

    /** The tree is whole again when the subscriber has its seat. */
    twostate lemma Seat(s: Subscriber)
      requires old(Valid()) && Accepted(s.Topic())
      requires forall x :: x in Members(old(View())) && x.id == s.id ==> x == s
      requires forall x :: x in Members(old(View())) && x != s ==> x.node == old(x.node)
      requires forall q :: q in old(at) ==> q in at && at[q] == old(at[q])
      requires Linked() && View() == Apply(old(View()), Add(s)) && Home(s) in at && s.node == at[Home(s)]
      ensures Valid() && s in Members(View())
    {
      hide Linked, Wf;
      var members := Members(old(View()));
      forall x | x in members + {s} ensures Home(x) in at && x.node == at[Home(x)] {
        if x != s { assert old(Home(x) in at && x.node == at[Home(x)]); }
      }
      Added(s, old(View()));
    }

    lemma Added(s: Subscriber, t0: Trie)
      requires Linked() && View() == Apply(t0, Add(s)) && SeatedIn(Members(t0) + {s})
      requires Wf(t0) && UniqueIds(Members(t0)) && Accepted(s.Topic())
      requires forall x :: x in Members(t0) && x.id == s.id ==> x == s
      ensures Valid() && s in Members(View())
    {
      if s !in Members(t0) { InsertMembers(t0, s); }
      hide Linked, Wf, Insert, View;
      assert Members(View()) == Members(t0) + {s};
    }

    /** topic__add_subscriber */
    method AddSubscriber(s: Subscriber) returns (st: Status)
      requires Valid() && NulFree(s.Topic())
      requires s.node == null || s in Members(View())
      requires forall x :: x in Members(View()) && x.id == s.id ==> x == s
      modifies this, repr, s`node
      ensures Valid() && fresh(repr - old(repr)) && old(repr) <= repr
      ensures st == if !Accepted(s.Topic()) then InvalidTopic
                    else if s in Members(old(View())) then DuplicateSubscriber else Ok
      ensures View() == Apply(old(View()), Add(s))
      ensures s.node != null <==> s in Members(View())
      ensures forall p :: p in old(at) ==> p in at && at[p] == old(at[p])
    {
      hide Linked, Wf, Levels, Insert, Walks;
      var n_tok, first_tok;
      st, n_tok, first_tok := ExtractToken(s.Topic());
      if st != Ok {
        return;
      }
      ghost var t0 := View();
      var node := Walk(s, n_tok, first_tok);
      st := NodeAddSub(node, s, t0);
      Seat(s);
    }

    // ---- deletion

    /** topic__node_is_empty */
    predicate IsEmpty(node: Node)
      reads node
    {
      |node.subs| == 0 && |node.nodes| == 0 && node.ml_node == null && node.sl_node == null
    }

    lemma EmptyIsDead(node: Node, p: Path)
      requires Linked() && p in at && at[p] == node
      ensures IsEmpty(node) <==> At(View(), p) == [] && !HasChild(View(), p)
      ensures p.Step? ==> p.up in at && node.parent == at[p.up] && at[p.up] in repr
    {
      assert Mirrors(p);
      assert View()[p] == node.subs;
      if HasChild(View(), p) {
        var tok :| Step(p, tok) in at;
        assert tok == "*" || tok == "+" || tok in node.nodes;
      }
      if node.nodes != map[] {
        var tok :| tok in node.nodes;
        assert Step(p, tok) in View();
      }
      if node.ml_node != null { assert Step(p, "*") in View(); }
      if node.sl_node != null { assert Step(p, "+") in View(); }
    }

    /** A leaf taken out of the place its token names leaves the tree linked. */
    twostate lemma Cut(p: Path)
      requires old(Linked()) && p.Step? && p in old(at) && !HasChild(old(View()), p)
      requires at == old(at) - {p} && pathOf == old(pathOf) && repr == old(repr)
      requires forall x :: x in at ==> at[x].subs == old(at[x].subs)
      requires forall x :: x in at && x != p.up ==> LinksOf(at[x]) == old(LinksOf(at[x]))
      requires p.up in at && LinksOf(at[p.up]) == old(LinksOf(at[p.up])).With(p.tok, null)
      ensures Linked() && View() == old(View()) - {p}
    {
      hide Fit;
      forall x | x in at ensures Mirrors(x) {
        assert old(Mirrors(x));
        if x == p.up {
          CutAbove(old(at), p, old(LinksOf(at[x])));
        } else {
          assert x.Step? ==> Step(x.up, x.tok) in old(View());
          CutBeside(old(at), p, x, old(LinksOf(at[x])));
        }
      }
    }

    /** Unhook the empty node at p from its parent, by its token. */
    method Unhook(cur_node: Node, ghost p: Path, tok: string)
      requires Linked() && p.Step? && p in at && p.up in at && at[p.up] == cur_node && p.tok == tok
      requires !HasChild(View(), p)
      modifies this`at, cur_node
      ensures Linked() && at == old(at) - {p} && View() == old(View()) - {p}
    {
      hide Linked, View;
      Distinct(p.up);
      if tok == "*" {
        cur_node.ml_node := null;
      } else if tok == "+" {
        cur_node.sl_node := null;
      } else {
        cur_node.nodes := cur_node.nodes - {tok};
      }
      at := at - {p};
      Cut(p);
    }

    /** topic__tree_prune_node */
    method PruneNode(leaf_node: Node, tokens: seq<string>, ghost leaf: Path)
      requires Linked() && leaf in at && at[leaf] == leaf_node && leaf == PathOf(Root, tokens)
      modifies this`at, repr
      ensures Linked() && View() == Prune(old(View()), leaf)
      ensures forall q :: q in at ==> q in old(at) && at[q] == old(at[q])
    {
      hide Linked, View, IsEmpty, HasChild;
      var cur_node := leaf_node;
      ghost var p := leaf;
      var i := |tokens| - 1;
      assert tokens[..i + 1] == tokens;
      while i >= 0 && IsEmpty(cur_node)
        invariant -1 <= i < |tokens|
        invariant Linked() && p in at && at[p] == cur_node && p == PathOf(Root, tokens[..i + 1])
        invariant Prune(View(), p) == Prune(old(View()), leaf)
        invariant forall q :: q in at ==> q in old(at) && at[q] == old(at[q])
      {
        EmptyIsDead(cur_node, p);
        PathOfSnoc(Root, tokens[..i], tokens[i]);
        assert tokens[..i + 1] == tokens[..i] + [tokens[i]];
        cur_node := cur_node.parent;
        Unhook(cur_node, p, tokens[i]);
        p := p.up;
        i := i - 1;
      }
      EmptyIsDead(cur_node, p);
    }

    /** The locked part of topic__del_subscriber. */
    method Extract(node: Node, s: Subscriber, tokens: seq<string>)
      requires Linked() && Home(s) in at && at[Home(s)] == node && node in repr && tokens == Levels(s.Topic())
      requires node.subs == At(View(), Home(s)) && s in node.subs
      requires forall x :: x in node.subs && x.id == s.id ==> x == s
      modifies this`at, repr, s`node
      ensures Linked() && View() == Remove(old(View()), s) && s.node == null
      ensures forall p :: p in at ==> p in old(at) && at[p] == old(at[p])
    {
      hide Linked, View, At, Levels;
      var hsh := FindSub(node.subs, s.id);
      if hsh != null {
        SetSubs(node, Home(s), Without<Subscriber>(node.subs, hsh));
        s.node := null;
        PruneNode(node, tokens, Home(s));
      }
    }

    /** topic__del_subscriber */
    method DelSubscriber(s: Subscriber) returns (st: Status)
      requires Valid() && NulFree(s.Topic())
      requires s.node == null || s in Members(View())
      modifies this, repr, s`node
      ensures Valid() && st == Ok
      ensures View() == Apply(old(View()), Del(s)) && repr <= old(repr)
      ensures s.node == null && s !in Members(View())
      ensures forall p :: p in at ==> p in old(at) && at[p] == old(at[p])
    {
      hide Linked, Wf;
      if s.node == null {
        return Ok;
      }
      WholeDel(s);
      var node := s.node;
      var n_tok, first_tok;
      st, n_tok, first_tok := ExtractToken(s.Topic());
      var tokens := TokenToArray(first_tok, n_tok, Levels(s.Topic()));
      Extract(node, s, tokens);
      Unseat(s);
    }

    /** Before a deletion: where the subscriber sits, and that its id names it. */
    lemma WholeDel(s: Subscriber)
      requires Valid() && s in Members(View())
      ensures Accepted(s.Topic()) && Home(s) in at && s.node == at[Home(s)] && s.node in repr &&
          at[Home(s)].subs == At(View(), Home(s))
      ensures s in at[Home(s)].subs && forall x :: x in at[Home(s)].subs && x.id == s.id ==> x == s
    {
      AtHome(View(), s);
      assert Sits(View()[Home(s)], Home(s));
      assert forall x :: x in View()[Home(s)] ==> x in Members(View());
    }

    twostate lemma Unseat(s: Subscriber)
      requires old(Valid()) && s in Members(old(View()))
      requires forall x :: x in Members(old(View())) && x != s ==> x.node == old(x.node)
      requires Linked() && View() == Remove(old(View()), s)
      requires forall q :: q in at ==> q in old(at) && at[q] == old(at[q])
      ensures Valid() && s !in Members(View())
    {
      hide Linked;
      var t := old(View());
      RemoveMembers(t, s);
      forall x | x in Members(t) && x != s ensures Home(x) in at && x.node == at[Home(x)] {
        assert old(Home(x) in at && x.node == at[Home(x)]);
        AtHome(View(), x);
      }
    }

    // ---- search

    /** What the pointers and tables of the node at p say about the tree. */
    lemma Look(p: Path, tok: string)
      requires Linked() && p in at
      ensures At(View(), p) == at[p].subs
      ensures At(View(), Step(p, "*")) == if at[p].ml_node == null then [] else at[p].ml_node.subs
      ensures Step(p, "+") in View() <==> at[p].sl_node != null
      ensures at[p].sl_node != null ==> Step(p, "+") in at && at[Step(p, "+")] == at[p].sl_node
      ensures IsLiteral(tok) && Step(p, tok) in View() <==> tok in at[p].nodes
      ensures tok in at[p].nodes ==> Step(p, tok) in at && at[Step(p, tok)] == at[p].nodes[tok]
    {
      assert Mirrors(p);
    }

    /** One turn of the search loop: the subscribers at the `*` child, then those that the rest finds below `+`. */
    method StarAndPlus(cur_node: Node, first_tok: string, cur_tok: nat, n_tok: int,
                       ghost q: Path, ghost rest: seq<string>)
      returns (some: seq<Subscriber>)
      requires Linked() && q in at && at[q] == cur_node
      requires n_tok == |rest| && Walks(first_tok, cur_tok, rest)
      ensures some == FoundBeside(View(), q, rest)
      decreases n_tok, 1
    {
      hide Linked, View, At, Find, Walks;
      Look(q, "");
      some := [];
      if cur_node.ml_node != null && |cur_node.ml_node.subs| > 0 {
        some := cur_node.ml_node.subs;
      }
      if cur_node.sl_node != null {
        var tmp_subs := NodeFindSubscribers(cur_node.sl_node, first_tok, cur_tok, n_tok, Step(q, "+"), rest);
        some := some + tmp_subs;
      }
    }

    /** topic__node_find_subscribers: a loop down the literal children, a recursion into every `+`. */
    method NodeFindSubscribers(node: Node, first_tok: string, cur: nat, n: int, ghost p: Path, ghost toks: seq<string>)
      returns (subs: seq<Subscriber>)
      requires Linked() && p in at && at[p] == node
      requires n == |toks| && Walks(first_tok, cur, toks)
      ensures subs == Find(View(), p, toks)
      decreases n, 0
    {
      hide Linked, View, At, Find, FoundBeside, Walks, Terminator, CStr, NextToken;
      ghost var t := View();
      subs := [];
      Look(p, "");
      FindHere(t, p);
      if n == 0 {
        return node.subs;
      }
      var cur_tok, n_tok := cur, n;
      var cur_node: Node? := node;
      ghost var q, rest := p, toks;
      while cur_node != null && n_tok > 0
        invariant n_tok == |rest| <= n && Walks(first_tok, cur_tok, rest) && View() == t
        invariant cur_node != null ==> q in at && at[q] == cur_node
        invariant Find(t, p, toks) == subs + (if cur_node == null then [] else Find(t, q, rest))
        decreases n_tok
      {
        WalksNext(first_tok, cur_tok, rest);
        var tok := CStr(first_tok, cur_tok);
        Look(q, tok);
        FindSplit(t, q, rest, subs);
        var hsh_node := if tok in cur_node.nodes then cur_node.nodes[tok] else null;
        cur_tok := NextToken(first_tok, cur_tok);
        n_tok := n_tok - 1;
        rest := rest[1..];
        var some := StarAndPlus(cur_node, first_tok, cur_tok, n_tok, q, rest);
        subs := subs + some;
        q := Step(q, tok);
        cur_node := hsh_node;
      }
      if cur_node != null {
        Look(q, "");
        FindHere(t, q);
        subs := subs + cur_node.subs;
      }
    }

    /** topic__tree_find_subscribers: no list for a topic that is not accepted. */
    method FindSubscribers(topic: string) returns (st: Status, subs: seq<Subscriber>)
      requires Valid() && NulFree(topic)
      ensures st == if Accepted(topic) then Ok else InvalidTopic
      ensures st == Ok ==> subs == Find(View(), Root, Levels(topic))
    {
      var n_tok, first_tok;
      st, n_tok, first_tok := ExtractToken(topic);
      if st != Ok {
        return st, [];
      }
      subs := NodeFindSubscribers(root, first_tok, 0, n_tok, Root, Levels(topic));
    }
  }

  lemma FindHere(t: Trie, p: Path)
    ensures Find(t, p, []) == At(t, p)
  {
  }

  /** What the search adds at p before it goes down to the literal child. */
  function FoundBeside(t: Trie, p: Path, rest: seq<string>): seq<Subscriber> {
    At(t, Step(p, "*")) + if Step(p, "+") in t then Find(t, Step(p, "+"), rest) else []
  }

  lemma FindSplit(t: Trie, p: Path, toks: seq<string>, found: seq<Subscriber>)
    requires toks != []
    ensures var lit := Step(p, toks[0]);
            var down := if IsLiteral(toks[0]) && lit in t then Find(t, lit, toks[1..]) else [];
            found + Find(t, p, toks) == found + FoundBeside(t, p, toks[1..]) + down
  {
    hide At;
    var down := if IsLiteral(toks[0]) && Step(p, toks[0]) in t then Find(t, Step(p, toks[0]), toks[1..]) else [];
    assert Find(t, p, toks) == FoundBeside(t, p, toks[1..]) + down;
    Assoc(found, FoundBeside(t, p, toks[1..]), down);
  }

  /** topic__token_to_array */
  method TokenToArray(first_tok: string, n_tok: nat, ghost toks: seq<string>) returns (arr: seq<string>)
    requires n_tok == |toks| > 0 && Walks(first_tok, 0, toks)
    ensures arr == toks
  {
    var cur_tok := 0;
    arr := [CStr(first_tok, cur_tok)];
    ghost var rest := toks;
    for i := 1 to n_tok
      invariant |rest| == n_tok - i + 1 && Walks(first_tok, cur_tok, rest)
      invariant arr + rest[1..] == toks
    {
      cur_tok := NextToken(first_tok, cur_tok);
      rest := rest[1..];
      arr := arr + [CStr(first_tok, cur_tok)];
    }
  }

  lemma {:induction false} PathOfSnoc(p: Path, ts: seq<string>, tok: string)
    ensures PathOf(p, ts + [tok]) == Step(PathOf(p, ts), tok)
    decreases |ts|
  {
    if ts != [] {
      assert (ts + [tok])[1..] == ts[1..] + [tok];
      PathOfSnoc(Step(p, ts[0]), ts[1..], tok);
    } else {
      assert ([tok])[1..] == [];
    }
  }

  lemma WalkStart(s: Subscriber, t: Trie)
    requires Wf(t) && Accepted(s.Topic())
    ensures PathOf(Root, Levels(s.Topic())) == Home(s) && Grow(t, Root) == t && NoStarBeforeLast(Levels(s.Topic()))
  {
    AcceptedLevels(s.Topic());
  }

  /** Growing a tree level by level. */
  lemma GrowStep(t: Trie, p: Path, tok: string)
    requires Wf(t)
    ensures Grow(Grow(t, p), Step(p, tok)) == Grow(t, Step(p, tok))
  {
    GrowIn(t, p);
    if Above(Step(p, tok), p) { AboveDepth(Step(p, tok), p); }
  }

  /**
   * Two records under one id in one node: when b is to be deleted and the search by id finds a, then a is gone, b is
   * still there, and the node's table is not what a deletion of b is to leave. By symmetry one of the two deletions
   * goes wrong whichever record the search finds.
   */
  lemma SharedIdDeletesTheOther(subs: seq<Subscriber>, a: Subscriber, b: Subscriber)
    requires NoDup(subs) && a in subs && b in subs && a != b && a.id == b.id
    ensures a !in Without(subs, a) && b in Without(subs, a) && Without(subs, a) != Without(subs, b)
  {
    WithoutMember(subs, a);
    WithoutMember(subs, b);
    assert a in Without(subs, b);
  }

  /** A deletion by id is right exactly when the search finds the record that is to go. */
  lemma DeletionIsRight(subs: seq<Subscriber>, s: Subscriber, found: Subscriber)
    requires NoDup(subs) && s in subs && found in subs
    ensures Without(subs, found) == Without(subs, s) <==> found == s
  {
    WithoutMember(subs, s);
    WithoutMember(subs, found);
    if found != s { assert found in Without(subs, s); }
  }

  /** HASH_FIND_STR on a table of subscribers: an entry with this id, or null. */
  function FindSub(subs: seq<Subscriber>, id: string): (found: Subscriber?)
    ensures found != null ==> found in subs && found.id == id
    ensures found == null ==> forall x :: x in subs ==> x.id != id
  {
    if subs == [] then null
    else if subs[0].id == id then subs[0]
    else FindSub(subs[1..], id)
  }
}
