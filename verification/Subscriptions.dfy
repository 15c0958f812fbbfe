/** The client table, each client's table of subscribers, and the tree: what every request keeps between them. */
module Subscriptions {
  import opened Basics
  import opened Topics
  import opened Entities
  import opened Tries
  import opened TopicTree

  type Entry = (string, Subscriber)

  /** Letters in a client id: rand_str leaves room for the terminator. */
  const ID_LEN: nat := 5

  const DEFAULT_TAG: string := "_0"

  /** subscriber__make_identifier */
  function MakeIdentifier(topic: string, sub_tag: string): string { sub_tag + "/" + topic }

  /** HASH_FIND_STR on a table of subscribers: the index of the key, or the table's length. */
  function Slot(es: seq<Entry>, key: string): (i: nat)
    ensures i <= |es|
    ensures i < |es| ==> es[i].0 == key
    ensures forall j :: 0 <= j < i ==> es[j].0 != key
  {
    if es == [] || es[0].0 == key then 0 else 1 + Slot(es[1..], key)
  }

  ghost predicate DistinctKeys(es: seq<Entry>) {
    forall i, j :: 0 <= i < j < |es| ==> es[i].0 != es[j].0
  }

  lemma DropDistinctKeys(es: seq<Entry>, i: nat)
    requires DistinctKeys(es) && i < |es|
    ensures DistinctKeys(Drop(es, i)) && forall e :: e in Drop(es, i) <==> e in es && e != es[i]
  {
    var r := Drop(es, i);
    assert forall j :: 0 <= j < |r| ==> r[j] == es[if j < i then j else j + 1];
    forall e | e in es && e != es[i] ensures e in r {
      var j :| 0 <= j < |es| && es[j] == e;
      assert r[if j < i then j else j - 1] == e;
    }
  }

  /** A subscriber of client c, built by subscriber__new and filed under its identifier. */
  ghost predicate Filed(c: Client, e: Entry) {
    e.1.client == c && e.1.client_id == c.id && e.1.id == c.id + e.0 && e.0 == e.1.Identifier() && NulFree(e.1.Topic())
  }

  /** The offsets of the identifier helpers find the parts that the id was made of. */
  lemma PartsOfId(s: Subscriber, topic: string)
    requires s.id == s.client_id + s.sub_tag + "/" + topic
    ensures s.Topic() == topic && s.Identifier() == MakeIdentifier(topic, s.sub_tag)
    ensures s.id == s.client_id + s.Identifier()
  {
    assert s.id == s.client_id + (s.sub_tag + "/" + topic) == (s.client_id + s.sub_tag + "/") + topic;
  }

  /** The subscribers of other clients. */
  ghost function NotOf(ss: set<Subscriber>, c: Client): set<Subscriber> { set s | s in ss && s.client != c }

  lemma NoEntries()
    ensures DistinctKeys([])
  {
  }

  lemma KeyedSnoc(es: seq<Entry>, e: Entry)
    requires DistinctKeys(es) && Slot(es, e.0) == |es|
    ensures DistinctKeys(es + [e])
  {
  }

  /** What an addition and a deletion make of the members of a valid tree. */
  lemma AddMembers(tree: Tree, s: Subscriber)
    requires tree.Valid()
    ensures Members(Apply(tree.View(), Add(s))) <= Members(tree.View()) + {s}
    ensures Members(tree.View()) <= Members(Apply(tree.View(), Add(s)))
  {
    hide Tree.Linked, Tree.View, Wf, Insert;
    var t := tree.View();
    if Accepted(s.Topic()) && s !in Members(t) { InsertMembers(t, s); }
  }

  lemma DelMembers(tree: Tree, s: Subscriber)
    requires tree.Valid()
    ensures Members(Apply(tree.View(), Del(s))) == Members(tree.View()) - {s}
  {
    hide Tree.Linked, Tree.View, Wf, Remove;
    var t := tree.View();
    if s in Members(t) { RemoveMembers(t, s); }
  }

  /** memmove into a buffer */
  method MoveIn(data: array<char>, off: nat, w: string)
    requires off + |w| <= data.Length
    modifies data
    ensures data[..off + |w|] == old(data[..off]) + w
  {
    forall j | 0 <= j < |w| { data[off + j] := w[j]; }
  }

  lemma IdText(topic: string, sub_tag: string, client_id: string)
    ensures [] + client_id + sub_tag + "/" + topic + [NUL] == client_id + MakeIdentifier(topic, sub_tag) + [NUL]
  {
    assert [] + client_id == client_id;
    Assoc(client_id, sub_tag, "/");
    Assoc(client_id, sub_tag + "/", topic);
  }

  /** subscriber__gen_id */
  method GenId(topic: string, sub_tag: string, client_id: string) returns (id: array<char>)
    ensures fresh(id) && id[..] == client_id + MakeIdentifier(topic, sub_tag) + [NUL]
  {
    hide MakeIdentifier;
    IdText(topic, sub_tag, client_id);
    id := new char[|client_id| + |sub_tag| + |topic| + 2];
    assert id[..0] == [];
    MoveIn(id, 0, client_id);
    MoveIn(id, |client_id|, sub_tag);
    MoveIn(id, |client_id| + |sub_tag|, "/");
    MoveIn(id, |client_id| + |sub_tag| + 1, topic);
    MoveIn(id, |client_id| + |sub_tag| + |topic| + 1, [NUL]);
    assert id[..] == id[..id.Length];
  }

  /** A tag may hold a slash, so two subscriptions of one client can have one identifier: exactly when the longer tag
      is the shorter one, a slash and the start of the shorter one's topic. */
  lemma IdentifierClash(t1: string, g1: string, t2: string, g2: string)
    requires |g1| <= |g2|
    ensures MakeIdentifier(t1, g1) == MakeIdentifier(t2, g2) <==>
              (g1 == g2 && t1 == t2) || exists x :: g2 == g1 + "/" + x && t1 == x + "/" + t2
  {
    JoinClash(g1, t1, g2, t2);
  }

  /** Two subscriber records share an id exactly when their clients share one and their identifiers are equal. */
  lemma IdsClash(c: Client, key: string, d: Client, key': string)
    requires |c.id| == |d.id|
    ensures c.id + key == d.id + key' <==> c.id == d.id && key == key'
  {
    var a, b := c.id + key, d.id + key';
    assert a[..|c.id|] == c.id && b[..|d.id|] == d.id && a[|c.id|..] == key && b[|d.id|..] == key';
  }

  class Broker {
    const tree: Tree
    var clients: map<string, Client>
    ghost var subs: set<Subscriber>
    ghost var crew: set<Client>

    /** A client's table holds its own subscribers, each key once. */
    ghost predicate Tabled(c: Client)
      reads this`subs, c`subs
    {
      |c.id| == ID_LEN && DistinctKeys(c.subs) && forall e :: e in c.subs ==> Filed(c, e) && e.1 in subs
    }

    /** The clients that exist have different ids, and tables of their own. */
    ghost predicate Tables()
      reads this`crew, this`subs, crew`subs
    {
      && (forall c :: c in crew ==> Tabled(c))
      && (forall c, d :: c in crew && d in crew && c.id == d.id ==> c == d)
    }

    /** Every subscriber is in its own client's table. */
    ghost predicate Owned()
      reads this`crew, this`subs, crew`subs
    {
      forall s :: s in subs ==> s.client in crew && s.client_id == s.client.id && (s.Identifier(), s) in s.client.subs
    }

    /** A table entry has a node exactly when the tree holds its subscriber, and the tree holds no other. */
    ghost predicate Agree()
      reads this`subs, tree, tree.repr, subs
    {
      && Members(tree.View()) <= subs
      && forall s :: s in subs ==> (s.node != null <==> s in Members(tree.View()))
    }

    ghost predicate Sound()
      reads this`crew, this`subs, tree, tree.repr, subs, Members(tree.View()), crew`subs
    {
      tree.Valid() && Tables() && Owned() && Agree()
    }

    /** The broker's table lists only clients that exist, under their ids. A client on its way out is not listed. */
    ghost predicate Listed()
      reads this`clients, this`crew
    {
      forall id :: id in clients ==> clients[id] in crew && clients[id].id == id
    }

    /** No client is on its way out. */
    ghost predicate AllListed()
      reads this`clients, this`crew
    {
      forall c :: c in crew ==> c.id in clients
    }

    /** What holds between steps, where a departure takes two of them. */
    ghost predicate Valid()
      reads this, tree, tree.repr, subs, Members(tree.View()), crew`subs
    {
      Sound() && Listed()
    }

    constructor ()
      ensures Valid() && AllListed() && clients == map[] && tree.View() == EMPTY && fresh(tree) && fresh(tree.repr)
    {
      tree := new Tree();
      clients, subs, crew := map[], {}, {};
      new;
      assert Members(EMPTY) == {};
    }

    /** Equal subscriber ids belong to one client and one key: ids of clients have one length. */
    lemma SameId(c: Client, key: string)
      requires Tables() && Owned() && c in crew
      ensures forall s :: s in subs && s.id == c.id + key ==> s.client == c && (key, s) in c.subs
    {
      forall s | s in subs && s.id == c.id + key ensures s.client == c && (key, s) in c.subs {
        var e := (s.Identifier(), s);
        assert e in s.client.subs && Tabled(s.client) && Tabled(c);
        assert s.id == s.client_id + e.0;
        assert s.id[..ID_LEN] == s.client_id && s.id[..ID_LEN] == c.id && s.id[ID_LEN..] == key;
      }
    }

    // ---- connecting

    /**
     * broker__accept: ids are drawn until one is free in the table; the last of `draws` is. A client on its way out
     * is no longer there, so its id must not be drawn for the tree to keep apart what the two clients subscribe to.
     */
    method Accept(draws: seq<string>) returns (c: Client)
      requires Valid() && draws != [] && draws[|draws| - 1] !in clients
      requires forall i :: 0 <= i < |draws| ==> |draws[i]| == ID_LEN
      requires forall i, d :: 0 <= i < |draws| && d in crew && d.id == draws[i] ==> d.id in clients
      modifies this`clients, this`crew
      ensures Valid() && (old(AllListed()) ==> AllListed())
      ensures fresh(c) && c.subs == [] && c.id !in old(clients) && clients == old(clients)[c.id := c]
      ensures crew == old(crew) + {c} && tree.View() == old(tree.View())
    {
      hide Valid, Sound, Tree.View;
      var k := 0;
      while draws[k] in clients
        invariant k < |draws| && Valid() && tree.View() == old(tree.View())
        decreases |draws| - k
      {
        k := k + 1;
      }
      c := Enlist(draws[k]);
    }

    method Enlist(id: string) returns (c: Client)
      requires Valid() && (forall d :: d in crew ==> d.id != id) && |id| == ID_LEN
      modifies this`clients, this`crew
      ensures Valid() && fresh(c) && c.subs == [] && c.id == id && clients == old(clients)[id := c] &&
          crew == old(crew) + {c}
      ensures tree.View() == old(tree.View())
    {
      hide Tree.Valid, Tree.View, Members, DistinctKeys, Filed;
      NoEntries();
      c := new Client(id);
      clients, crew := clients[id := c], crew + {c};
      forall d | d in crew ensures Tabled(d) {
        assert d != c ==> old(Tabled(d));
      }
    }

    // ---- subscribing

    /** Put a new entry into a client's table. */
    method File(c: Client, key: string, sub: Subscriber)
      requires Tables() && Owned() && c in crew
      requires Filed(c, (key, sub)) && Slot(c.subs, key) == |c.subs|
      modifies this`subs, c`subs
      ensures Tables() && Owned()
      ensures c.subs == old(c.subs) + [(key, sub)] && subs == old(subs) + {sub}
    {
      hide Filed;
      KeyedSnoc(c.subs, (key, sub));
      hide DistinctKeys;
      c.subs := c.subs + [(key, sub)];
      subs := subs + {sub};
      forall d | d in crew ensures Tabled(d) {
        assert d != c ==> old(Tabled(d));
      }
      forall s | s in subs
        ensures s.client in crew && s.client_id == s.client.id && (s.Identifier(), s) in s.client.subs
      {
        if s == sub {
          Owner(c, (key, sub));
          assert c.subs[|c.subs| - 1] == (key, sub);
        } else {
          assert old((s.Identifier(), s) in s.client.subs);
        }
      }
    }

    lemma Owner(c: Client, e: Entry)
      requires Filed(c, e)
      ensures e.1.client == c && e.1.client_id == c.id && e.1.Identifier() == e.0
    {
    }

    /** broker__add_sub for a subscriber that has just been filed */
    method AddSub(sub: Subscriber, ghost before: set<Subscriber>) returns (st: Status)
      requires tree.Valid() && subs == before + {sub} && Members(tree.View()) <= before
      requires sub.node == null && sub !in before && NulFree(sub.Topic())
      requires forall s :: s in before ==> s.id != sub.id
      requires forall s :: s in before ==> (s.node != null <==> s in Members(tree.View()))
      modifies tree, tree.repr, sub`node
      ensures tree.Valid() && Agree()
      ensures tree.View() == Apply(old(tree.View()), Add(sub))
      ensures st == if Accepted(sub.Topic()) then Ok else InvalidTopic
    {
      hide Tree.Valid, Tree.View, Members, Apply;
      AddMembers(tree, sub);
      st := tree.AddSubscriber(sub);
      forall s | s in subs ensures s.node != null <==> s in Members(tree.View()) {
        assert s != sub ==> s.node == old(s.node);
      }
    }

    /** broker__del_sub for a subscriber that has just been taken out of its table */
    method DelSub(sub: Subscriber)
      requires tree.Valid() && sub !in subs && Members(tree.View()) <= subs + {sub} && NulFree(sub.Topic())
      requires forall s :: s in subs + {sub} ==> (s.node != null <==> s in Members(tree.View()))
      modifies tree, tree.repr, sub`node
      ensures tree.Valid() && Agree()
      ensures tree.View() == Apply(old(tree.View()), Del(sub)) && tree.repr <= old(tree.repr)
      ensures Members(tree.View()) == old(Members(tree.View())) - {sub}
    {
      hide Tree.Valid, Tree.View, Members, Apply;
      DelMembers(tree, sub);
      var _ := tree.DelSubscriber(sub);
      forall s | s in subs ensures s.node != null <==> s in Members(tree.View()) {
        assert s.node == old(s.node);
      }
    }

    /** client__sub0, for a subscriber that has just been made */
    method Sub0(c: Client, sub: Subscriber) returns (st: Status)
      requires Sound() && c in crew && sub !in subs && sub.node == null && Filed(c, (sub.Identifier(), sub))
      modifies this`subs, c`subs, tree, tree.repr, sub`node
      ensures Sound()
      ensures var key := sub.Identifier();
              if Slot(old(c.subs), key) < |old(c.subs)| then
                && st == DuplicateSubscriber
                && c.subs == old(c.subs) && subs == old(subs) && tree.View() == old(tree.View())
              else
                && st == (if Accepted(sub.Topic()) then Ok else InvalidTopic)
                && c.subs == old(c.subs) + [(key, sub)] && subs == old(subs) + {sub}
                && tree.View() == Apply(old(tree.View()), Add(sub))
    {
      hide Tree.Valid, Tree.View, DistinctKeys, Members, Apply, Tables, Owned, Slot, NulFree, Tabled;
      var key := sub.Identifier();
      if Slot(c.subs, key) < |c.subs| {
        return DuplicateSubscriber;
      }
      SameId(c, key);
      File(c, key, sub);
      st := AddSub(sub, old(subs));
    }

    /**
     * handle__SUB. `st` is what the subscription came to and `reply` what the broker answers: OK whenever there is a
     * topic. An accepted key is filed even when the tree refuses its topic.
     */
    method Sub(c: Client, topic: Option<string>, sub_tag: Option<string>)
      returns (st: Status, reply: Status, sub: Subscriber?)
      requires Valid() && c in crew && (topic.Some? ==> NulFree(topic.value))
      modifies this`subs, c`subs, tree, tree.repr
      ensures Valid() && reply == if topic.Some? then Ok else InvalidTopic
      ensures topic.None? ==>
                && st == InvalidTopic && c.subs == old(c.subs) && subs == old(subs)
                && tree.View() == old(tree.View())
      ensures topic.Some? ==>
                var key := MakeIdentifier(topic.value, if sub_tag.Some? then sub_tag.value else DEFAULT_TAG);
                if Slot(old(c.subs), key) < |old(c.subs)| then
                  && st == DuplicateSubscriber
                  && c.subs == old(c.subs) && subs == old(subs) && tree.View() == old(tree.View())
                else
                  && sub != null && fresh(sub) && sub.client == c && sub.Topic() == topic.value
                  && st == (if Accepted(topic.value) then Ok else InvalidTopic)
                  && c.subs == old(c.subs) + [(key, sub)] && subs == old(subs) + {sub}
                  && tree.View() == Apply(old(tree.View()), Add(sub))
    {
      hide Tree.Valid, Tree.View, DistinctKeys, Members, Apply, MakeIdentifier, Tables, Owned, Slot, NulFree;
      if topic.None? {
        return InvalidTopic, InvalidTopic, null;
      }
      var tag := if sub_tag.Some? then sub_tag.value else DEFAULT_TAG;
      var s := new Subscriber(topic.value, tag, c);
      PartsOfId(s, topic.value);
      st := Sub0(c, s);
      reply, sub := Ok, s;
    }

    // ---- unsubscribing

    /** Take entry i out of a client's table. */
    method Unfile(c: Client, i: nat)
      requires Tables() && Owned() && c in crew && i < |c.subs|
      modifies this`subs, c`subs
      ensures Tables() && Owned()
      ensures c.subs == Drop(old(c.subs), i) && subs == old(subs) - {old(c.subs)[i].1}
    {
      hide Filed, DistinctKeys, Drop;
      assert Tabled(c);
      assert c.subs[i] in c.subs;
      var e := c.subs[i];
      ghost var es := c.subs;
      c.subs := Drop(c.subs, i);
      subs := subs - {e.1};
      DropDistinctKeys(es, i);
      forall d | d in crew ensures Tabled(d) {
        Owner(c, e);
        if d != c {
          assert old(Tabled(d));
          forall f | f in d.subs ensures f.1 in subs { Owner(d, f); }
        } else {
          forall f | f in c.subs ensures Filed(c, f) && f.1 in subs {
            assert f in es && f != e;
            Owner(c, f);
          }
        }
      }
      forall s | s in subs
        ensures s.client in crew && s.client_id == s.client.id && (s.Identifier(), s) in s.client.subs
      {
        assert old((s.Identifier(), s) in s.client.subs);
      }
    }

    /** Take entry i out of its table and its subscriber out of the tree. */
    method Remove(c: Client, i: nat, sub: Subscriber)
      requires Sound() && c in crew && i < |c.subs| && sub == c.subs[i].1
      modifies this`subs, c`subs, tree, tree.repr, sub`node
      ensures Sound() && c.subs == Drop(old(c.subs), i) && subs == old(subs) - {sub}
      ensures tree.View() == Apply(old(tree.View()), Del(sub)) && tree.repr <= old(tree.repr)
      ensures Members(tree.View()) == old(Members(tree.View())) - {sub}
    {
      hide Tree.Valid, Tree.View, Members, Apply, Drop, DistinctKeys;
      assert Tabled(c) && c.subs[i] in c.subs && Filed(c, c.subs[i]);
      Unfile(c, i);
      DelSub(sub);
    }

    /** handle__UNSUB with client__unsub0; what it comes to is also what the broker answers. */
    method Unsub(c: Client, topic: Option<string>, sub_tag: Option<string>) returns (st: Status)
      requires Valid() && c in crew
      modifies this`subs, c`subs, tree, tree.repr, subs`node
      ensures Valid()
      ensures topic.None? ==> st == InvalidTopic
      ensures topic.Some? && sub_tag.None? ==> st == InvalidArg
      ensures topic.Some? && sub_tag.Some? ==>
                var i := Slot(old(c.subs), MakeIdentifier(topic.value, sub_tag.value));
                if i < |old(c.subs)| then
                  var sub := old(c.subs)[i].1;
                  && st == Ok && c.subs == Drop(old(c.subs), i) && subs == old(subs) - {sub}
                  && tree.View() == Apply(old(tree.View()), Del(sub)) && sub !in Members(tree.View())
                else st == InvalidSubscriber
      ensures st != Ok ==> c.subs == old(c.subs) && subs == old(subs) && tree.View() == old(tree.View())
    {
      hide Tree.Valid, Tree.View, Members, Apply, Drop, DistinctKeys, MakeIdentifier;
      if topic.None? {
        return InvalidTopic;
      }
      if sub_tag.None? {
        return InvalidArg;
      }
      var i := Slot(c.subs, MakeIdentifier(topic.value, sub_tag.value));
      if i == |c.subs| {
        return InvalidSubscriber;
      }
      assert Tabled(c) && c.subs[i] in c.subs;
      Remove(c, i, c.subs[i].1);
      st := Ok;
    }

    // ---- disconnecting

    /** client__unsub_all: nothing of this client is left, and nothing else is gone. */
    method UnsubAll(c: Client)
      requires Sound() && c in crew
      modifies this`subs, c`subs, tree, tree.repr, subs`node
      ensures Sound() && c.subs == []
      ensures subs == NotOf(old(subs), c) && Members(tree.View()) == NotOf(old(Members(tree.View())), c)
    {
      hide Tree.Valid, Tree.View, Members, Apply, Drop, DistinctKeys, Filed;
      ghost var gone: set<Subscriber> := {};
      while c.subs != []
        invariant Sound() && gone <= old(subs) && subs == old(subs) - gone
        invariant Members(tree.View()) == old(Members(tree.View())) - gone
        invariant forall s :: s in gone ==> s.client == c
        invariant tree.repr <= old(tree.repr)
        decreases |c.subs|
      {
        ghost var e := c.subs[0];
        assert Tabled(c) && e in c.subs;
        Owner(c, e);
        Remove(c, 0, c.subs[0].1);
        gone := gone + {e.1};
      }
    }

    /** The first step of a departure: the client leaves the broker's table. Nothing else changes. */
    method LeaveTable(c: Client)
      requires Valid() && c in crew
      modifies this`clients
      ensures Valid() && tree.View() == old(tree.View()) && clients == old(clients) - {c.id}
    {
      hide Tree.Valid, Tree.View, Members, Tabled;
      if c.id in clients {
        clients := clients - {c.id};
      }
    }

    /** The client is freed. */
    ghost method Leave(c: Client)
      requires Sound() && c in crew && c.subs == [] && (forall s :: s in subs ==> s.client != c)
      modifies this`crew
      ensures Sound() && tree.View() == old(tree.View()) && crew == old(crew) - {c}
    {
      hide Tree.Valid, Tree.View, Members, Tabled;
      crew := crew - {c};
    }

    /**
     * The second step, client__destroy: all and only this client's subscribers leave the tables and the tree. Other
     * clients may have come, subscribed and left since the first step.
     */
    method LeaveTree(c: Client)
      requires Valid() && c in crew && c.id !in clients
      modifies this`crew, this`subs, c`subs, tree, tree.repr, subs`node
      ensures Valid() && crew == old(crew) - {c}
      ensures subs == NotOf(old(subs), c) && Members(tree.View()) == NotOf(old(Members(tree.View())), c)
    {
      hide Tree.Valid, Tables, Owned, Tree.View, Members;
      UnsubAll(c);
      assert forall s :: s in subs ==> s.client != c;
      Leave(c);
    }

    /** broker__destroy_client, when nothing comes between its two steps */
    method Disconnect(c: Client)
      requires Valid() && c in crew
      modifies this`clients, this`crew, this`subs, c`subs, tree, tree.repr, subs`node
      ensures Valid() && clients == old(clients) - {c.id} && crew == old(crew) - {c} &&
          (old(AllListed()) ==> AllListed())
      ensures subs == NotOf(old(subs), c) && Members(tree.View()) == NotOf(old(Members(tree.View())), c)
    {
      hide Tree.Valid, Owned, Agree, Tree.View, Members, Tabled;
      LeaveTable(c);
      LeaveTree(c);
    }
  }
}
