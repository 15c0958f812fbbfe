/** uthash: bucket chains and the application-order list over the same items, kept by hand. */
module HashTable {
  import opened Basics
  import opened Bits
  import opened HashChains

  const INITIAL_NUM_BUCKETS: nat := 32
  const INITIAL_NUM_BUCKETS_LOG2: nat := 5
  const BKT_CAPACITY_THRESH: nat := 10

  /** Bucket k of the array holds chain k, and counts it. */
  ghost predicate Hold(b: array<Bucket>, cs: Chains, repr: set<Item>)
    reads b, repr`hh_next, repr`hh_prev
  {
    && b.Length == |cs|
    && (forall k, x :: 0 <= k < |cs| && x in cs[k] ==> x in repr)
    && (forall k :: 0 <= k < |cs| ==> Chain(b[k].hh_head, cs[k]) && b[k].count == |cs[k]|)
  }

  /** Put x at the head of a chain. */
  method HookChain(hh_head: Item?, x: Item, ghost c: seq<Item>)
    requires Chain(hh_head, c) && x !in c
    modifies x`hh_next, x`hh_prev, c`hh_prev
    ensures Chain(x, [x] + c)
  {
    x.hh_next := hh_head;
    x.hh_prev := null;
    if hh_head != null {
      hh_head.hh_prev := x;
    }
    ghost var r := [x] + c;
    forall i | 0 <= i < |r| ensures r[i].hh_next == Nth(r, i + 1) && r[i].hh_prev == Nth(r, i - 1) {
      if i > 0 {
        assert r[i] == c[i - 1];
        assert old(c[i - 1].hh_next) == Nth(c, i);
      }
    }
  }

  /** The pointer part of HASH_ADD_TO_BKT and of the move to a new bucket. */
  method Hook(b: array<Bucket>, k: nat, x: Item, bkt: Bucket, ghost cs: Chains, ghost repr: set<Item>, ghost lg: nat)
    requires Hold(b, cs, repr) && Placed(cs, lg) && !Has(cs, x) && x in repr
    requires k == ToBkt(x.hashv, |cs|) < |cs| && bkt.hh_head == b[k].hh_head && bkt.count == b[k].count + 1
    modifies b, x`hh_next, x`hh_prev, cs[k]`hh_prev
    ensures Hold(b, Push(cs, x), repr)
    ensures b[..] == old(b[..])[k := bkt.(hh_head := x)]
  {
    hide Chain, ToBkt;
    forall j | 0 <= j < |cs| && j != k ensures x !in cs[j] && forall y :: y in cs[j] ==> y !in cs[k] {
      Apart(cs, lg, j, k);
    }
    HookChain(bkt.hh_head, x, cs[k]);
    forall j | 0 <= j < |cs| && j != k ensures Chain(b[j].hh_head, cs[j]) {
      assert old(Chain(b[j].hh_head, cs[j]));
      assert forall y :: y in cs[j] ==> y.hh_next == old(y.hh_next) && y.hh_prev == old(y.hh_prev);
    }
    b[k] := bkt.(hh_head := x);
    ghost var r := Push(cs, x);
    forall j | 0 <= j < |r| ensures Chain(b[j].hh_head, r[j]) && b[j].count == |r[j]| {
      if j != k {
        assert Chain(b[j].hh_head, cs[j]);
      }
    }
  }

  /** HASH_DEL_IN_BKT, the pointer part: take element j out of a chain. */
  method UnhookChain(hh_head: Item?, x: Item, ghost c: seq<Item>, ghost j: nat) returns (head': Item?)
    requires Chain(hh_head, c) && j < |c| && c[j] == x
    modifies c`hh_next, c`hh_prev
    ensures Chain(head', Drop(c, j))
  {
    assert x.hh_next == Nth(c, j + 1) && x.hh_prev == Nth(c, j - 1) by { assert c[j].hh_next == x.hh_next; }
    head' := if hh_head == x then x.hh_next else hh_head;
    DropNth(c, j);
    if x.hh_prev != null {
      x.hh_prev.hh_next := x.hh_next;
    }
    if x.hh_next != null {
      x.hh_next.hh_prev := x.hh_prev;
    }
    ghost var r := Drop(c, j);
    forall i | 0 <= i < |r| ensures r[i].hh_next == Nth(r, i + 1) && r[i].hh_prev == Nth(r, i - 1) {
      var i' := if i < j then i else i + 1;
      assert r[i] == c[i'] && old(c[i'].hh_next) == Nth(c, i' + 1) && old(c[i'].hh_prev) == Nth(c, i' - 1);
    }
  }

  /** HASH_DEL_IN_BKT */
  method DelInBkt(b: array<Bucket>, k: nat, x: Item, ghost j: nat, ghost cs: Chains, ghost repr: set<Item>,
                  ghost lg: nat)
    requires Hold(b, cs, repr) && Placed(cs, lg)
    requires k < |cs| && j < |cs[k]| && cs[k][j] == x
    modifies b, cs[k]`hh_next, cs[k]`hh_prev
    ensures Hold(b, cs[k := Drop(cs[k], j)], repr)
    ensures b[..] == old(b[..])[k := b[k]] && b[k].expand_mult == old(b[k].expand_mult)
  {
    hide Chain, ToBkt;
    forall i | 0 <= i < |cs| && i != k ensures forall y :: y in cs[i] ==> y !in cs[k] {
      Apart(cs, lg, i, k);
    }
    assert NoDup(cs[k]);
    DropNth(cs[k], j);
    var head := UnhookChain(b[k].hh_head, x, cs[k], j);
    forall i | 0 <= i < |cs| && i != k ensures Chain(b[i].hh_head, cs[i]) {
      assert old(Chain(b[i].hh_head, cs[i]));
      assert forall y :: y in cs[i] ==> y.hh_next == old(y.hh_next) && y.hh_prev == old(y.hh_prev);
    }
    b[k] := Bucket(head, b[k].count - 1, b[k].expand_mult);
  }

  /** Link two neighbours of an element that goes. */
  method Join(prev: Item?, next: Item?)
    modifies (if prev == null then {} else {prev})`next, (if next == null then {} else {next})`prev
    ensures prev != null ==> prev.next == next
    ensures next != null ==> next.prev == prev
  {
    if prev != null {
      prev.next := next;
    }
    if next != null {
      next.prev := prev;
    }
  }

  /** Forward links only: what is still true of an old chain while other chains are moved. */
  ghost predicate Forward(thh: Item?, c: seq<Item>)
    reads c`hh_next
  {
    && NoDup(c)
    && thh == Nth(c, 0)
    && forall i {:trigger c[i].hh_next} :: 0 <= i < |c| ==> c[i].hh_next == Nth(c, i + 1)
  }

  class Table {
    const hash: string -> nat
    var head: Item?
    var tail: Item?
    var buckets: array<Bucket>
    var num_buckets: nat
    var log2_num_buckets: nat
    var num_items: nat
    var ideal_chain_maxlen: nat
    var nonideal_items: nat
    var ineff_expands: nat
    var noexpand: bool
    ghost var items: seq<Item>
    ghost var chains: Chains
    ghost var repr: set<Item>

    // ---- HASH_EXPAND_BUCKETS

    /** The multipliers of the new buckets, as they are raised while items arrive. */
    ghost predicate Multipliers(b: array<Bucket>, cs: Chains, ideal: nat)
      reads b
    {
      b.Length == |cs| && forall k :: 0 <= k < |cs| ==> b[k].expand_mult == MultFor(|cs[k]|, ideal)
    }

    /** Move one item into its new bucket. */
    method MoveItem(newb: array<Bucket>, x: Item, ghost cs: Chains, ghost lg: nat)
      requires Hold(newb, cs, repr) && Placed(cs, lg) && !Has(cs, x) && x in repr
      requires newb.Length == 2 * num_buckets && Multipliers(newb, cs, ideal_chain_maxlen)
      modifies newb, this`nonideal_items, repr`hh_next, repr`hh_prev
      ensures Hold(newb, Push(cs, x), repr) && Multipliers(newb, Push(cs, x), ideal_chain_maxlen)
      ensures nonideal_items == old(nonideal_items) +
          Excess(Push(cs, x), ideal_chain_maxlen) - Excess(cs, ideal_chain_maxlen)
      ensures forall y :: y in repr && y != x && !Has(cs, y) ==> y.hh_next == old(y.hh_next)
    {
      hide ToBkt, Chain, Excess, NoDup;
      ToBktIsMod(x.hashv, lg);
      var k := ToBkt(x.hashv, num_buckets * 2);
      HasOwn(cs, lg, k);
      ExcessUpdate(cs, k, [x] + cs[k], ideal_chain_maxlen);
      var bkt := newb[k];
      bkt := bkt.(count := bkt.count + 1);
      if bkt.count > ideal_chain_maxlen {
        nonideal_items := nonideal_items + 1;
        if bkt.count > bkt.expand_mult * ideal_chain_maxlen {
          bkt := bkt.(expand_mult := bkt.expand_mult + 1);
        }
      }
      assert bkt.expand_mult == MultFor(|cs[k]| + 1, ideal_chain_maxlen);
      Hook(newb, k, x, bkt, cs, repr, lg);
    }

    /** Move chain i, item by item: the inner loop of HASH_EXPAND_BUCKETS. */
    method MoveChain(newb: array<Bucket>, i: nat, ghost cs: Chains, ghost lg: nat)
      requires newb != buckets && num_buckets == buckets.Length == |chains| && i < num_buckets
      requires Forward(buckets[i].hh_head, chains[i]) && forall y :: y in chains[i] ==> y in repr && !Has(cs, y)
      requires Hold(newb, cs, repr) && Placed(cs, lg)
      requires newb.Length == |cs| == 2 * num_buckets && Multipliers(newb, cs, ideal_chain_maxlen)
      modifies newb, this`nonideal_items, repr`hh_next, repr`hh_prev
      ensures Hold(newb, PushAll(cs, chains[i]), repr) && Placed(PushAll(cs, chains[i]), lg)
      ensures Multipliers(newb, PushAll(cs, chains[i]), ideal_chain_maxlen)
      ensures nonideal_items == old(nonideal_items)
                + Excess(PushAll(cs, chains[i]), ideal_chain_maxlen) - Excess(cs, ideal_chain_maxlen)
      ensures forall y :: y in repr && !Has(PushAll(cs, chains[i]), y) ==> y.hh_next == old(y.hh_next)
    {
      hide Has, Placed, Hold, Multipliers, Excess, Push;
      ghost var c, m, cur := chains[i], 0, cs;
      var thh := buckets[i].hh_head;
      assert c[m..] == c;
      while thh != null
        invariant 0 <= m <= |c| && thh == Nth(c, m)
        invariant |cur| == |cs| && Hold(newb, cur, repr) && Placed(cur, lg) &&
            Multipliers(newb, cur, ideal_chain_maxlen)
        invariant PushAll(cur, c[m..]) == PushAll(cs, c)
        invariant nonideal_items == old(nonideal_items) +
            Excess(cur, ideal_chain_maxlen) - Excess(cs, ideal_chain_maxlen)
        invariant forall j :: m <= j < |c| ==> !Has(cur, c[j])
        invariant forall y :: y in repr && !Has(cur, y) ==> y.hh_next == old(y.hh_next)
        decreases |c| - m
      {
        var hh_nxt := thh.hh_next;
        PushPlaced(cur, c[m], lg);
        MoveItem(newb, thh, cur, lg);
        assert c[m..][0] == c[m] && c[m..][1..] == c[m + 1..];
        cur, m := Push(cur, c[m]), m + 1;
        thh := hh_nxt;
      }
    }

    /** What the bucket side of the table promises. */
    ghost predicate Bucketed()
      reads this`buckets, this`chains, this`repr, this`num_buckets, this`log2_num_buckets, this`num_items
      reads buckets, repr`hh_next, repr`hh_prev
    {
      && Hold(buckets, chains, repr) && Placed(chains, log2_num_buckets)
      && num_buckets == |chains| && SumLens(chains) == num_items
    }

    /** The two loops of HASH_EXPAND_BUCKETS. */
    method MoveAll(newb: array<Bucket>, ghost lg: nat)
      requires Bucketed() && newb != buckets && lg == log2_num_buckets + 1 && nonideal_items == 0
      requires newb.Length == 2 * num_buckets && forall k :: 0 <= k < newb.Length ==> newb[k] == Bucket(null, 0, 0)
      modifies newb, this`nonideal_items, repr`hh_next, repr`hh_prev
      ensures var cs := Rehash(chains, num_buckets, 2 * num_buckets);
              && Hold(newb, cs, repr) && Placed(cs, lg) && SumLens(cs) == num_items
              && Multipliers(newb, cs, ideal_chain_maxlen) && nonideal_items == Excess(cs, ideal_chain_maxlen)
    {
      hide Placed, SumLens, Excess, Push, PushAll, ToBkt, Pow2, Multipliers, Has, NoDup;
      ghost var from, n, cs := chains, num_buckets, Empties(2 * num_buckets);
      Sizes();
      EmptyHold(newb);
      for i := 0 to num_buckets
        invariant cs == Rehash(from, i, 2 * n) && |cs| == 2 * n
        invariant Hold(newb, cs, repr) && Placed(cs, lg) && Multipliers(newb, cs, ideal_chain_maxlen)
        invariant nonideal_items == Excess(cs, ideal_chain_maxlen)
        invariant forall y :: y in repr && !Has(cs, y) ==> y.hh_next == old(y.hh_next)
      {
        RehashPlaced(from, i, lg - 1, lg);
        Untouched(from, lg - 1, i, cs);
        assert Forward(buckets[i].hh_head, from[i]) by {
          forall j | 0 <= j < |from[i]| ensures from[i][j].hh_next == Nth(from[i], j + 1) {
            assert from[i][j] in from[i] && old(from[i][j].hh_next) == Nth(from[i], j + 1);
          }
        }
        PushAllPlaced(cs, from[i], lg);
        MoveChain(newb, i, cs, lg);
        cs := PushAll(cs, from[i]);
      }
      RehashSum(from, n, lg - 1, lg);
      assert from[..n] == from;
    }

    lemma Sizes()
      requires Bucketed()
      ensures num_buckets == Pow2(log2_num_buckets) && 2 * num_buckets == Pow2(log2_num_buckets + 1)
      ensures forall k, x :: 0 <= k < num_buckets && x in chains[k] ==> x in repr
    {
    }

    lemma EmptyHold(newb: array<Bucket>)
      requires Bucketed()
      requires newb.Length == 2 * num_buckets && forall k :: 0 <= k < newb.Length ==> newb[k] == Bucket(null, 0, 0)
      ensures var cs := Empties(2 * num_buckets);
              && Hold(newb, cs, repr) && Placed(cs, log2_num_buckets + 1) && (forall x :: !Has(cs, x))
              && Multipliers(newb, cs, ideal_chain_maxlen) && Excess(cs, ideal_chain_maxlen) == 0
    {
      EmptiesPlaced(log2_num_buckets + 1);
      EmptiesSums(2 * num_buckets, ideal_chain_maxlen);
    }

    /** HASH_EXPAND_BUCKETS, up to the new bucket array */
    method Redistribute()
      requires Bucketed()
      modifies this`buckets, this`num_buckets, this`log2_num_buckets, this`ideal_chain_maxlen, this`nonideal_items,
               this`chains, repr`hh_next, repr`hh_prev
      ensures Bucketed() && fresh(buckets)
      ensures chains == Rehash(old(chains), old(num_buckets), 2 * old(num_buckets))
      ensures num_buckets == 2 * old(num_buckets) && log2_num_buckets == old(log2_num_buckets) + 1
      ensures ideal_chain_maxlen == CeilDiv(num_items, num_buckets)
      ensures nonideal_items == Excess(chains, ideal_chain_maxlen)
      ensures Multipliers(buckets, chains, ideal_chain_maxlen)
    {
      hide CeilDiv, Placed, SumLens, Excess, Rehash, Hold, Multipliers, And, Shr, Pow2, Has, ToBkt;
      Sizes();
      CeilByShift(num_items, log2_num_buckets + 1);
      var newb := new Bucket[2 * num_buckets](_ => Bucket(null, 0, 0));
      ideal_chain_maxlen := Shr(num_items, log2_num_buckets + 1)
                            + if And(num_items, num_buckets * 2 - 1) != 0 then 1 else 0;
      nonideal_items := 0;
      MoveAll(newb, log2_num_buckets + 1);
      chains := Rehash(chains, num_buckets, 2 * num_buckets);
      num_buckets := num_buckets * 2;
      log2_num_buckets := log2_num_buckets + 1;
      buckets := newb;
    }

    /** HASH_EXPAND_BUCKETS */
    method ExpandBuckets()
      requires Bucketed()
      modifies this`buckets, this`num_buckets, this`log2_num_buckets, this`ideal_chain_maxlen, this`nonideal_items,
               this`ineff_expands, this`noexpand, this`chains, repr`hh_next, repr`hh_prev
      ensures Bucketed() && fresh(buckets)
      ensures chains == Rehash(old(chains), old(num_buckets), 2 * old(num_buckets))
      ensures num_buckets == 2 * old(num_buckets) && log2_num_buckets == old(log2_num_buckets) + 1
      ensures ideal_chain_maxlen == CeilDiv(num_items, num_buckets)
      ensures nonideal_items == Excess(chains, ideal_chain_maxlen)
      ensures Multipliers(buckets, chains, ideal_chain_maxlen)
      ensures ineff_expands == (if nonideal_items > num_items / 2 then old(ineff_expands) + 1 else 0)
      ensures noexpand == (ineff_expands > 1 || old(noexpand))
    {
      hide CeilDiv, Placed, SumLens, Excess, Rehash, Hold, Multipliers, Bucketed;
      Redistribute();
      assert Shr(num_items, 1) == num_items / 2;
      ineff_expands := if nonideal_items > Shr(num_items, 1) then ineff_expands + 1 else 0;
      if ineff_expands > 1 {
        noexpand := true;
      }
    }

    // ---- the table as a whole

    /** Every item carries the hash of its key, and no two items share a key. */
    ghost predicate Keyed(s: seq<Item>) {
      && (forall x :: x in s ==> x.hashv == hash(x.key))
      && (forall i, j :: 0 <= i < j < |s| ==> s[i].key != s[j].key)
    }

    ghost predicate Lists(s: seq<Item>, r: set<Item>) {
      (forall x :: x in s ==> x in r) && (forall x :: x in r ==> x in s)
    }

    /** All that HASH_FSCK checks, every item in its bucket, and distinct keys. No head means no table. */
    ghost predicate Valid()
      reads this, buckets, repr
    {
      && Lists(items, repr)
      && AppList(head, tail, items) && Keyed(items)
      && (head != null ==> Bucketed() && num_items == |items| && forall x :: x in repr ==> Has(chains, x))
    }

    constructor (hash: string -> nat)
      ensures Valid() && items == [] && this.hash == hash
    {
      this.hash := hash;
      head, tail := null, null;
      buckets := new Bucket[0];
      num_buckets, log2_num_buckets, num_items := 0, 0, 0;
      ideal_chain_maxlen, nonideal_items, ineff_expands, noexpand := 0, 0, 0, false;
      items, chains, repr := [], [], {};
    }

    /** The bucket of a key: its chain holds every item with that key, and only items of the table. */
    lemma BucketOf(key: string)
      requires Valid() && head != null
      ensures num_buckets > 0
      ensures var bkt := ToBkt(hash(key), num_buckets);
              && bkt < buckets.Length && bkt < |chains| && Chain(buckets[bkt].hh_head, chains[bkt])
              && (forall x :: x in chains[bkt] ==> x in items && x.hashv == hash(x.key))
              && (forall x :: x in items && x.key == key ==> x in chains[bkt])
    {
      hide AppList, Chain, NoDup, SumLens, Pow2, ToBkt;
      ToBktIsMod(hash(key), log2_num_buckets);
      Sizes();
      forall x | x in chains[ToBkt(hash(key), num_buckets)] ensures x in items { assert x in repr; }
    }

    /** HASH_FIND and HASH_FIND_IN_BKT */
    method Find(key: string) returns (out: Item?)
      requires Valid()
      ensures out != null ==> out in items && out.key == key
      ensures out == null ==> forall x :: x in items ==> x.key != key
    {
      hide Bucketed, Keyed, ToBkt;
      out := null;
      if head != null {
        BucketOf(key);
        var bkt := ToBkt(hash(key), num_buckets);
        ghost var c, m := chains[bkt], 0;
        out := buckets[bkt].hh_head;
        while out != null
          invariant 0 <= m <= |c| && out == Nth(c, m)
          invariant forall x :: x in c[..m] ==> x.key != key
          decreases |c| - m
        {
          assert c[m] in c;
          if out.hashv == hash(key) && out.key == key {
            return;
          }
          assert out.hh_next == Nth(c, m + 1) by { assert c[m].hh_next == Nth(c, m + 1); }
          assert c[..m + 1] == c[..m] + [c[m]];
          out := out.hh_next;
          m := m + 1;
        }
        assert c[..m] == c;
      }
    }

    /** HASH_APPEND_LIST */
    method AppendList(add: Item)
      requires head != null && AppList(head, tail, items) && add !in items
      modifies this`tail, add`next, add`prev, items`next
      ensures AppList(head, tail, items + [add])
    {
      add.next := null;
      add.prev := tail;
      tail.next := add;
      tail := add;
      ghost var s := items + [add];
      forall i | 0 <= i < |s| ensures s[i].next == Nth(s, i + 1) && s[i].prev == Nth(s, i - 1) {
        if i < |items| {
          assert items[i] in items && old(items[i].next) == Nth(items, i + 1) &&
              old(items[i].prev) == Nth(items, i - 1);
        }
      }
    }

    /** The bucket is due for a doubling when one more item arrives. */
    predicate Full(b: Bucket) {
      b.count + 1 >= (b.expand_mult + 1) * BKT_CAPACITY_THRESH
    }

    /** HASH_ADD_TO_BKT up to the test for a doubling; the item is already counted in num_items. */
    method PushBkt(add: Item, k: nat)
      requires Hold(buckets, chains, repr) && Placed(chains, log2_num_buckets) && !Has(chains, add) && add in repr
      requires num_buckets == |chains| && SumLens(chains) + 1 == num_items
      requires k == ToBkt(add.hashv, num_buckets) < buckets.Length
      modifies this`chains, buckets, repr`hh_next, repr`hh_prev
      ensures Bucketed() && chains == Push(old(chains), add)
      ensures forall x :: x in repr ==> (Has(chains, x) <==> Has(old(chains), x) || x == add)
    {
      hide SumLens, ToBkt, Push, Has, Placed;
      HasOwn(chains, log2_num_buckets, k);
      var bkt := buckets[k];
      Hook(buckets, k, add, bkt.(count := bkt.count + 1), chains, repr, log2_num_buckets);
      PushPlaced(chains, add, log2_num_buckets);
      chains := Push(chains, add);
    }

    /** HASH_ADD_TO_BKT */
    method AddToBkt(add: Item)
      requires Hold(buckets, chains, repr) && Placed(chains, log2_num_buckets) && !Has(chains, add) && add in repr
      requires num_buckets == |chains| && SumLens(chains) + 1 == num_items
      requires num_buckets > 0 && ToBkt(add.hashv, num_buckets) < buckets.Length
      modifies this`buckets, this`num_buckets, this`log2_num_buckets, this`ideal_chain_maxlen, this`nonideal_items,
               this`ineff_expands, this`noexpand, this`chains, buckets, repr`hh_next, repr`hh_prev
      ensures Bucketed() && (buckets == old(buckets) || fresh(buckets))
      ensures var cs := Push(old(chains), add);
              chains == if Full(old(buckets[ToBkt(add.hashv, num_buckets)])) && !old(noexpand)
                        then Rehash(cs, |cs|, 2 * |cs|) else cs
      ensures forall x :: x in repr ==> (Has(chains, x) <==> Has(old(chains), x) || x == add)
    {
      hide SumLens, ToBkt, Push, Has, Placed, Hold, Rehash;
      var bkt := buckets[ToBkt(add.hashv, num_buckets)];
      PushBkt(add, ToBkt(add.hashv, num_buckets));
      ghost var cs, lg := chains, log2_num_buckets;
      if bkt.count + 1 >= (bkt.expand_mult + 1) * BKT_CAPACITY_THRESH && !noexpand {
        ExpandBuckets();
        AllMoved(cs, lg);
      }
    }

    /** HASH_MAKE_TABLE */
    method MakeTable(add: Item)
      modifies this
      ensures head == add && tail == add && items == old(items) && repr == old(repr)
      ensures fresh(buckets) && buckets.Length == num_buckets == INITIAL_NUM_BUCKETS
      ensures log2_num_buckets == INITIAL_NUM_BUCKETS_LOG2
      ensures forall k :: 0 <= k < buckets.Length ==> buckets[k] == Bucket(null, 0, 0)
      ensures chains == Empties(INITIAL_NUM_BUCKETS) && num_items == 0
      ensures ideal_chain_maxlen == nonideal_items == ineff_expands == 0 && !noexpand
    {
      var b := new Bucket[INITIAL_NUM_BUCKETS](_ => Bucket(null, 0, 0));
      tail := add;
      num_buckets, log2_num_buckets, num_items := INITIAL_NUM_BUCKETS, INITIAL_NUM_BUCKETS_LOG2, 0;
      ideal_chain_maxlen, nonideal_items, ineff_expands, noexpand := 0, 0, 0, false;
      buckets, head, chains := b, add, Empties(INITIAL_NUM_BUCKETS);
    }

    /** The bucket side is ready for a new item. */
    ghost predicate Ready(add: Item, r: set<Item>)
      reads this`buckets, this`chains, this`num_buckets, this`log2_num_buckets, this`num_items
      reads buckets, r`hh_next, r`hh_prev
    {
      && Hold(buckets, chains, r) && Placed(chains, log2_num_buckets) && !Has(chains, add)
      && num_buckets == |chains| > 0 && SumLens(chains) == num_items
      && ToBkt(add.hashv, num_buckets) < buckets.Length
      && forall x :: x in r && x != add ==> Has(chains, x)
    }

    lemma NewTable(add: Item)
      requires buckets.Length == num_buckets == INITIAL_NUM_BUCKETS && log2_num_buckets == INITIAL_NUM_BUCKETS_LOG2
      requires forall k :: 0 <= k < buckets.Length ==> buckets[k] == Bucket(null, 0, 0)
      requires chains == Empties(INITIAL_NUM_BUCKETS) && num_items == 0
      ensures Ready(add, {add})
    {
      assert Pow2(3) == 8;
      assert Pow2(5) == 32;
      EmptiesPlaced(5);
      EmptiesSums(32, 0);
      ToBktIsMod(add.hashv, 5);
    }

    lemma OldTable(add: Item)
      requires Valid() && head != null
      requires forall x :: x in items ==> x.key != add.key
      ensures add !in items && Ready(add, repr + {add})
    {
      hide AppList, Chain, NoDup, SumLens, ToBkt, Pow2;
      ToBktIsMod(add.hashv, log2_num_buckets);
      Sizes();
      assert add !in repr;
    }

    lemma KeyedSnoc(s: seq<Item>, add: Item)
      requires Keyed(s) && add.hashv == hash(add.key) && forall x :: x in s ==> x.key != add.key
      ensures Keyed(s + [add])
    {
    }

    lemma OneItem(add: Item)
      requires add.next == null && add.prev == null
      ensures AppList(add, add, [add]) && [] + [add] == [add]
    {
    }

    /** HASH_ADD_TO_TABLE */
    method AddToTable(add: Item)
      requires Ready(add, repr) && add in repr
      modifies this`buckets, this`num_buckets, this`log2_num_buckets, this`ideal_chain_maxlen, this`nonideal_items,
               this`ineff_expands, this`noexpand, this`chains, this`num_items, buckets, repr`hh_next, repr`hh_prev
      ensures Bucketed() && num_items == old(num_items) + 1 && (buckets == old(buckets) || fresh(buckets))
      ensures forall x :: x in repr ==> Has(chains, x)
    {
      hide SumLens, ToBkt, Push, Has, Placed, Hold, Rehash, Bucketed;
      num_items := num_items + 1;
      AddToBkt(add);
    }

    /** The application-order half of an addition, with the table made when there is none. */
    method ListItem(add: Item)
      requires Valid() && add.hashv == hash(add.key)
      requires forall x :: x in items ==> x.key != add.key
      modifies this, repr, add
      ensures head != null && AppList(head, tail, items) && Ready(add, repr) && Keyed(items)
      ensures items == old(items) + [add] && num_items == |old(items)| && repr == old(repr) + {add}
      ensures forall x :: x in items <==> x in repr
      ensures buckets == old(buckets) || fresh(buckets)
    {
      hide Keyed, Ready, Bucketed, Has, AppList, NoDup;
      KeyedSnoc(items, add);
      ListNoDup();
      HeadOrNone();
      if head == null {
        add.next, add.prev := null, null;
        MakeTable(add);
        NewTable(add);
        OneItem(add);
        repr := {add};
      } else {
        OldTable(add);
        AppendList(add);
        repr := repr + {add};
      }
      items := items + [add];
    }

    lemma HeadOrNone()
      requires AppList(head, tail, items)
      ensures head == null <==> items == []
    {
    }

    /** HASH_ADD_KEYPTR_BYHASHVALUE, for an item whose key is new */
    method Add(add: Item)
      requires Valid() && add.hashv == hash(add.key)
      requires forall x :: x in items ==> x.key != add.key
      modifies this, buckets, repr, add
      ensures Valid() && items == old(items) + [add]
      ensures buckets == old(buckets) || fresh(buckets)
    {
      hide Keyed, Ready, Bucketed, Has, AppList;
      ListItem(add);
      AddToTable(add);
    }

    /** The application-order half of HASH_DELETE_HH, for an item that is not alone. */
    method Unlink(del: Item, ghost i: nat)
      requires AppList(head, tail, items) && i < |items| && items[i] == del && |items| > 1
      modifies this`head, this`tail, items`next, items`prev
      ensures AppList(head, tail, Drop(items, i))
    {
      assert del.next == Nth(items, i + 1) && del.prev == Nth(items, i - 1) by { assert items[i].next == del.next; }
      DropNth(items, i);
      DropEnds(items, i);
      hide Drop;
      if del == tail {
        tail := del.prev;
      }
      if del.prev == null {
        head := del.next;
      }
      Join(del.prev, del.next);
      forall k | 0 <= k < |items| && k != i ensures Around(items, i, k) {
        assert old(items[k].next) == Nth(items, k + 1) && old(items[k].prev) == Nth(items, k - 1);
      }
      Relinked(items, i);
    }

    /** The links of element k when element i has been taken out from between its neighbours. */
    ghost predicate Around(s: seq<Item>, i: nat, k: nat)
      requires i < |s| && k < |s|
      reads s`next, s`prev
    {
      && s[k].next == (if k + 1 == i then Nth(s, i + 1) else Nth(s, k + 1))
      && s[k].prev == (if k == i + 1 then Nth(s, i - 1) else Nth(s, k - 1))
    }

    lemma Relinked(s: seq<Item>, i: nat)
      requires NoDup(s) && i < |s| && forall k :: 0 <= k < |s| && k != i ==> Around(s, i, k)
      ensures var r := Drop(s, i);
              forall j {:trigger r[j].next} {:trigger r[j].prev} :: 0 <= j < |r| ==>
                r[j].next == Nth(r, j + 1) && r[j].prev == Nth(r, j - 1)
    {
      var r := Drop(s, i);
      forall j | 0 <= j < |r| ensures r[j].next == Nth(r, j + 1) && r[j].prev == Nth(r, j - 1) {
        assert Around(s, i, if j < i then j else j + 1);
      }
    }

    /** The ends of the list when element i is dropped. */
    lemma DropEnds(s: seq<Item>, i: nat)
      requires NoDup(s) && i < |s|
      ensures var r := Drop(s, i);
              && Nth(r, 0) == (if i == 0 then Nth(s, 1) else s[0])
              && Nth(r, |r| - 1) == (if i == |s| - 1 then Nth(s, i - 1) else s[|s| - 1])
    {
    }

    /** The bucket half of HASH_DELETE_HH. */
    method DelFromTable(del: Item)
      requires Bucketed() && Has(chains, del)
      modifies this`chains, this`num_items, this`repr, buckets, repr`hh_next, repr`hh_prev
      ensures Bucketed() && num_items == old(num_items) - 1 && repr == old(repr) - {del}
      ensures forall x :: x in repr ==> (Has(chains, x) <==> Has(old(chains), x))
    {
      hide SumLens, Hold, Placed, ToBkt, Chain;
      var k := ToBkt(del.hashv, num_buckets);
      ghost var cs := chains;
      ghost var j :| 0 <= j < |cs[k]| && cs[k][j] == del;
      Fits(k);
      DelInBkt(buckets, k, del, j, cs, repr, log2_num_buckets);
      DropPlaced(cs, log2_num_buckets, k, j);
      chains := cs[k := Drop(cs[k], j)];
      num_items := num_items - 1;
      HoldLess(buckets, chains, repr, log2_num_buckets, del);
      repr := repr - {del};
    }

    lemma Fits(k: nat)
      requires Bucketed() && k < |chains| && chains[k] != []
      ensures buckets.Length == |chains| && num_items > 0 && forall x :: x in chains[k] ==> x in repr
    {
      SumLensUpdate(chains, k, []);
    }

    lemma HoldLess(b: array<Bucket>, cs: Chains, r: set<Item>, lg: nat, del: Item)
      requires Hold(b, cs, r) && Placed(cs, lg) && !Has(cs, del)
      ensures Hold(b, cs, r - {del})
    {
    }

    lemma ListNoDup()
      requires Valid()
      ensures NoDup(items) && (head == null <==> items == [])
    {
    }

    /** The branch of HASH_DELETE_HH for an item that is not alone. */
    method DeleteOther(del: Item, ghost i: nat)
      requires Valid() && i < |items| && items[i] == del && |items| > 1
      modifies this, buckets, repr
      ensures Valid() && items == Drop(old(items), i) && buckets == old(buckets)
    {
      hide Keyed, Bucketed, Has, Drop, NoDup, AppList, Nth;
      ListNoDup();
      KeyedDrop(items, i);
      DropLists(items, i, repr);
      assert Has(chains, del);
      ghost var rest := Drop(items, i);
      DropNth(items, i);
      Unlink(del, i);
      assert AppList(head, tail, rest);
      DelFromTable(del);
      assert AppList(head, tail, rest);
      items := rest;
    }

    /** HASH_DELETE_HH */
    method Delete(del: Item)
      requires Valid() && del in items
      modifies this, buckets, repr
      ensures Valid() && items == Without(old(items), del)
      ensures buckets == old(buckets)
    {
      hide Keyed, Bucketed, Has, Drop, Without;
      ghost var i :| 0 <= i < |items| && items[i] == del;
      WithoutIsDrop(items, i);
      DropNth(items, i);
      KeyedDrop(items, i);
      assert items[i].next == Nth(items, i + 1) && items[i].prev == Nth(items, i - 1);
      if del.prev == null && del.next == null {
        head, tail, repr, items := null, null, {}, [];
      } else {
        DeleteOther(del, i);
      }
    }

    lemma DropLists(s: seq<Item>, i: nat, r: set<Item>)
      requires NoDup(s) && i < |s| && Lists(s, r)
      ensures Lists(Drop(s, i), r - {s[i]}) && s[i] in r && |Drop(s, i)| == |s| - 1
    {
      DropNth(s, i);
    }

    lemma KeyedDrop(s: seq<Item>, i: nat)
      requires Keyed(s) && i < |s| && NoDup(s)
      ensures Keyed(Drop(s, i))
    {
      DropNth(s, i);
    }

    // ---- walks over the whole table

    /** HASH_ITER: the items in application order. */
    method Iterate() returns (out: seq<Item>)
      requires Valid()
      ensures out == items
    {
      hide Bucketed, Keyed;
      out := [];
      var el := head;
      while el != null
        invariant |out| <= |items| && out == items[..|out|] && el == Nth(items, |out|)
        decreases |items| - |out|
      {
        assert items[|out|].next == Nth(items, |out| + 1);
        out := out + [el];
        el := el.next;
      }
    }

    /** One bucket's part of HASH_FSCK. */
    method FsckBucket(i: nat, ghost c: seq<Item>) returns (ok: bool, bkt_count: nat)
      requires i < buckets.Length && Chain(buckets[i].hh_head, c) && buckets[i].count == |c|
      ensures ok && bkt_count == |c|
    {
      bkt_count := 0;
      var thh := buckets[i].hh_head;
      var prev: Item? := null;
      while thh != null
        invariant bkt_count <= |c| && thh == Nth(c, bkt_count) && prev == Nth(c, bkt_count - 1)
        decreases |c| - bkt_count
      {
        assert c[bkt_count].hh_prev == prev && c[bkt_count].hh_next == Nth(c, bkt_count + 1);
        if prev != thh.hh_prev {
          return false, bkt_count;
        }
        bkt_count := bkt_count + 1;
        prev := thh;
        thh := thh.hh_next;
      }
      ok := buckets[i].count == bkt_count;
    }

    /** HASH_FSCK finds no fault in a valid table. */
    method Fsck() returns (ok: bool)
      requires Valid()
      ensures ok
    {
      if head == null {
        return true;
      }
      hide Keyed, Chain, AppList, Placed;
      var count := 0;
      for i := 0 to num_buckets
        invariant count == SumLens(chains[..i])
      {
        var fine, bkt_count := FsckBucket(i, chains[i]);
        if !fine {
          return false;
        }
        SumLensSnoc(chains[..i], chains[i]);
        assert chains[..i + 1] == chains[..i] + [chains[i]];
        count := count + bkt_count;
      }
      assert chains[..num_buckets] == chains;
      if count != num_items {
        return false;
      }
      ok := FsckList();
    }

    /** The application-order part of HASH_FSCK. */
    method FsckList() returns (ok: bool)
      requires AppList(head, tail, items) && num_items == |items|
      ensures ok
    {
      var count := 0;
      var prev: Item? := null;
      var thh := head;
      while thh != null
        invariant count <= |items| && thh == Nth(items, count) && prev == Nth(items, count - 1)
        decreases |items| - count
      {
        assert items[count].prev == prev && items[count].next == Nth(items, count + 1);
        count := count + 1;
        if prev != thh.prev {
          return false;
        }
        prev := thh;
        thh := thh.next;
      }
      ok := count == num_items;
    }
  }
}
