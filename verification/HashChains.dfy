/** The items of a hash table, its two kinds of lists, and what redistribution does to the chains. */
module HashChains {
  import opened Basics
  import opened Bits

  /** An element and its handle. Keys are unique in a table, so a key stands for all an element holds. */
  class Item {
    const key: string
    const hashv: nat
    var next: Item?
    var prev: Item?
    var hh_next: Item?
    var hh_prev: Item?

    constructor (key: string, hashv: nat)
      ensures this.key == key && this.hashv == hashv
    {
      this.key, this.hashv := key, hashv;
      next, prev, hh_next, hh_prev := null, null, null, null;
    }
  }

  datatype Bucket = Bucket(hh_head: Item?, count: nat, expand_mult: nat)

  /** Element i, or null outside the list. */
  function Nth(s: seq<Item>, i: int): Item? {
    if 0 <= i < |s| then s[i] else null
  }

  /** The application-order list: links in both directions, first and last element. */
  ghost predicate AppList(head: Item?, tail: Item?, s: seq<Item>)
    reads s`next, s`prev
  {
    && NoDup(s)
    && head == Nth(s, 0) && tail == Nth(s, |s| - 1)
    && forall i {:trigger s[i].next} {:trigger s[i].prev} :: 0 <= i < |s| ==>
        s[i].next == Nth(s, i + 1) && s[i].prev == Nth(s, i - 1)
  }

  /** A bucket's chain: links in both directions. */
  ghost predicate Chain(hh_head: Item?, s: seq<Item>)
    reads s`hh_next, s`hh_prev
  {
    && NoDup(s)
    && hh_head == Nth(s, 0)
    && forall i {:trigger s[i].hh_next} {:trigger s[i].hh_prev} :: 0 <= i < |s| ==>
        s[i].hh_next == Nth(s, i + 1) && s[i].hh_prev == Nth(s, i - 1)
  }

  /** HASH_TO_BKT */
  function ToBkt(hashv: nat, num_bkts: nat): (b: nat)
    requires num_bkts > 0
  {
    And(hashv, num_bkts - 1)
  }

  lemma DropCons(s: seq<Item>, i: nat)
    requires 0 < i < |s|
    ensures Drop(s, i) == [s[0]] + Drop(s[1..], i - 1)
  {
    assert s[1..][..i - 1] == s[1..i] && s[1..][i..] == s[i + 1..];
  }

  lemma {:induction false} WithoutIsDrop(s: seq<Item>, i: nat)
    requires NoDup(s) && i < |s|
    ensures Without(s, s[i]) == Drop(s, i)
  {
    if i == 0 {
      assert s[..0] == [];
    } else {
      assert s[0] != s[i] && s[1..][i - 1] == s[i];
      hide Drop;
      DropCons(s, i);
      WithoutIsDrop(s[1..], i - 1);
    }
  }

  lemma DropNth(s: seq<Item>, i: nat)
    requires NoDup(s) && i < |s|
    ensures NoDup(Drop(s, i)) && |Drop(s, i)| == |s| - 1
    ensures forall x :: x in Drop(s, i) <==> x in s && x != s[i]
    ensures forall j :: 0 <= j < |s| - 1 ==> Drop(s, i)[j] == s[if j < i then j else j + 1]
  {
    var r := Drop(s, i);
    assert forall j :: 0 <= j < |s| - 1 ==> r[j] == s[if j < i then j else j + 1];
    forall x | x in s && x != s[i] ensures x in r {
      var j :| 0 <= j < |s| && s[j] == x;
      assert r[if j < i then j else j - 1] == x;
    }
  }

  type Chains = seq<seq<Item>>

  function SumLens(cs: Chains): nat {
    if cs == [] then 0 else |cs[0]| + SumLens(cs[1..])
  }

  /** Items beyond the ideal length, over all chains. */
  function Excess(cs: Chains, ideal: nat): nat {
    if cs == [] then 0 else BeyondIdeal(|cs[0]|, ideal) + Excess(cs[1..], ideal)
  }

  function BeyondIdeal(len: nat, ideal: nat): nat { if len > ideal then len - ideal else 0 }

  /** The multiplier a new bucket ends up with when `len` items are put into it one by one. */
  function MultFor(len: nat, ideal: nat): nat {
    if len == 0 then 0
    else
      var m := MultFor(len - 1, ideal);
      if len > ideal && len > m * ideal then m + 1 else m
  }

  function Empties(n: nat): Chains { seq(n, _ => []) }

  function Push(cs: Chains, x: Item): (r: Chains)
    requires |cs| > 0
    ensures |r| == |cs|
  {
    var k := ToBkt(x.hashv, |cs|);
    if k < |cs| then cs[k := [x] + cs[k]] else cs
  }

  /** Put the items of c, in order, at the heads of their chains. */
  function PushAll(cs: Chains, c: seq<Item>): (r: Chains)
    requires |cs| > 0
    ensures |r| == |cs|
    decreases |c|
  {
    if c == [] then cs else PushAll(Push(cs, c[0]), c[1..])
  }

  /** Redistribute the first i chains of `from` over n chains. */
  function Rehash(from: Chains, i: nat, n: nat): (r: Chains)
    requires i <= |from| && n > 0
    ensures |r| == n
  {
    if i == 0 then Empties(n) else PushAll(Rehash(from, i - 1, n), from[i - 1])
  }

  // ---- sums

  lemma {:induction false} SumLensUpdate(cs: Chains, k: nat, c: seq<Item>)
    requires k < |cs|
    ensures SumLens(cs[k := c]) == SumLens(cs) - |cs[k]| + |c|
  {
    if k > 0 {
      SumLensUpdate(cs[1..], k - 1, c);
      assert cs[k := c][1..] == cs[1..][k - 1 := c];
    } else {
      assert cs[k := c][1..] == cs[1..];
    }
  }

  lemma {:induction false} ExcessUpdate(cs: Chains, k: nat, c: seq<Item>, ideal: nat)
    requires k < |cs|
    ensures Excess(cs[k := c], ideal) == Excess(cs, ideal) - BeyondIdeal(|cs[k]|, ideal) + BeyondIdeal(|c|, ideal)
  {
    if k > 0 {
      ExcessUpdate(cs[1..], k - 1, c, ideal);
      assert cs[k := c][1..] == cs[1..][k - 1 := c];
    } else {
      assert cs[k := c][1..] == cs[1..];
    }
  }

  lemma {:induction false} EmptiesSums(n: nat, ideal: nat)
    ensures SumLens(Empties(n)) == 0 && Excess(Empties(n), ideal) == 0
  {
    if n > 0 {
      assert Empties(n)[1..] == Empties(n - 1);
      EmptiesSums(n - 1, ideal);
    }
  }

  // ---- redistribution

  lemma ToBktIsMod(hashv: nat, k: nat)
    ensures ToBkt(hashv, Pow2(k)) == hashv % Pow2(k) < Pow2(k)
  {
    AndMask(hashv, k);
  }

  /** Over a power of two of chains: every item of chain b belongs to bucket b, and no chain repeats an item. */
  ghost predicate Placed(cs: Chains, k: nat) {
    && |cs| == Pow2(k)
    && (forall b, x {:trigger x in cs[b]} :: 0 <= b < |cs| && x in cs[b] ==> ToBkt(x.hashv, |cs|) == b)
    && (forall b :: 0 <= b < |cs| ==> NoDup(cs[b]))
  }

  /** Different chains share no item. */
  lemma Apart(cs: Chains, lg: nat, j: nat, k: nat)
    requires Placed(cs, lg) && j < |cs| && k < |cs| && j != k
    ensures forall y :: y in cs[j] ==> y !in cs[k]
  {
    forall y | y in cs[j] ensures y !in cs[k] {
      assert ToBkt(y.hashv, |cs|) == j;
    }
  }

  /** x is in its chain. */
  ghost predicate Has(cs: Chains, x: Item) {
    |cs| > 0 && ToBkt(x.hashv, |cs|) < |cs| && x in cs[ToBkt(x.hashv, |cs|)]
  }

  lemma HasOwn(cs: Chains, lg: nat, k: nat)
    requires Placed(cs, lg) && k < |cs|
    ensures forall y :: y in cs[k] ==> Has(cs, y)
  {
  }

  lemma PushPlaced(cs: Chains, x: Item, k: nat)
    requires Placed(cs, k) && !Has(cs, x)
    ensures Placed(Push(cs, x), k)
    ensures forall y :: Has(Push(cs, x), y) <==> Has(cs, y) || y == x
    ensures SumLens(Push(cs, x)) == SumLens(cs) + 1
  {
    ToBktIsMod(x.hashv, k);
    var b := ToBkt(x.hashv, |cs|);
    var r := Push(cs, x);
    SumLensUpdate(cs, b, [x] + cs[b]);
    assert r[b] == [x] + cs[b];
    assert NoDup(r[b]) by { assert forall j :: 0 <= j < |cs[b]| ==> cs[b][j] in cs[b]; }
    forall y ensures Has(r, y) <==> Has(cs, y) || y == x {
      ToBktIsMod(y.hashv, k);
      assert y in [x] + cs[b] <==> y == x || y in cs[b];
    }
  }

  lemma DropPlaced(cs: Chains, lg: nat, k: nat, j: nat)
    requires Placed(cs, lg) && k < |cs| && j < |cs[k]|
    ensures var r := cs[k := Drop(cs[k], j)];
            && Placed(r, lg) && SumLens(r) == SumLens(cs) - 1
            && (forall y :: Has(r, y) <==> Has(cs, y) && y != cs[k][j])
  {
    var r := cs[k := Drop(cs[k], j)];
    DropNth(cs[k], j);
    SumLensUpdate(cs, k, Drop(cs[k], j));
    assert cs[k][j] in cs[k];
  }

  lemma {:induction false} PushAllPlaced(cs: Chains, c: seq<Item>, k: nat)
    requires Placed(cs, k) && NoDup(c) && forall x :: x in c ==> !Has(cs, x)
    ensures Placed(PushAll(cs, c), k)
    ensures forall y :: Has(PushAll(cs, c), y) <==> Has(cs, y) || y in c
    ensures SumLens(PushAll(cs, c)) == SumLens(cs) + |c|
    decreases |c|
  {
    if c != [] {
      PushPlaced(cs, c[0], k);
      assert NoDup(c[1..]) && forall x :: x in c[1..] ==> x in c && x != c[0];
      PushAllPlaced(Push(cs, c[0]), c[1..], k);
      assert forall y :: y in c <==> y == c[0] || y in c[1..];
    }
  }

  lemma EmptiesPlaced(k: nat)
    ensures Placed(Empties(Pow2(k)), k) && forall x :: !Has(Empties(Pow2(k)), x)
  {
  }

  /** The first i chains, redistributed: their items and no others, each in its new chain. */
  lemma {:induction false} RehashPlaced(from: Chains, i: nat, k: nat, k': nat)
    requires Placed(from, k) && i <= |from|
    ensures var to := Rehash(from, i, Pow2(k'));
            && Placed(to, k')
            && (forall x :: Has(to, x) <==> Has(from, x) && ToBkt(x.hashv, |from|) < i)
  {
    hide Rehash, PushAll, ToBkt, NoDup, Pow2;
    RehashUnfold(from, i, Pow2(k'));
    if i == 0 {
      EmptiesPlaced(k');
    } else {
      RehashPlaced(from, i - 1, k, k');
      var to := Rehash(from, i - 1, Pow2(k'));
      assert forall x :: x in from[i - 1] ==> ToBkt(x.hashv, |from|) == i - 1;
      PushAllPlaced(to, from[i - 1], k');
      forall x | Has(from, x) && ToBkt(x.hashv, |from|) == i - 1 ensures x in from[i - 1] { }
    }
  }

  /** The items of a chain that is not yet moved are in no new chain. */
  lemma Untouched(from: Chains, lg: nat, i: nat, to: Chains)
    requires Placed(from, lg) && i < |from|
    requires forall x :: Has(to, x) <==> Has(from, x) && ToBkt(x.hashv, |from|) < i
    ensures forall y :: y in from[i] ==> !Has(to, y)
  {
  }

  lemma RehashUnfold(from: Chains, i: nat, n: nat)
    requires i <= |from| && n > 0
    ensures Rehash(from, i, n) == if i == 0 then Empties(n) else PushAll(Rehash(from, i - 1, n), from[i - 1])
  {
  }

  lemma RehashStep(from: Chains, i: nat, k: nat, k': nat)
    requires Placed(from, k) && i < |from|
    ensures SumLens(Rehash(from, i + 1, Pow2(k'))) == SumLens(Rehash(from, i, Pow2(k'))) + |from[i]|
  {
    var to := Rehash(from, i, Pow2(k'));
    assert Rehash(from, i + 1, Pow2(k')) == PushAll(to, from[i]);
    RehashPlaced(from, i, k, k');
    hide Rehash, PushAll, SumLens;
    PushAllPlaced(to, from[i], k');
  }

  lemma {:induction false} RehashSum(from: Chains, i: nat, k: nat, k': nat)
    requires Placed(from, k) && i <= |from|
    ensures SumLens(Rehash(from, i, Pow2(k'))) == SumLens(from[..i])
  {
    hide SumLens, Rehash, Placed, Pow2;
    if i == 0 {
      NoneRehashed(from, Pow2(k'));
    } else {
      RehashSum(from, i - 1, k, k');
      RehashStep(from, i - 1, k, k');
      SumLensSnoc(from[..i - 1], from[i - 1]);
      assert from[..i] == from[..i - 1] + [from[i - 1]];
    }
  }

  lemma NoneRehashed(from: Chains, n: nat)
    requires n > 0
    ensures SumLens(Rehash(from, 0, n)) == 0 && SumLens(from[..0]) == 0
  {
    EmptiesSums(n, 0);
  }

  /** A redistribution over twice as many chains has the same items. */
  lemma AllMoved(from: Chains, lg: nat)
    requires Placed(from, lg)
    ensures |from| > 0 && forall x :: Has(Rehash(from, |from|, 2 * |from|), x) <==> Has(from, x)
  {
    RehashPlaced(from, |from|, lg, lg + 1);
  }

  lemma {:induction false} SumLensSnoc(cs: Chains, c: seq<Item>)
    ensures SumLens(cs + [c]) == SumLens(cs) + |c|
  {
    if cs != [] {
      assert (cs + [c])[1..] == cs[1..] + [c];
      SumLensSnoc(cs[1..], c);
    }
  }

  lemma PowDouble(k: nat)
    ensures Pow2(k + 1) == 2 * Pow2(k)
  {
  }

  /** Doubling: the same items, each moved once, to its old index or that plus the old number of buckets. */
  lemma Doubling(from: Chains, k: nat, x: Item, b: nat)
    requires Placed(from, k) && b < |from|
    ensures var to := Rehash(from, |from|, Pow2(k + 1));
            && Placed(to, k + 1) && SumLens(to) == SumLens(from)
            && (Has(to, x) <==> Has(from, x))
            && (x in from[b] <==> x in to[b] || x in to[b + |from|])
            && !(x in to[b] && x in to[b + |from|])
  {
    hide Rehash, SumLens, ToBkt, NoDup, Pow2;
    var n := |from|;
    var to := Rehash(from, n, Pow2(k + 1));
    RehashPlaced(from, n, k, k + 1);
    RehashSum(from, n, k, k + 1);
    assert from[..n] == from;
    ToBktIsMod(x.hashv, k);
    ToBktIsMod(x.hashv, k + 1);
    PowDouble(k);
    SplitMod(x.hashv, n);
  }
}
