/** HASH_SRT: the merge sort of a hash table's application-order list, in place. */
module HashSort {
  import opened Basics
  import opened HashChains
  import opened MergeSort
  import opened HashTable

  /** The list built so far: complete except for the last element's `next`, which is still stale. */
  ghost predicate Built(list: Item?, tail: Item?, out: seq<Item>)
    reads out`next, out`prev
  {
    && NoDup(out)
    && list == Nth(out, 0) && tail == Nth(out, |out| - 1)
    && forall i {:trigger out[i].next} {:trigger out[i].prev} :: 0 <= i < |out| ==>
         (i + 1 < |out| ==> out[i].next == out[i + 1]) && out[i].prev == Nth(out, i - 1)
  }

  /** Append one element to the list that is being built. */
  method Append(list: Item?, tail: Item?, e: Item, ghost out: seq<Item>, ghost repr: set<Item>) returns (list': Item?)
    requires Built(list, tail, out) && e !in out && e in repr && forall x :: x in out ==> x in repr
    modifies repr`next, repr`prev
    ensures Built(list', e, out + [e])
    ensures forall x :: x in repr && x != tail ==> x.next == old(x.next)
  {
    list' := list;
    if tail != null {
      tail.next := e;
    } else {
      list' := e;
    }
    e.prev := tail;
    ghost var r := out + [e];
    forall i | 0 <= i < |r| ensures (i + 1 < |r| ==> r[i].next == r[i + 1]) && r[i].prev == Nth(r, i - 1) {
      if i < |out| {
        assert r[i] == out[i] && out[i] in out && old(out[i].prev) == Nth(out, i - 1);
      }
    }
  }

  /** The items of s from index i up to j still have the successors they have in s. */
  ghost predicate Ahead(s: seq<Item>, i: nat, j: nat)
    reads s`next
  {
    forall k {:trigger s[k].next} :: i <= k < j && k < |s| ==> s[k].next == Nth(s, k + 1)
  }

  /** The items whose place is not decided yet: those left of the first run, and all from b on. */
  ghost predicate Open(s: seq<Item>, a: nat, mid: nat, b: nat, x: Item) {
    exists k {:trigger s[k]} :: 0 <= k < |s| && s[k] == x && (a <= k < mid || b <= k)
  }

  /** Where a merge of two runs stands: a..mid is left of the first run, b.. of the second and those after it. */
  ghost predicate Merging(list: Item?, tail: Item?, s: seq<Item>, out: seq<Item>, a: nat, mid: nat, b: nat,
                          repr: set<Item>)
    reads s`next, out`next, out`prev
  {
    && a <= mid <= b <= |s| && NoDup(s) && Built(list, tail, out)
    && (forall x :: x in s ==> x in repr) && (forall x :: x in out ==> x in repr)
    && (forall x :: x in out ==> !Open(s, a, mid, b, x))
    && Ahead(s, a, mid) && Ahead(s, b, |s|)
  }

  /** Take the next element, s[i], of one of the two runs. */
  method Take(list: Item?, tail: Item?, e: Item, ghost s: seq<Item>, ghost out: seq<Item>,
              ghost a: nat, ghost mid: nat, ghost b: nat, ghost left: bool,
                  ghost repr: set<Item>) returns (list': Item?)
    requires Merging(list, tail, s, out, a, mid, b, repr)
    requires if left then a < mid && e == s[a] else b < |s| && e == s[b]
    modifies repr`next, repr`prev
    ensures Merging(list', e, s, out + [e], if left then a + 1 else a, mid, if left then b else b + 1, repr)
  {
    hide Built, NoDup;
    ghost var a', b' := if left then a + 1 else a, if left then b else b + 1;
    assert Open(s, a, mid, b, e);
    TailIn(list, tail, out);
    list' := Append(list, tail, e, out, repr);
    Settled(s, a, mid, b, left);
    forall k | (a' <= k < mid || b' <= k < |s|) ensures s[k].next == Nth(s, k + 1) {
      assert Open(s, a, mid, b, s[k]);
      assert old(s[k].next) == Nth(s, k + 1);
    }
  }

  lemma TailIn(list: Item?, tail: Item?, out: seq<Item>)
    requires Built(list, tail, out)
    ensures tail != null ==> tail in out
  {
  }

  /** Once its place is decided an item is no longer open, and no item becomes open. */
  lemma Settled(s: seq<Item>, a: nat, mid: nat, b: nat, left: bool)
    requires NoDup(s) && a <= mid <= b <= |s| && (if left then a < mid else b < |s|)
    ensures var a', b' := if left then a + 1 else a, if left then b else b + 1;
            && !Open(s, a', mid, b', s[if left then a else b])
            && forall x {:trigger Open(s, a', mid, b', x)} :: Open(s, a', mid, b', x) ==> Open(s, a, mid, b, x)
  {
  }

  /** One step of a merge, on sequences. */
  lemma MergeStep(cmp: Cmp, s: seq<Item>, a: nat, mid: nat, b: nat, end: nat)
    requires a <= mid <= b <= end <= |s| && (a < mid || b < end)
    ensures var left := b == end || (a < mid && Le(cmp, s[a], s[b]));
            && (left ==> a < mid && Merge(cmp, s[a..mid], s[b..end]) == [s[a]] + Merge(cmp, s[a + 1..mid], s[b..end]))
            && (!left ==> Merge(cmp, s[a..mid], s[b..end]) == [s[b]] + Merge(cmp, s[a..mid], s[b + 1..end]))
  {
    if a < mid { assert s[a..mid][1..] == s[a + 1..mid]; }
    if b < end { assert s[b..end][1..] == s[b + 1..end]; }
    if b == end { assert s[b..end] == [] && s[a..mid] == [s[a]] + s[a + 1..mid]; MergeNil(cmp, s[a + 1..mid]); }
    if a == mid { assert s[a..mid] == [] && s[b..end] == [s[b]] + s[b + 1..end]; }
  }

  lemma MergeNil(cmp: Cmp, p: seq<Item>)
    ensures Merge(cmp, p, []) == p
  {
  }

  /** Merge the two runs s[pos..mid] and s[mid..end] onto the end of the list. */
  method MergeRuns(cmp: Cmp, list0: Item?, tail0: Item?, p0: Item, q0: Item?, psize0: nat, insize: nat,
                   ghost s: seq<Item>, ghost out: seq<Item>, ghost pos: nat, ghost repr: set<Item>)
    returns (list: Item?, tail: Item?, q: Item?)
    requires pos < |s| && insize > 0 && psize0 == Min(insize, |s| - pos)
    requires p0 == s[pos] && q0 == Nth(s, pos + psize0)
    requires Merging(list0, tail0, s, out, pos, pos + psize0, pos + psize0, repr)
    modifies repr`next, repr`prev
    ensures var mid, end := pos + psize0, Min(pos + 2 * insize, |s|);
            && q == Nth(s, end)
            && Merging(list, tail, s, out + Merge(cmp, s[pos..mid], s[mid..end]), end, end, end, repr)
  {
    hide Merging, Merge;
    ghost var mid, end := pos + psize0, Min(pos + 2 * insize, |s|);
    ghost var a, b, cur := pos, mid, out;
    list, tail, q := list0, tail0, q0;
    var p: Item?, psize, qsize := p0, psize0, insize;
    while psize != 0 || (qsize != 0 && q != null)
      invariant pos <= a <= mid <= b <= end && psize == mid - a && qsize == insize - (b - mid)
      invariant q == Nth(s, b) && (psize != 0 ==> p == s[a])
      invariant Merging(list, tail, s, cur, a, mid, b, repr)
      invariant cur + Merge(cmp, s[a..mid], s[b..end]) == out + Merge(cmp, s[pos..mid], s[mid..end])
      decreases mid - a + end - b
    {
      MergeStep(cmp, s, a, mid, b, end);
      Following(list, tail, s, cur, a, mid, b, repr);
      var e: Item;
      ghost var left := false;
      if psize == 0 {
        e, q, qsize := q, q.next, qsize - 1;
      } else if qsize == 0 || q == null {
        e, p, psize, left := p, p.next, psize - 1, true;
      } else if cmp(p.key, q.key) <= 0 {
        e, p, psize, left := p, p.next, psize - 1, true;
      } else {
        e, q, qsize := q, q.next, qsize - 1;
      }
      list := Take(list, tail, e, s, cur, a, mid, b, left, repr);
      tail := e;
      Onwards(cur, e, Merge(cmp, s[a..mid], s[b..end]),
          Merge(cmp, s[if left then a + 1 else a..mid], s[if left then b else b + 1..end]));
      cur := cur + [e];
      if left { a := a + 1; } else { b := b + 1; }
    }
    Merged(list, tail, s, cur, mid, end, repr);
    MergeNil(cmp, []);
    assert s[a..mid] == [] && s[b..end] == [] && cur + [] == cur;
  }

  lemma Onwards(cur: seq<Item>, e: Item, m: seq<Item>, m': seq<Item>)
    requires m == [e] + m'
    ensures cur + [e] + m' == cur + m
  {
  }

  /** The successors that the merge is about to read. */
  lemma Following(list: Item?, tail: Item?, s: seq<Item>, out: seq<Item>, a: nat, mid: nat, b: nat, repr: set<Item>)
    requires Merging(list, tail, s, out, a, mid, b, repr)
    ensures a < mid ==> s[a].next == Nth(s, a + 1)
    ensures b < |s| ==> s[b].next == Nth(s, b + 1)
  {
  }

  lemma Merged(list: Item?, tail: Item?, s: seq<Item>, out: seq<Item>, mid: nat, end: nat, repr: set<Item>)
    requires Merging(list, tail, s, out, mid, mid, end, repr)
    ensures Merging(list, tail, s, out, end, end, end, repr)
  {
  }

  /** Before two runs are merged, the end of the first one is found by walking it. */
  lemma Split(list: Item?, tail: Item?, s: seq<Item>, out: seq<Item>, pos: nat, mid: nat, repr: set<Item>)
    requires Merging(list, tail, s, out, pos, pos, pos, repr) && pos <= mid <= |s|
    ensures Merging(list, tail, s, out, pos, mid, mid, repr)
  {
  }

  /** What the passed part of a pass has made of the list. */
  lemma PassSplit(cmp: Cmp, s: seq<Item>, pos: nat, k: nat)
    requires k > 0 && pos < |s|
    ensures var mid, end := pos + Min(k, |s| - pos), Min(pos + 2 * k, |s|);
            Pass(cmp, s[pos..], k) == Merge(cmp, s[pos..mid], s[mid..end]) + Pass(cmp, s[end..], k)
  {
    hide Merge;
    var mid, end := pos + Min(k, |s| - pos), Min(pos + 2 * k, |s|);
    var t := s[pos..];
    assert t[..Min(k, |t|)] == s[pos..mid] && t[Min(k, |t|)..Min(2 * k, |t|)] == s[mid..end];
    assert t[Min(2 * k, |t|)..] == s[end..];
  }

  lemma PassTurn(cmp: Cmp, s: seq<Item>, pos: nat, k: nat, out: seq<Item>)
    requires k > 0 && pos < |s|
    ensures var mid, end := pos + Min(k, |s| - pos), Min(pos + 2 * k, |s|);
            out + Pass(cmp, s[pos..], k) == out + Merge(cmp, s[pos..mid], s[mid..end]) + Pass(cmp, s[end..], k)
  {
    hide Merge, Pass;
    PassSplit(cmp, s, pos, k);
    var mid, end := pos + Min(k, |s| - pos), Min(pos + 2 * k, |s|);
    Assoc(out, Merge(cmp, s[pos..mid], s[mid..end]), Pass(cmp, s[end..], k));
  }

  lemma PassEnd(cmp: Cmp, s: seq<Item>, k: nat, out: seq<Item>)
    requires k > 0
    ensures out + Pass(cmp, s[|s|..], k) == out
  {
    assert s[|s|..] == [];
  }

  /** The length of the run that starts at p0, and the element after it. */
  method FirstRun(p0: Item, insize: nat, ghost s: seq<Item>, ghost pos: nat) returns (q: Item?, psize: nat)
    requires pos < |s| && p0 == s[pos] && insize > 0 && Ahead(s, pos, |s|)
    ensures psize == Min(insize, |s| - pos) && q == Nth(s, pos + psize)
  {
    q, psize := p0, 0;
    for i := 0 to insize
      invariant psize == i && pos + psize < |s| && q == s[pos + psize]
    {
      psize := psize + 1;
      q := q.next;
      if q == null {
        break;
      }
    }
  }

  /** Before a pass nothing is built, and every item has the successor it has in the list. */
  lemma Start(head: Item?, last: Item?, s: seq<Item>, repr: set<Item>)
    requires AppList(head, last, s) && forall x :: x in s ==> x in repr
    ensures head == Nth(s, 0) && Merging(null, null, s, [], 0, 0, 0, repr)
  {
  }

  lemma Rest(list: Item?, tail: Item?, s: seq<Item>, out: seq<Item>, pos: nat, repr: set<Item>)
    requires Merging(list, tail, s, out, pos, pos, pos, repr)
    ensures Ahead(s, pos, |s|)
  {
  }

  lemma PassNil(cmp: Cmp, k: nat)
    requires k > 0
    ensures Pass(cmp, [], k) == []
  {
  }

  /** End the list: its last element still points to where it pointed before the pass. */
  method Close(list: Item?, tail: Item?, ghost s: seq<Item>, ghost out: seq<Item>, ghost pos: nat,
               ghost repr: set<Item>)
    requires Merging(list, tail, s, out, pos, pos, pos, repr)
    modifies repr`next
    ensures AppList(list, tail, out)
  {
    if tail != null {
      assert tail in out;
      tail.next := null;
    }
    forall i | 0 <= i < |out| ensures out[i].next == Nth(out, i + 1) && out[i].prev == Nth(out, i - 1) {
      assert i + 1 < |out| ==> old(out[i].next) == out[i + 1];
    }
  }

  /** One pass over the list. */
  method OnePass(cmp: Cmp, head: Item?, insize: nat, ghost last: Item?, ghost s: seq<Item>, ghost repr: set<Item>)
    returns (list: Item?, tail: Item?, nmerges: nat)
    requires insize > 0 && s != [] && AppList(head, last, s) && forall x :: x in s ==> x in repr
    modifies repr`next, repr`prev
    ensures AppList(list, tail, Pass(cmp, s, insize))
    ensures nmerges <= 1 <==> |s| <= 2 * insize
  {
    hide Merging, Built, Merge, Pass, Ahead, NoDup, AppList;
    var p := head;
    list, tail, nmerges := null, null, 0;
    ghost var pos: nat, out: seq<Item> := 0, [];
    Start(head, last, s, repr);
    assert s[0..] == s;
    while p != null
      invariant pos <= |s| && p == Nth(s, pos)
      invariant Merging(list, tail, s, out, pos, pos, pos, repr)
      invariant out + Pass(cmp, s[pos..], insize) == Pass(cmp, s, insize)
      invariant nmerges == 0 ==> pos == 0
      invariant nmerges == 1 ==> pos == Min(2 * insize, |s|)
      invariant nmerges > 1 ==> 2 * insize < |s|
      decreases |s| - pos
    {
      nmerges := nmerges + 1;
      Rest(list, tail, s, out, pos, repr);
      ghost var mid, end := pos + Min(insize, |s| - pos), Min(pos + 2 * insize, |s|);
      ghost var m := Merge(cmp, s[pos..mid], s[mid..end]);
      PassTurn(cmp, s, pos, insize, out);
      assert (out + m) + Pass(cmp, s[end..], insize) == Pass(cmp, s, insize);
      var q, psize := FirstRun(p, insize, s, pos);
      Split(list, tail, s, out, pos, pos + psize, repr);
      list, tail, q := MergeRuns(cmp, list, tail, p, q, psize, insize, s, out, pos, repr);
      out, pos := out + m, end;
      p := q;
    }
    PassEnd(cmp, s, insize, out);
    Close(list, tail, s, out, pos, repr);
  }

  // ---- the sort keeps the items, for any comparison at all

  lemma {:induction false} PassMember(cmp: Cmp, s: seq<Item>, k: nat, x: Item)
    requires k > 0
    ensures x in Pass(cmp, s, k) <==> x in s
    decreases |s|
  {
    hide Merge;
    if s != [] {
      var mid, end := Min(k, |s|), Min(2 * k, |s|);
      PassMember(cmp, s[end..], k, x);
      MergeMember(cmp, s[..mid], s[mid..end], x);
      assert s == s[..mid] + s[mid..end] + s[end..];
    }
  }

  lemma {:induction false} SortMember(cmp: Cmp, s: seq<Item>, k: nat, x: Item)
    requires k > 0
    ensures x in SortFrom(cmp, s, k) <==> x in s
    decreases |s| - k
  {
    PassMember(cmp, s, k, x);
    if |s| > 2 * k { SortMember(cmp, Pass(cmp, s, k), 2 * k, x); }
  }

  /** Sorting a table's list leaves it a valid table. */
  lemma StillValid(t: Table, s: seq<Item>)
    requires t.head != null && t.Bucketed() && t.num_items == |s| == |t.items| && t.Keyed(s)
    requires AppList(t.head, t.tail, t.items) && t.Lists(t.items, t.repr) && t.Lists(s, t.repr)
    requires forall x :: x in t.repr ==> Has(t.chains, x)
    ensures t.Valid()
  {
    hide Has;
    var r := t.items;
    assert t.Keyed(r) by {
      forall i, j | 0 <= i < j < |r| ensures r[i].key != r[j].key {
        assert r[i] in s && r[j] in s;
        var i' :| 0 <= i' < |s| && s[i'] == r[i];
        var j' :| 0 <= j' < |s| && s[j'] == r[j];
      }
    }
  }

  /** HASH_SRT. For any comparison it terminates with a valid table of the same items in the specified order. */
  method Sort(t: Table, cmp: Cmp)
    requires t.Valid()
    modifies t`head, t`tail, t`items, t.repr`next, t.repr`prev
    ensures t.Valid() && t.items == SortFrom(cmp, old(t.items), 1)
  {
    hide AppList, Pass, NoDup, SortFrom, Table.Lists, Has;
    Nonempty(t.head, t.tail, t.items);
    SortNil(cmp);
    if t.head != null {
      ghost var s0, s, last := t.items, t.items, t.tail;
      var insize, looping, list := 1, true, t.head;
      while looping
        invariant insize > 0 && s != [] && |s| == |s0| && t.Lists(s, t.repr)
        invariant looping ==> t.head == old(t.head) && AppList(list, last, s)
        invariant looping ==> SortFrom(cmp, s, insize) == SortFrom(cmp, s0, 1)
        invariant !looping ==> s == SortFrom(cmp, s0, 1) && t.items == s && AppList(t.head, t.tail, s) && t.head != null
        decreases looping, |s| - insize
      {
        var tail, nmerges;
        Listed(t, s);
        PassOf(cmp, t, s, insize);
        list, tail, nmerges := OnePass(cmp, list, insize, last, s, t.repr);
        s, last := Pass(cmp, s, insize), tail;
        if nmerges <= 1 {
          looping := false;
          t.tail := tail;
          t.head := list;
          t.items := s;
          Nonempty(t.head, t.tail, s);
        }
        insize := insize * 2;
      }
      StillValid(t, s0);
    }
  }

  lemma SortNil(cmp: Cmp)
    ensures SortFrom(cmp, [], 1) == []
  {
    PassNil(cmp, 1);
  }

  lemma Listed(t: Table, s: seq<Item>)
    requires t.Lists(s, t.repr)
    ensures forall x :: x in s ==> x in t.repr
  {
  }

  lemma SortUnfold(cmp: Cmp, s: seq<Item>, k: nat)
    requires k > 0
    ensures SortFrom(cmp, s, k) == if |s| <= 2 * k then Pass(cmp, s, k) else SortFrom(cmp, Pass(cmp, s, k), 2 * k)
    ensures |Pass(cmp, s, k)| == |s|
  {
    hide Pass;
  }

  lemma PassOf(cmp: Cmp, t: Table, s: seq<Item>, k: nat)
    requires k > 0 && t.Lists(s, t.repr)
    ensures SortFrom(cmp, s, k) == if |s| <= 2 * k then Pass(cmp, s, k) else SortFrom(cmp, Pass(cmp, s, k), 2 * k)
    ensures t.Lists(Pass(cmp, s, k), t.repr) && |Pass(cmp, s, k)| == |s|
  {
    hide Pass, SortFrom, Merge;
    SortUnfold(cmp, s, k);
    var r := Pass(cmp, s, k);
    forall x | x in r ensures x in t.repr { PassMember(cmp, s, k, x); }
    forall x | x in t.repr ensures x in r { PassMember(cmp, s, k, x); }
  }

  lemma Nonempty(head: Item?, tail: Item?, s: seq<Item>)
    requires AppList(head, tail, s)
    ensures head == null <==> s == []
  {
  }
}
