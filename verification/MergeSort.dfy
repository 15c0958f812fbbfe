/** Bottom-up merge sort on sequences of items: the specification of HASH_SRT. */
module MergeSort {
  import opened Basics
  import opened HashChains

  type Cmp = (string, string) -> int

  /** Any two keys are comparable, and the order is transitive. */
  ghost predicate TotalPreorder(cmp: Cmp) {
    && (forall a, b :: cmp(a, b) <= 0 || cmp(b, a) <= 0)
    && (forall a, b, c :: cmp(a, b) <= 0 && cmp(b, c) <= 0 ==> cmp(a, c) <= 0)
  }

  predicate Le(cmp: Cmp, x: Item, y: Item) { cmp(x.key, y.key) <= 0 }

  predicate Equiv(cmp: Cmp, x: Item, y: Item) { Le(cmp, x, y) && Le(cmp, y, x) }

  ghost predicate Sorted(cmp: Cmp, s: seq<Item>) {
    forall i, j :: 0 <= i < j < |s| ==> Le(cmp, s[i], s[j])
  }

  /** The items that compare equal to x, in their order. */
  function Class(cmp: Cmp, x: Item, s: seq<Item>): seq<Item>
    decreases |s|
  {
    if s == [] then [] else (if Equiv(cmp, x, s[0]) then [s[0]] else []) + Class(cmp, x, s[1..])
  }

  /** Merge two runs; the left one wins ties. */
  function Merge(cmp: Cmp, p: seq<Item>, q: seq<Item>): (r: seq<Item>)
    ensures |r| == |p| + |q|
  {
    if p == [] then q
    else if q == [] then p
    else if Le(cmp, p[0], q[0]) then [p[0]] + Merge(cmp, p[1..], q)
    else [q[0]] + Merge(cmp, p, q[1..])
  }

  function Min(a: nat, b: nat): nat { if a < b then a else b }

  /** One pass: merge the runs of length k in pairs. */
  function Pass(cmp: Cmp, s: seq<Item>, k: nat): (r: seq<Item>)
    requires k > 0
    ensures |r| == |s|
    decreases |s|
  {
    if s == [] then []
    else
      var mid, end := Min(k, |s|), Min(2 * k, |s|);
      Merge(cmp, s[..mid], s[mid..end]) + Pass(cmp, s[end..], k)
  }

  /** The passes from run length k on: the last one is the one that makes at most one merge. */
  function SortFrom(cmp: Cmp, s: seq<Item>, k: nat): (r: seq<Item>)
    requires k > 0
    ensures |r| == |s|
    decreases |s| - k
  {
    var r := Pass(cmp, s, k);
    if |s| <= 2 * k then r else SortFrom(cmp, r, 2 * k)
  }

  /** Every run of length k is sorted. */
  ghost predicate RunsSorted(cmp: Cmp, s: seq<Item>, k: nat)
    requires k > 0
    decreases |s|
  {
    s == [] || (Sorted(cmp, s[..Min(k, |s|)]) && RunsSorted(cmp, s[Min(k, |s|)..], k))
  }

  // ---- one merge

  lemma {:induction false} MergeMember(cmp: Cmp, p: seq<Item>, q: seq<Item>, x: Item)
    ensures x in Merge(cmp, p, q) <==> x in p || x in q
    decreases |p| + |q|
  {
    if p != [] && q != [] {
      if Le(cmp, p[0], q[0]) { MergeMember(cmp, p[1..], q, x); } else { MergeMember(cmp, p, q[1..], x); }
    }
  }

  lemma SortedCons(cmp: Cmp, x: Item, s: seq<Item>)
    requires Sorted(cmp, s) && forall y :: y in s ==> Le(cmp, x, y)
    ensures Sorted(cmp, [x] + s)
  {
  }

  lemma {:induction false} MergeSorted(cmp: Cmp, p: seq<Item>, q: seq<Item>)
    requires TotalPreorder(cmp) && Sorted(cmp, p) && Sorted(cmp, q)
    ensures Sorted(cmp, Merge(cmp, p, q))
    decreases |p| + |q|
  {
    if p != [] && q != [] {
      HeadLeast(cmp, p);
      HeadLeast(cmp, q);
      hide TotalPreorder, Sorted, Le;
      if Le(cmp, p[0], q[0]) {
        MergeSorted(cmp, p[1..], q);
        forall y | y in Merge(cmp, p[1..], q) ensures Le(cmp, p[0], y) {
          MergeMember(cmp, p[1..], q, y);
          LeTrans(cmp, p[0], q[0], y);
        }
        SortedCons(cmp, p[0], Merge(cmp, p[1..], q));
      } else {
        LeTotal(cmp, p[0], q[0]);
        MergeSorted(cmp, p, q[1..]);
        forall y | y in Merge(cmp, p, q[1..]) ensures Le(cmp, q[0], y) {
          MergeMember(cmp, p, q[1..], y);
          LeTrans(cmp, q[0], p[0], y);
        }
        SortedCons(cmp, q[0], Merge(cmp, p, q[1..]));
      }
    }
  }

  lemma LeTrans(cmp: Cmp, x: Item, y: Item, z: Item)
    requires TotalPreorder(cmp)
    ensures Le(cmp, x, y) && Le(cmp, y, z) ==> Le(cmp, x, z)
  {
  }

  lemma LeTotal(cmp: Cmp, x: Item, y: Item)
    requires TotalPreorder(cmp)
    ensures Le(cmp, x, y) || Le(cmp, y, x)
  {
  }

  lemma HeadLeast(cmp: Cmp, s: seq<Item>)
    requires TotalPreorder(cmp) && Sorted(cmp, s) && s != []
    ensures Sorted(cmp, s[1..]) && forall y :: y in s ==> Le(cmp, s[0], y)
  {
    Reflexive(cmp, s[0]);
  }

  lemma Reflexive(cmp: Cmp, x: Item)
    requires TotalPreorder(cmp)
    ensures Le(cmp, x, x)
  {
  }

  lemma {:induction false} ClassConcat(cmp: Cmp, x: Item, s: seq<Item>, t: seq<Item>)
    ensures Class(cmp, x, s + t) == Class(cmp, x, s) + Class(cmp, x, t)
    decreases |s|
  {
    hide Equiv;
    if s == [] {
      assert s + t == t;
    } else {
      assert (s + t)[0] == s[0] && (s + t)[1..] == s[1..] + t;
      ClassConcat(cmp, x, s[1..], t);
      ClassCons(cmp, x, s[0], s[1..] + t);
      ClassCons(cmp, x, s[0], s[1..]);
      assert [s[0]] + (s[1..] + t) == s + t && [s[0]] + s[1..] == s;
      Assoc(Head(cmp, x, s[0]), Class(cmp, x, s[1..]), Class(cmp, x, t));
    }
  }

  lemma {:induction false} ClassEmpty(cmp: Cmp, x: Item, s: seq<Item>)
    requires forall y :: y in s ==> !Equiv(cmp, x, y)
    ensures Class(cmp, x, s) == []
    decreases |s|
  {
    if s != [] { ClassEmpty(cmp, x, s[1..]); }
  }

  /** A merge keeps the order of items that compare equal. */
  lemma {:induction false} MergeClass(cmp: Cmp, x: Item, p: seq<Item>, q: seq<Item>)
    requires TotalPreorder(cmp) && Sorted(cmp, p)
    ensures Class(cmp, x, Merge(cmp, p, q)) == Class(cmp, x, p) + Class(cmp, x, q)
    decreases |p| + |q|
  {
    if p != [] && q != [] {
      HeadLeast(cmp, p);
      hide TotalPreorder, Sorted, Le;
      if Le(cmp, p[0], q[0]) {
        MergeClass(cmp, x, p[1..], q);
        ClassCons(cmp, x, p[0], Merge(cmp, p[1..], q));
        ClassCons(cmp, x, p[0], p[1..]);
        assert [p[0]] + p[1..] == p;
        hide Class, Merge, Equiv;
        Assoc(Head(cmp, x, p[0]), Class(cmp, x, p[1..]), Class(cmp, x, q));
      } else {
        MergeClass(cmp, x, p, q[1..]);
        ClassCons(cmp, x, q[0], Merge(cmp, p, q[1..]));
        ClassCons(cmp, x, q[0], q[1..]);
        assert [q[0]] + q[1..] == q;
        if Equiv(cmp, x, q[0]) {
          NoneEquiv(cmp, x, p, q[0]);
          ClassEmpty(cmp, x, p);
        }
        assert Class(cmp, x, p) == [] || Head(cmp, x, q[0]) == [];
        hide Class, Merge, Equiv, Head;
        Swap(Class(cmp, x, p), Head(cmp, x, q[0]), Class(cmp, x, q[1..]));
      }
    }
  }

  function Head(cmp: Cmp, x: Item, y: Item): seq<Item> { if Equiv(cmp, x, y) then [y] else [] }

  lemma ClassCons(cmp: Cmp, x: Item, y: Item, s: seq<Item>)
    ensures Class(cmp, x, [y] + s) == Head(cmp, x, y) + Class(cmp, x, s)
  {
    assert ([y] + s)[1..] == s;
  }

  lemma Swap(a: seq<Item>, b: seq<Item>, c: seq<Item>)
    requires a == [] || b == []
    ensures b + (a + c) == a + (b + c)
  {
  }

  /** When the right head is strictly smaller, nothing in the left run compares equal to it. */
  lemma NoneEquiv(cmp: Cmp, x: Item, p: seq<Item>, y: Item)
    requires TotalPreorder(cmp) && p != [] && (forall z :: z in p ==> Le(cmp, p[0], z))
    requires !Le(cmp, p[0], y) && Equiv(cmp, x, y)
    ensures forall z :: z in p ==> !Equiv(cmp, x, z)
  {
    forall z | z in p ensures !Equiv(cmp, x, z) {
      LeTrans(cmp, p[0], z, x);
      LeTrans(cmp, p[0], x, y);
    }
  }

  // ---- one pass

  /** One round of a pass, on sequences. */
  lemma PassUnfold(cmp: Cmp, s: seq<Item>, k: nat)
    requires k > 0
    ensures Pass(cmp, s, k) ==
            if s == [] then []
            else
              var mid, end := Min(k, |s|), Min(2 * k, |s|);
              Merge(cmp, s[..mid], s[mid..end]) + Pass(cmp, s[end..], k)
  {
  }

  lemma ThreeParts(s: seq<Item>, mid: nat, end: nat)
    requires mid <= end <= |s|
    ensures s == s[..mid] + s[mid..end] + s[end..]
  {
  }

  lemma {:induction false} PassClass(cmp: Cmp, x: Item, s: seq<Item>, k: nat)
    requires TotalPreorder(cmp) && k > 0 && RunsSorted(cmp, s, k)
    ensures Class(cmp, x, Pass(cmp, s, k)) == Class(cmp, x, s)
    decreases |s|
  {
    hide Pass, Merge, Class, Sorted, RunsSorted, TotalPreorder;
    PassUnfold(cmp, s, k);
    if s != [] {
      var mid, end := Min(k, |s|), Min(2 * k, |s|);
      var p, q, rest := s[..mid], s[mid..end], s[end..];
      ThreeParts(s, mid, end);
      RunsTail(cmp, s, k);
      PassClass(cmp, x, rest, k);
      MergeClass(cmp, x, p, q);
      ClassConcat(cmp, x, Merge(cmp, p, q), Pass(cmp, rest, k));
      ClassConcat(cmp, x, p, q);
      ClassConcat(cmp, x, p + q, rest);
    }
  }

  lemma RunsUnfold(cmp: Cmp, s: seq<Item>, k: nat)
    requires k > 0
    ensures RunsSorted(cmp, s, k) <==>
              s == [] || (Sorted(cmp, s[..Min(k, |s|)]) && RunsSorted(cmp, s[Min(k, |s|)..], k))
  {
    hide Sorted;
  }

  lemma NoneSorted(cmp: Cmp)
    ensures Sorted(cmp, [])
  {
  }

  /** The second run is sorted too, and so are the runs after it. */
  lemma RunsTail(cmp: Cmp, s: seq<Item>, k: nat)
    requires k > 0 && s != [] && RunsSorted(cmp, s, k)
    ensures var mid, end := Min(k, |s|), Min(2 * k, |s|);
            Sorted(cmp, s[..mid]) && Sorted(cmp, s[mid..end]) && RunsSorted(cmp, s[end..], k)
  {
    hide Sorted, RunsSorted;
    var mid, end := Min(k, |s|), Min(2 * k, |s|);
    var t := s[mid..];
    NoneSorted(cmp);
    RunsUnfold(cmp, s, k);
    RunsUnfold(cmp, t, k);
    if t != [] {
      assert t[..Min(k, |t|)] == s[mid..end];
      assert t[Min(k, |t|)..] == s[end..];
    } else {
      assert s[mid..end] == [] && s[end..] == t;
    }
  }

  lemma {:induction false} PassSorted(cmp: Cmp, s: seq<Item>, k: nat)
    requires TotalPreorder(cmp) && k > 0 && RunsSorted(cmp, s, k)
    ensures RunsSorted(cmp, Pass(cmp, s, k), 2 * k)
    decreases |s|
  {
    if s != [] {
      var mid, end := Min(k, |s|), Min(2 * k, |s|);
      RunsTail(cmp, s, k);
      PassSorted(cmp, s[end..], k);
      MergeSorted(cmp, s[..mid], s[mid..end]);
      var r := Pass(cmp, s, k);
      assert r[..end] == Merge(cmp, s[..mid], s[mid..end]);
      assert r[end..] == Pass(cmp, s[end..], k);
    }
  }

  // ---- the whole sort

  lemma {:induction false} SingleRuns(cmp: Cmp, s: seq<Item>)
    ensures RunsSorted(cmp, s, 1)
    decreases |s|
  {
    if s != [] { SingleRuns(cmp, s[1..]); }
  }

  /** The sort is sorted, and stable: every class of equal items keeps its order. */
  lemma {:induction false} SortFromCorrect(cmp: Cmp, s: seq<Item>, k: nat, x: Item)
    requires TotalPreorder(cmp) && k > 0 && RunsSorted(cmp, s, k)
    ensures Sorted(cmp, SortFrom(cmp, s, k))
    ensures Class(cmp, x, SortFrom(cmp, s, k)) == Class(cmp, x, s)
    decreases |s| - k
  {
    var r := Pass(cmp, s, k);
    PassSorted(cmp, s, k);
    PassClass(cmp, x, s, k);
    if |s| <= 2 * k {
      if r != [] { assert r[..|r|] == r; }
    } else {
      SortFromCorrect(cmp, r, 2 * k, x);
    }
  }

  lemma {:induction false} ClassCount(cmp: Cmp, s: seq<Item>, x: Item)
    requires TotalPreorder(cmp)
    ensures multiset(Class(cmp, x, s))[x] == multiset(s)[x]
  {
    if s != [] {
      ClassCount(cmp, s[1..], x);
      Reflexive(cmp, x);
      assert s == [s[0]] + s[1..];
    }
  }

  lemma Counts(a: multiset<Item>, b: multiset<Item>)
    requires forall x: Item :: a[x] == b[x]
    ensures a == b
  {
  }

  /** Main theorem about HASH_SRT's specification: a stable sorted permutation, for every total preorder. */
  lemma StableSort(cmp: Cmp, s: seq<Item>)
    requires TotalPreorder(cmp)
    ensures var r := SortFrom(cmp, s, 1);
            && Sorted(cmp, r) && multiset(r) == multiset(s)
            && forall x: Item :: Class(cmp, x, r) == Class(cmp, x, s)
  {
    var r := SortFrom(cmp, s, 1);
    SingleRuns(cmp, s);
    if s != [] { SortFromCorrect(cmp, s, 1, s[0]); }
    var before: multiset<Item>, after: multiset<Item> := multiset(s), multiset(r);
    forall x: Item ensures Class(cmp, x, r) == Class(cmp, x, s) && after[x] == before[x] {
      SortFromCorrect(cmp, s, 1, x);
      ClassCount(cmp, s, x);
      ClassCount(cmp, r, x);
    }
    Counts(after, before);
  }
}
