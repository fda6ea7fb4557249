/** The sorting half of `filteredAndSortedProducts`: the comparator, the
    stable in-place sort `Array.prototype.sort` performs with it, and the
    whole filter-then-sort computation. */
module GiftSort {
  import opened Sequences
  import opened GiftPage

  /** `compareValue`: `interestRate` for `'rate'`, `minAmount` otherwise. */
  function Key(p: Product, option: SortOption): int
  {
    if option == Rate then p.interestRate else p.minAmount
  }

  /** `multiplier` as written: `1` for `'desc'`, `-1` for `'asc'`. */
  function Multiplier(direction: SortDirection): (m: int)
    ensures m == 1 || m == -1
  {
    if direction == Desc then 1 else -1
  }

  /** The comparator `multiplier * (a[compareValue] - b[compareValue])`; a
      negative or zero result lets `a` stay before `b`. */
  function Compare(a: Product, b: Product, option: SortOption, multiplier: int): int
  {
    multiplier * (Key(a, option) - Key(b, option))
  }

  /** Every element is in comparator order with every later one. */
  predicate Sorted(s: seq<Product>, option: SortOption, multiplier: int)
  {
    forall i, j :: 0 <= i < j < |s| ==> Compare(s[i], s[j], option, multiplier) <= 0
  }

  /** The products of `s` whose sort key is `v`, in the order of `s`. */
  function WithKey(s: seq<Product>, option: SortOption, v: int): seq<Product>
  {
    Filter(s, HasKey(option, v))
  }

  function HasKey(option: SortOption, v: int): Product -> bool
  {
    (p: Product) => Key(p, option) == v
  }

  /** The comparator is the difference of two ranks, so it orders
      consistently. */
  lemma CompareIsRankDifference(a: Product, b: Product, option: SortOption, multiplier: int)
    ensures Compare(a, b, option, multiplier) == multiplier * Key(a, option) - multiplier * Key(b, option)
    ensures Compare(a, b, option, multiplier) == -Compare(b, a, option, multiplier)
  {
  }

  // ---------------------------------------------------------------------
  // The stable sort, as a function

  /** Inserts `x` behind the sorted `t`, moving it forward past exactly the
      trailing elements that compare greater than it. */
  function Insert(t: seq<Product>, x: Product, option: SortOption, multiplier: int): seq<Product>
  {
    if t == [] then [x]
    else if Compare(t[|t| - 1], x, option, multiplier) > 0 then
      Insert(t[..|t| - 1], x, option, multiplier) + [t[|t| - 1]]
    else t + [x]
  }

  /** Where `Insert` places `x`: behind the last element of `t` that does
      not compare greater than it. */
  function InsertPos(t: seq<Product>, x: Product, option: SortOption, multiplier: int): (k: nat)
    ensures k <= |t|
  {
    if t == [] then 0
    else if Compare(t[|t| - 1], x, option, multiplier) > 0 then InsertPos(t[..|t| - 1], x, option, multiplier)
    else |t|
  }

  lemma {:induction false} InsertAtPos(t: seq<Product>, x: Product, option: SortOption, multiplier: int)
    ensures Insert(t, x, option, multiplier) ==
      t[..InsertPos(t, x, option, multiplier)] + [x] + t[InsertPos(t, x, option, multiplier)..]
  {
    if t != [] && Compare(t[|t| - 1], x, option, multiplier) > 0 {
      var init := t[..|t| - 1];
      InsertAtPos(init, x, option, multiplier);
      var k := InsertPos(init, x, option, multiplier);
      assert init[..k] == t[..k];
      assert init[k..] + [t[|t| - 1]] == t[k..];
    }
  }

  /** The order a stable sort with the comparator produces: insertion sort
      from left to right. */
  function StableSort(s: seq<Product>, option: SortOption, multiplier: int): seq<Product>
  {
    if s == [] then []
    else Insert(StableSort(s[..|s| - 1], option, multiplier), s[|s| - 1], option, multiplier)
  }

  lemma {:induction false} InsertPermutes(t: seq<Product>, x: Product, option: SortOption, multiplier: int)
    ensures multiset(Insert(t, x, option, multiplier)) == multiset(t) + multiset{x}
  {
    if t != [] && Compare(t[|t| - 1], x, option, multiplier) > 0 {
      var init, last := t[..|t| - 1], t[|t| - 1];
      assert t == init + [last];
      InsertPermutes(init, x, option, multiplier);
    }
  }

  /** Appending an element no earlier element compares greater than keeps
      a sequence sorted. */
  lemma SortedAppend(t: seq<Product>, x: Product, option: SortOption, multiplier: int)
    requires Sorted(t, option, multiplier)
    requires forall k :: 0 <= k < |t| ==> Compare(t[k], x, option, multiplier) <= 0
    ensures Sorted(t + [x], option, multiplier)
  {
    var r := t + [x];
    forall i, j | 0 <= i < j < |r|
      ensures Compare(r[i], r[j], option, multiplier) <= 0
    {
      assert r[i] == t[i];
      if j < |t| {
        assert r[j] == t[j];
      }
    }
  }

  /** The comparator is transitive. */
  lemma CompareTransitive(a: Product, b: Product, c: Product, option: SortOption, multiplier: int)
    requires Compare(a, b, option, multiplier) <= 0 && Compare(b, c, option, multiplier) <= 0
    ensures Compare(a, c, option, multiplier) <= 0
  {
    CompareIsRankDifference(a, b, option, multiplier);
    CompareIsRankDifference(b, c, option, multiplier);
    CompareIsRankDifference(a, c, option, multiplier);
  }

  lemma {:induction false} InsertSorted(t: seq<Product>, x: Product, option: SortOption, multiplier: int)
    requires Sorted(t, option, multiplier)
    ensures Sorted(Insert(t, x, option, multiplier), option, multiplier)
  {
    if t != [] {
      var init, last := t[..|t| - 1], t[|t| - 1];
      assert Sorted(init, option, multiplier) by {
        forall i, j | 0 <= i < j < |init|
          ensures Compare(init[i], init[j], option, multiplier) <= 0
        {
          assert init[i] == t[i] && init[j] == t[j];
        }
      }
      if Compare(last, x, option, multiplier) > 0 {
        InsertSorted(init, x, option, multiplier);
        var u := Insert(init, x, option, multiplier);
        InsertPermutes(init, x, option, multiplier);
        forall k | 0 <= k < |u|
          ensures Compare(u[k], last, option, multiplier) <= 0
        {
          assert u[k] in multiset(u);
          if u[k] == x {
            CompareIsRankDifference(x, last, option, multiplier);
            CompareIsRankDifference(last, x, option, multiplier);
          } else {
            assert u[k] in init;
            var m :| 0 <= m < |init| && init[m] == u[k];
            assert t[m] == u[k];
          }
        }
        SortedAppend(u, last, option, multiplier);
      } else {
        forall k | 0 <= k < |t|
          ensures Compare(t[k], x, option, multiplier) <= 0
        {
          if k < |t| - 1 {
            CompareTransitive(t[k], last, x, option, multiplier);
          }
        }
        SortedAppend(t, x, option, multiplier);
      }
    }
  }

  /** Products that the comparator does not tie have different keys. */
  lemma UntiedKeysDiffer(a: Product, b: Product, option: SortOption, multiplier: int)
    requires Compare(a, b, option, multiplier) != 0
    ensures Key(a, option) != Key(b, option)
  {
  }

  /** Two products with different keys can change places without changing
      any per-key subsequence. */
  lemma WithKeySwap(init: seq<Product>, u: seq<Product>, x: Product, last: Product, option: SortOption, v: int)
    requires Key(last, option) != Key(x, option)
    requires WithKey(u, option, v) == WithKey(init + [x], option, v)
    ensures WithKey(u + [last], option, v) == WithKey(init + [last] + [x], option, v)
  {
    var p := HasKey(option, v);
    FilterConcat(u, [last], p);
    FilterConcat(init + [x], [last], p);
    FilterSwapLast(init, x, last, p);
  }

  /** Inserting keeps, for every key, the products with that key in the
      order they had with `x` appended. */
  lemma {:induction false} InsertStable(t: seq<Product>, x: Product, option: SortOption, multiplier: int, v: int)
    ensures WithKey(Insert(t, x, option, multiplier), option, v) == WithKey(t + [x], option, v)
  {
    if t != [] && Compare(t[|t| - 1], x, option, multiplier) > 0 {
      var init, last := t[..|t| - 1], t[|t| - 1];
      assert t == init + [last];
      InsertStable(init, x, option, multiplier, v);
      UntiedKeysDiffer(last, x, option, multiplier);
      WithKeySwap(init, Insert(init, x, option, multiplier), x, last, option, v);
    }
  }

  /** The stable sort is sorted under the comparator. */
  lemma {:induction false} StableSortSorted(s: seq<Product>, option: SortOption, multiplier: int)
    ensures Sorted(StableSort(s, option, multiplier), option, multiplier)
  {
    if s != [] {
      StableSortSorted(s[..|s| - 1], option, multiplier);
      InsertSorted(StableSort(s[..|s| - 1], option, multiplier), s[|s| - 1], option, multiplier);
    }
  }

  /** The stable sort is a permutation of its input. */
  lemma {:induction false} StableSortPermutes(s: seq<Product>, option: SortOption, multiplier: int)
    ensures multiset(StableSort(s, option, multiplier)) == multiset(s)
  {
    if s != [] {
      assert s == s[..|s| - 1] + [s[|s| - 1]];
      StableSortPermutes(s[..|s| - 1], option, multiplier);
      InsertPermutes(StableSort(s[..|s| - 1], option, multiplier), s[|s| - 1], option, multiplier);
    }
  }

  /** Stability: products with equal keys keep their input order. */
  lemma {:induction false} StableSortStable(s: seq<Product>, option: SortOption, multiplier: int, v: int)
    ensures WithKey(StableSort(s, option, multiplier), option, v) == WithKey(s, option, v)
  {
    if s != [] {
      var init, last := s[..|s| - 1], s[|s| - 1];
      assert s == init + [last];
      var p := HasKey(option, v);
      StableSortStable(init, option, multiplier, v);
      InsertStable(StableSort(init, option, multiplier), last, option, multiplier, v);
      FilterConcat(StableSort(init, option, multiplier), [last], p);
      FilterConcat(init, [last], p);
    }
  }

  // ---------------------------------------------------------------------
  // What the two directions mean

  /** As written, `'desc'` sorts by non-decreasing key. */
  lemma DescSortsAscending(s: seq<Product>, option: SortOption)
    ensures Sorted(s, option, Multiplier(Desc)) <==>
      forall i, j :: 0 <= i < j < |s| ==> Key(s[i], option) <= Key(s[j], option)
  {
  }

  /** As written, `'asc'` sorts by non-increasing key. */
  lemma AscSortsDescending(s: seq<Product>, option: SortOption)
    ensures Sorted(s, option, Multiplier(Asc)) <==>
      forall i, j :: 0 <= i < j < |s| ==> Key(s[i], option) >= Key(s[j], option)
  {
  }

  /** On the page's own products, the initial `('rate','desc')` state, whose
      label reads "highest rate first", lists the lowest rate (2.5%) first
      and the highest (7.2%) last. */
  lemma InitialOrderIsLowestRateFirst()
    ensures SortLabelOrder(InitialSort.direction) == HighestFirst
    ensures StableSort(InitialProducts, Rate, Multiplier(Desc)) ==
      [InitialProducts[1], InitialProducts[2], InitialProducts[0], InitialProducts[3]]
  {
    var s := InitialProducts;
    var p1, p2, p3, p4 := s[0], s[1], s[2], s[3];
    assert [p1, p2][..1] == [p1];
    assert [p1, p2, p3][..2] == [p1, p2];
    assert s[..3] == [p1, p2, p3];
    assert StableSort([p1], Rate, 1) == [p1];
    assert Insert([p1], p2, Rate, 1) == [p2, p1] by {
      assert [p1][..0] == [];
    }
    assert StableSort([p1, p2], Rate, 1) == [p2, p1];
    assert Insert([p2, p1], p3, Rate, 1) == [p2, p3, p1] by {
      assert [p2, p1][..1] == [p2];
    }
    assert StableSort([p1, p2, p3], Rate, 1) == [p2, p3, p1];
  }

  /** The multiplier the labels call for: highest first for `'desc'`. */
  function IntendedMultiplier(direction: SortDirection): (m: int)
    ensures m == -Multiplier(direction)
  {
    if direction == Desc then -1 else 1
  }

  /** With the intended multiplier every sorted result matches its label. */
  lemma IntendedOrderMatchesLabel(s: seq<Product>, option: SortOption, direction: SortDirection)
    ensures Sorted(s, option, IntendedMultiplier(direction)) <==>
      if SortLabelOrder(direction) == HighestFirst then
        forall i, j :: 0 <= i < j < |s| ==> Key(s[i], option) >= Key(s[j], option)
      else
        forall i, j :: 0 <= i < j < |s| ==> Key(s[i], option) <= Key(s[j], option)
  {
  }

  // ---------------------------------------------------------------------
  // The in-place sort and the page's computation

  /** Exchanging two neighbours `y`, `x` in a sequence of that shape. */
  lemma SwapNeighbours(pre: seq<Product>, y: Product, x: Product, suf: seq<Product>, rest: seq<Product>)
    ensures (pre + [y] + [x] + suf + rest)[|pre| := x][|pre| + 1 := y] == pre + [x] + ([y] + suf) + rest
  {
    var l := (pre + [y] + [x] + suf + rest)[|pre| := x][|pre| + 1 := y];
    var r := pre + [x] + ([y] + suf) + rest;
    assert |l| == |r|;
    forall k | 0 <= k < |l|
      ensures l[k] == r[k]
    {
      if k < |pre| {
        assert l[k] == pre[k] == r[k];
      } else if k > |pre| + 1 {
        assert l[k] == (suf + rest)[k - |pre| - 2] == r[k];
      }
    }
  }

  /** `x` goes behind `pre` when every element of `suf` compares greater
      than it and the last of `pre` does not. */
  lemma {:induction false} InsertPosBehind(pre: seq<Product>, suf: seq<Product>, x: Product, option: SortOption, multiplier: int)
    requires pre == [] || Compare(pre[|pre| - 1], x, option, multiplier) <= 0
    requires forall k :: 0 <= k < |suf| ==> Compare(suf[k], x, option, multiplier) > 0
    ensures InsertPos(pre + suf, x, option, multiplier) == |pre|
    decreases |suf|
  {
    if suf == [] {
      assert pre + suf == pre;
    } else {
      var t := pre + suf;
      assert t[|t| - 1] == suf[|suf| - 1];
      assert t[..|t| - 1] == pre + suf[..|suf| - 1];
      InsertPosBehind(pre, suf[..|suf| - 1], x, option, multiplier);
    }
  }

  /** Once `x` sits at its insertion position, the array holds the
      inserted prefix followed by the untouched rest. */
  lemma InsertedShape(t: seq<Product>, pre: seq<Product>, suf: seq<Product>, rest: seq<Product>,
                      x: Product, option: SortOption, multiplier: int)
    requires pre + suf == t
    requires pre == [] || Compare(pre[|pre| - 1], x, option, multiplier) <= 0
    requires forall k :: 0 <= k < |suf| ==> Compare(suf[k], x, option, multiplier) > 0
    ensures (pre + [x] + suf + rest)[..|t| + 1] == Insert(t, x, option, multiplier)
    ensures (pre + [x] + suf + rest)[|t| + 1..] == rest
  {
    InsertPosBehind(pre, suf, x, option, multiplier);
    InsertAtPos(t, x, option, multiplier);
    assert t[..|pre|] == pre && t[|pre|..] == suf;
  }

  /** Exchanges `a[i]` and `a[j]`. */
  method Swap(a: array<Product>, i: int, j: int)
    requires 0 <= i < a.Length && 0 <= j < a.Length
    modifies a
    ensures a[..] == old(a[..])[i := old(a[j])][j := old(a[i])]
  {
    a[i], a[j] := a[j], a[i];
  }

  /** One pass of the in-place sort: moves `a[i]` forward past the
      elements of the sorted prefix `a[..i]` that compare greater than it. */
  method InsertInPlace(a: array<Product>, i: int, option: SortOption, multiplier: int)
    requires 0 <= i < a.Length
    modifies a
    ensures a[..i + 1] == Insert(old(a[..i]), old(a[i]), option, multiplier)
    ensures a[i + 1..] == old(a[i + 1..])
  {
    ghost var t, rest := a[..i], a[i + 1..];
    var x := a[i];
    ghost var pre, suf := t, [];
    assert a[..] == pre + [x] + suf + rest;
    var j := i;
    while j > 0 && Compare(a[j - 1], a[j], option, multiplier) > 0
      invariant 0 <= j <= i && |pre| == j
      invariant a[..] == pre + [x] + suf + rest
      invariant pre + suf == t
      invariant forall k :: 0 <= k < |suf| ==> Compare(suf[k], x, option, multiplier) > 0
    {
      ghost var y := pre[j - 1];
      ghost var pre' := pre[..j - 1];
      assert pre == pre' + [y];
      assert a[j - 1] == y && a[j] == x;
      Swap(a, j - 1, j);
      SwapNeighbours(pre', y, x, suf, rest);
      pre, suf := pre', [y] + suf;
      j := j - 1;
    }
    assert j > 0 ==> a[j - 1] == pre[j - 1];
    InsertedShape(t, pre, suf, rest, x, option, multiplier);
    assert a[..i + 1] == a[..][..i + 1] && a[i + 1..] == a[..][i + 1..];
  }

  /** `result.sort(comparator)`: sorts `a` in place, stably. */
  method SortInPlace(a: array<Product>, option: SortOption, multiplier: int)
    modifies a
    ensures a[..] == StableSort(old(a[..]), option, multiplier)
  {
    ghost var s := a[..];
    var i := 0;
    while i < a.Length
      invariant 0 <= i <= a.Length
      invariant a[..i] == StableSort(s[..i], option, multiplier)
      invariant a[i..] == s[i..]
    {
      assert a[i] == s[i];
      InsertInPlace(a, i, option, multiplier);
      assert s[..i + 1][..i] == s[..i];
      i := i + 1;
    }
    assert a[..] == a[..a.Length] && s == s[..a.Length];
  }

  /** `filteredAndSortedProducts`: the products of the chosen category (all
      of them for `'all'`), sorted by the comparator for the chosen option
      and direction, equal keys in list order. `products` itself is never
      changed: the sort works on a fresh copy. */
  method FilteredAndSorted(products: seq<Product>, categoryFilter: string,
                           sortOption: SortOption, sortDirection: SortDirection)
    returns (result: seq<Product>)
    ensures result == StableSort(CategoryFiltered(products, categoryFilter), sortOption, Multiplier(sortDirection))
    ensures Sorted(result, sortOption, Multiplier(sortDirection))
    ensures multiset(result) == multiset(CategoryFiltered(products, categoryFilter))
    ensures forall v :: WithKey(result, sortOption, v) == WithKey(CategoryFiltered(products, categoryFilter), sortOption, v)
  {
    var filtered := products;
    if categoryFilter != "all" {
      filtered := Filter(filtered, InCategory(categoryFilter));
    }
    assert filtered == CategoryFiltered(products, categoryFilter);
    var a := new Product[|filtered|](i requires 0 <= i < |filtered| => filtered[i]);
    assert a[..] == filtered;
    SortInPlace(a, sortOption, Multiplier(sortDirection));
    result := a[..];
    StableSortSorted(filtered, sortOption, Multiplier(sortDirection));
    StableSortPermutes(filtered, sortOption, Multiplier(sortDirection));
    forall v
      ensures WithKey(result, sortOption, v) == WithKey(filtered, sortOption, v)
    {
      StableSortStable(filtered, sortOption, Multiplier(sortDirection), v);
    }
  }
}
