/**
 * `Counter.most_common(n)`: the counter's items sorted by count, largest first, with a
 * stable sort (equal counts keep the counter's first-insertion order), cut to `n` entries.
 */
module Ranking {
  import opened Frequency

  /** Counts never increase from one entry to the next. */
  predicate SortedByCount(s: seq<Entry>) {
    forall i, j :: 0 <= i < j < |s| ==> s[i].count >= s[j].count
  }

  /** No name occurs twice. */
  predicate NoDuplicateNames(s: seq<Entry>) {
    forall i, j :: 0 <= i < j < |s| ==> s[i].name != s[j].name
  }

  /** The entries of `s` whose count is `c`, in their order in `s`. */
  function WithCount(s: seq<Entry>, c: nat): seq<Entry>
    decreases |s|
  {
    if s == [] then [] else (if s[0].count == c then [s[0]] else []) + WithCount(s[1..], c)
  }

  /** Inserts `e` into `s` in front of the first entry whose count is not larger than its own. */
  function Insert(e: Entry, s: seq<Entry>): (r: seq<Entry>)
    ensures |r| == |s| + 1 && multiset(r) == multiset(s) + multiset{e}
    decreases |s|
  {
    if s == [] then [e]
    else if e.count >= s[0].count then [e] + s
    else
      assert s == [s[0]] + s[1..];
      [s[0]] + Insert(e, s[1..])
  }

  /** Inserting into a sorted sequence keeps it sorted. */
  lemma {:induction false} InsertSorted(e: Entry, s: seq<Entry>)
    requires SortedByCount(s)
    ensures SortedByCount(Insert(e, s))
    decreases |s|
  {
    if s != [] && e.count < s[0].count {
      var rest := Insert(e, s[1..]);
      InsertSorted(e, s[1..]);
      forall x | x in rest ensures x.count <= s[0].count {
        assert x in multiset(rest);
        if x != e {
          assert x in s[1..];
        }
      }
    }
  }

  /** The entries of count `c` in `[x] + t`. */
  lemma WithCountCons(x: Entry, t: seq<Entry>, c: nat)
    ensures WithCount([x] + t, c) == (if x.count == c then [x] else []) + WithCount(t, c)
  {
    assert ([x] + t)[1..] == t;
  }

  /** Inserting `e` adds it in front of the entries of its own count, and changes no other count's entries. */
  lemma {:induction false} InsertWithCount(e: Entry, s: seq<Entry>, c: nat)
    ensures WithCount(Insert(e, s), c) == (if e.count == c then [e] else []) + WithCount(s, c)
    decreases |s|
  {
    if s == [] {
      WithCountCons(e, s, c);
    } else if e.count >= s[0].count {
      WithCountCons(e, s, c);
    } else {
      InsertWithCount(e, s[1..], c);
      InsertWithCountStep(e, s, c);
    }
  }

  /** The step of `InsertWithCount` when `e` goes past the head of `s`. */
  lemma InsertWithCountStep(e: Entry, s: seq<Entry>, c: nat)
    requires s != [] && e.count < s[0].count
    requires WithCount(Insert(e, s[1..]), c) == (if e.count == c then [e] else []) + WithCount(s[1..], c)
    ensures WithCount(Insert(e, s), c) == (if e.count == c then [e] else []) + WithCount(s, c)
  {
    var rest := Insert(e, s[1..]);
    assert Insert(e, s) == [s[0]] + rest;
    assert s == [s[0]] + s[1..];
    WithCountCons(s[0], rest, c);
    WithCountCons(s[0], s[1..], c);
    SwapFronts(if s[0].count == c then [s[0]] else [], if e.count == c then [e] else [], WithCount(s[1..], c));
  }

  /** Two fronts, one of them empty, can be put down in either order. */
  lemma SwapFronts(a: seq<Entry>, b: seq<Entry>, t: seq<Entry>)
    requires a == [] || b == []
    ensures a + (b + t) == b + (a + t)
  {
    if a == [] {
      assert a + (b + t) == b + t == b + (a + t);
    } else {
      assert a + (b + t) == a + t == b + (a + t);
    }
  }

  /** `sorted(items, key=count, reverse=True)`. */
  function SortByCount(items: seq<Entry>): (r: seq<Entry>)
    ensures |r| == |items| && multiset(r) == multiset(items)
    decreases |items|
  {
    if items == [] then []
    else
      assert items == [items[0]] + items[1..];
      Insert(items[0], SortByCount(items[1..]))
  }

  /** The sort orders the entries by non-increasing count. */
  lemma {:induction false} SortByCountSorted(items: seq<Entry>)
    ensures SortedByCount(SortByCount(items))
    decreases |items|
  {
    if items != [] {
      SortByCountSorted(items[1..]);
      InsertSorted(items[0], SortByCount(items[1..]));
    }
  }

  /** The sort is stable: for every count, the entries having it keep their original order. */
  lemma {:induction false} SortByCountStable(items: seq<Entry>, c: nat)
    ensures WithCount(SortByCount(items), c) == WithCount(items, c)
    decreases |items|
  {
    if items != [] {
      SortByCountStable(items[1..], c);
      InsertWithCount(items[0], SortByCount(items[1..]), c);
    }
  }

  /**
   * `Counter.most_common(n)`: the first `n` entries of the stable sort, all of them when `n`
   * is at least the number of items, none when `n` is not positive (what `heapq.nlargest` returns).
   */
  function MostCommon(items: seq<Entry>, n: int): (r: seq<Entry>)
    ensures |r| == if n <= 0 then 0 else if n < |items| then n else |items|
    ensures r == SortByCount(items)[..|r|]
  {
    var sorted := SortByCount(items);
    if n <= 0 then [] else if n < |sorted| then sorted[..n] else sorted
  }

  /** Every entry of `WithCount(s, c)` is an entry of `s` with count `c`. */
  lemma {:induction false} WithCountMembers(s: seq<Entry>, c: nat, x: Entry)
    requires x in WithCount(s, c)
    ensures x in s && x.count == c
    decreases |s|
  {
    if x != s[0] || s[0].count != c {
      WithCountMembers(s[1..], c, x);
    }
  }

  /** An entry of `s` with count `c` shows up in `WithCount(s, c)`. */
  lemma {:induction false} WithCountHas(s: seq<Entry>, k: nat)
    requires k < |s|
    ensures s[k] in WithCount(s, s[k].count)
    decreases |s|
  {
    if k > 0 {
      WithCountHas(s[1..], k - 1);
    }
  }

  /** Dropping the first entry drops it from its own count's entries only. */
  lemma WithCountTail(s: seq<Entry>, c: nat)
    requires s != []
    ensures WithCount(s[1..], c) == if s[0].count == c then WithCount(s, c)[1..] else WithCount(s, c)
  {
    var t := WithCount(s[1..], c);
    if s[0].count == c {
      assert ([s[0]] + t)[1..] == t;
    } else {
      assert [] + t == t;
    }
  }

  /** The entries of one count in a prefix are a prefix of that count's entries in the whole. */
  lemma {:induction false} WithCountPrefix(s: seq<Entry>, k: nat, c: nat)
    requires k <= |s|
    ensures WithCount(s[..k], c) <= WithCount(s, c)
    decreases |s|
  {
    if k > 0 {
      assert s[..k][1..] == s[1..][..k - 1];
      WithCountPrefix(s[1..], k - 1, c);
    }
  }

  /** Two sorted sequences that list the entries of every count alike start with the same entry. */
  lemma SameFirstEntry(a: seq<Entry>, b: seq<Entry>)
    requires a != [] && b != []
    requires SortedByCount(a) && SortedByCount(b)
    requires forall c :: WithCount(a, c) == WithCount(b, c)
    ensures a[0] == b[0]
  {
    WithCountHas(a, 0);
    WithCountHas(b, 0);
    WithCountMembers(b, a[0].count, a[0]);
    WithCountMembers(a, b[0].count, b[0]);
    assert a[0].count == b[0].count;
    assert WithCount(a, a[0].count)[0] == a[0];
    assert WithCount(b, b[0].count)[0] == b[0];
  }

  /**
   * A stable sort by non-increasing count has only one possible outcome: two sorted sequences
   * that list the entries of every count in the same order are equal. So `SortByCount`, being
   * sorted and stable, is the result of Python's `sorted(..., reverse=True)`.
   */
  lemma {:induction false} StableSortUnique(a: seq<Entry>, b: seq<Entry>)
    requires SortedByCount(a) && SortedByCount(b)
    requires forall c :: WithCount(a, c) == WithCount(b, c)
    ensures a == b
    decreases |a|
  {
    if a == [] {
      if b != [] {
        WithCountHas(b, 0);
      }
    } else if b == [] {
      WithCountHas(a, 0);
    } else {
      SameFirstEntry(a, b);
      forall c ensures WithCount(a[1..], c) == WithCount(b[1..], c) {
        WithCountTail(a, c);
        WithCountTail(b, c);
      }
      StableSortUnique(a[1..], b[1..]);
      assert a == [a[0]] + a[1..] && b == [b[0]] + b[1..];
    }
  }

  /** Insertion keeps names distinct when the inserted name is new. */
  lemma {:induction false} InsertNoDuplicates(e: Entry, s: seq<Entry>)
    requires NoDuplicateNames(s)
    requires forall k :: 0 <= k < |s| ==> s[k].name != e.name
    ensures NoDuplicateNames(Insert(e, s))
    decreases |s|
  {
    if s != [] && e.count < s[0].count {
      var rest := Insert(e, s[1..]);
      InsertNoDuplicates(e, s[1..]);
      forall k | 0 <= k < |rest| ensures rest[k].name != s[0].name {
        assert rest[k] in multiset(rest);
        if rest[k] != e {
          assert rest[k] in s[1..];
        }
      }
    }
  }

  /** Sorting keeps names distinct. */
  lemma {:induction false} SortByCountNoDuplicates(items: seq<Entry>)
    requires NoDuplicateNames(items)
    ensures NoDuplicateNames(SortByCount(items))
    decreases |items|
  {
    if items != [] {
      var sorted := SortByCount(items[1..]);
      SortByCountNoDuplicates(items[1..]);
      forall k | 0 <= k < |sorted| ensures sorted[k].name != items[0].name {
        assert sorted[k] in multiset(sorted);
        assert sorted[k] in items[1..];
      }
      InsertNoDuplicates(items[0], sorted);
    }
  }

  /** `most_common(n)` returns entries of the counter, none twice when the counter's names are distinct. */
  lemma MostCommonEntries(items: seq<Entry>, n: int)
    requires NoDuplicateNames(items)
    ensures NoDuplicateNames(MostCommon(items, n))
    ensures forall x :: x in MostCommon(items, n) ==> x in items
  {
    var r, sorted := MostCommon(items, n), SortByCount(items);
    SortByCountNoDuplicates(items);
    forall x | x in r ensures x in items {
      assert x in multiset(sorted);
    }
  }

  /** `most_common(n)` is ordered by non-increasing count. */
  lemma MostCommonSorted(items: seq<Entry>, n: int)
    ensures SortedByCount(MostCommon(items, n))
  {
    SortByCountSorted(items);
  }

  /** Every count `most_common(n)` returns is at least every count it leaves out. */
  lemma MostCommonKeepsLargest(items: seq<Entry>, n: int, x: Entry, e: Entry)
    requires x in MostCommon(items, n) && e in items && e !in MostCommon(items, n)
    ensures x.count >= e.count
  {
    var r, sorted := MostCommon(items, n), SortByCount(items);
    SortByCountSorted(items);
    assert e in multiset(sorted);
    var k :| 0 <= k < |sorted| && sorted[k] == e;
    var i :| 0 <= i < |r| && r[i] == x;
    assert sorted[i] == x;
  }

  /**
   * Ties: for every count, the returned entries having it are the first entries having it in
   * the counter's order, so equal counts keep their first-encountered order.
   */
  lemma MostCommonTies(items: seq<Entry>, n: int, c: nat)
    ensures WithCount(MostCommon(items, n), c) <= WithCount(items, c)
  {
    var sorted := SortByCount(items);
    WithCountPrefix(sorted, |MostCommon(items, n)|, c);
    SortByCountStable(items, c);
  }

  /** `x` occurs in `s` at some position before some position of `y`. */
  ghost predicate InOrder(s: seq<Entry>, x: Entry, y: Entry) {
    exists p, q :: 0 <= p < q < |s| && s[p] == x && s[q] == y
  }

  /** An order found in the tail of `s` holds in `s` too. */
  lemma InOrderCons(e: Entry, s: seq<Entry>, x: Entry, y: Entry)
    requires InOrder(s, x, y)
    ensures InOrder([e] + s, x, y)
  {
    var p, q :| 0 <= p < q < |s| && s[p] == x && s[q] == y;
    assert ([e] + s)[p + 1] == x && ([e] + s)[q + 1] == y;
  }

  /** The first entry of `s` comes before every later one. */
  lemma InOrderHead(e: Entry, s: seq<Entry>, y: Entry)
    requires y in s
    ensures InOrder([e] + s, e, y)
  {
    var q :| 0 <= q < |s| && s[q] == y;
    assert ([e] + s)[0] == e && ([e] + s)[q + 1] == y;
  }

  /** Two entries of count `c`, in order in `s`, are in the same order in `WithCount(s, c)`. */
  lemma {:induction false} WithCountPositions(s: seq<Entry>, c: nat, i: nat, j: nat)
    requires i < j < |s| && s[i].count == c && s[j].count == c
    ensures InOrder(WithCount(s, c), s[i], s[j])
    decreases |s|
  {
    var t := WithCount(s[1..], c);
    assert s[j] == s[1..][j - 1];
    if i == 0 {
      WithCountHas(s[1..], j - 1);
      assert WithCount(s, c) == [s[0]] + t;
      InOrderHead(s[0], t, s[j]);
    } else {
      assert s[i] == s[1..][i - 1];
      WithCountPositions(s[1..], c, i - 1, j - 1);
      if s[0].count == c {
        assert WithCount(s, c) == [s[0]] + t;
        InOrderCons(s[0], t, s[i], s[j]);
      } else {
        assert WithCount(s, c) == t;
      }
    }
  }

  /** An order in `[e] + t` either starts at `e` or is an order of `t`. */
  lemma InOrderTail(e: Entry, t: seq<Entry>, x: Entry, y: Entry)
    requires InOrder([e] + t, x, y)
    ensures InOrder(t, x, y) || (x == e && y in t)
  {
    var w := [e] + t;
    var i, j :| 0 <= i < j < |w| && w[i] == x && w[j] == y;
    assert w[j] == t[j - 1];
    if i > 0 {
      assert w[i] == t[i - 1];
    }
  }

  /** An order in `WithCount(s, c)` either starts at the head of `s` or is an order of the tail's. */
  lemma WithCountStep(s: seq<Entry>, c: nat, x: Entry, y: Entry)
    requires s != [] && InOrder(WithCount(s, c), x, y)
    ensures InOrder(WithCount(s[1..], c), x, y) || (x == s[0] && y in WithCount(s[1..], c))
  {
    var t := WithCount(s[1..], c);
    if s[0].count == c {
      assert WithCount(s, c) == [s[0]] + t;
      InOrderTail(s[0], t, x, y);
    } else {
      assert WithCount(s, c) == t;
    }
  }

  /** Two entries in order in `WithCount(s, c)` are in that order in `s`. */
  lemma {:induction false} WithCountOrigins(s: seq<Entry>, c: nat, x: Entry, y: Entry)
    requires InOrder(WithCount(s, c), x, y)
    ensures InOrder(s, x, y)
    decreases |s|
  {
    WithCountStep(s, c, x, y);
    var t := WithCount(s[1..], c);
    assert s == [s[0]] + s[1..];
    if InOrder(t, x, y) {
      WithCountOrigins(s[1..], c, x, y);
      InOrderCons(s[0], s[1..], x, y);
    } else {
      WithCountMembers(s[1..], c, y);
      InOrderHead(s[0], s[1..], y);
    }
  }

  /** Two returned entries with equal counts are in the order they have among the counter's items. */
  lemma MostCommonTieOrder(items: seq<Entry>, n: int, i: nat, j: nat)
    requires i < j < |MostCommon(items, n)|
    requires MostCommon(items, n)[i].count == MostCommon(items, n)[j].count
    ensures InOrder(items, MostCommon(items, n)[i], MostCommon(items, n)[j])
  {
    var r := MostCommon(items, n);
    var c := r[i].count;
    WithCountPositions(r, c, i, j);
    var w := WithCount(r, c);
    var i', j' :| 0 <= i' < j' < |w| && w[i'] == r[i] && w[j'] == r[j];
    MostCommonTies(items, n, c);
    assert WithCount(items, c)[i'] == r[i] && WithCount(items, c)[j'] == r[j];
    WithCountOrigins(items, c, r[i], r[j]);
  }
}
