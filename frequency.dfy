/**
 * The `Counter` that `package_parser` fills: a dict from package name to count whose
 * keys iterate in first-insertion order. `Bump`, `AddAll` and `NoteAll` say functionally
 * what `Counter.update` does; `PackageCounter` is the mutable object itself.
 */
module Frequency {

  /** A (package name, count) pair, as `Counter.items()` yields it. */
  datatype Entry = Entry(name: string, count: nat)

  /** What `counter[name]` reads: the stored count, or 0 for a name never seen. */
  function Count(counts: map<string, nat>, name: string): nat {
    if name in counts then counts[name] else 0
  }

  /** One step of `Counter.update`: `self[name] = self.get(name, 0) + 1`. */
  function Bump(counts: map<string, nat>, name: string): (r: map<string, nat>)
    ensures r.Keys == counts.Keys + {name}
    ensures Count(r, name) == Count(counts, name) + 1
    ensures forall k :: k != name ==> Count(r, k) == Count(counts, k)
  {
    counts[name := Count(counts, name) + 1]
  }

  /** `Counter.update(names)`: one `Bump` per name, in order. */
  function AddAll(counts: map<string, nat>, names: seq<string>): (r: map<string, nat>)
    ensures forall k :: k in counts || k in names ==> k in r
    decreases |names|
  {
    if names == [] then counts
    else
      var front := names[..|names| - 1];
      assert names == front + [names[|names| - 1]];
      Bump(AddAll(counts, front), names[|names| - 1])
  }

  /** The dict's key order after storing `name`: a key not yet present goes to the end. */
  function Note(order: seq<string>, name: string): (r: seq<string>)
    ensures order <= r && name in r && |r| <= |order| + 1
  {
    if name in order then order else order + [name]
  }

  /** The key order after `Counter.update(names)`. */
  function NoteAll(order: seq<string>, names: seq<string>): (r: seq<string>)
    ensures order <= r
    ensures forall x :: x in r <==> x in order || x in names
    decreases |names|
  {
    if names == [] then order
    else
      var front := names[..|names| - 1];
      assert names == front + [names[|names| - 1]];
      Note(NoteAll(order, front), names[|names| - 1])
  }

  predicate Distinct(s: seq<string>) {
    forall i, j :: 0 <= i < j < |s| ==> s[i] != s[j]
  }

  /** `order` lists every key of `counts` exactly once, and every stored count is at least 1. */
  ghost predicate Consistent(order: seq<string>, counts: map<string, nat>) {
    && Distinct(order)
    && (forall k :: k in order <==> k in counts)
    && (forall k :: k in counts ==> counts[k] >= 1)
  }

  /** The sum of the counts of the names in `order`. */
  function Total(order: seq<string>, counts: map<string, nat>): nat
    decreases |order|
  {
    if order == [] then 0 else Total(order[..|order| - 1], counts) + Count(counts, order[|order| - 1])
  }

  /** `Counter.items()`: (name, count) pairs in key order. */
  function ItemsOf(order: seq<string>, counts: map<string, nat>): (items: seq<Entry>)
    ensures |items| == |order|
    ensures forall e: Entry :: e in items <==> e.name in order && e.count == Count(counts, e.name)
  {
    var items := seq(|order|, i requires 0 <= i < |order| => Entry(order[i], Count(counts, order[i])));
    ItemsMembers(order, counts, items);
    items
  }

  /** The entries of a table built pointwise from `order` are exactly the names of `order` with their counts. */
  lemma ItemsMembers(order: seq<string>, counts: map<string, nat>, items: seq<Entry>)
    requires |items| == |order|
    requires forall i :: 0 <= i < |order| ==> items[i] == Entry(order[i], Count(counts, order[i]))
    ensures forall e: Entry :: e in items <==> e.name in order && e.count == Count(counts, e.name)
  {
    forall e: Entry | e in items ensures e.name in order && e.count == Count(counts, e.name) {
      var i :| 0 <= i < |items| && items[i] == e;
      assert order[i] == e.name;
    }
    forall e: Entry | e.name in order && e.count == Count(counts, e.name) ensures e in items {
      var i :| 0 <= i < |order| && order[i] == e.name;
      assert items[i] == e;
    }
  }

  /** After `update(names)` each name's count has grown by the number of times it occurs in `names`. */
  lemma {:induction false} AddAllCount(counts: map<string, nat>, names: seq<string>, k: string)
    ensures Count(AddAll(counts, names), k) == Count(counts, k) + multiset(names)[k]
    decreases |names|
  {
    if names != [] {
      var front, last := names[..|names| - 1], names[|names| - 1];
      AddAllCount(counts, front, k);
      assert names == front + [last];
    }
  }

  /** The keys after `update(names)` are the old keys and the names. */
  lemma {:induction false} AddAllKeys(counts: map<string, nat>, names: seq<string>)
    ensures AddAll(counts, names).Keys == counts.Keys + set k | k in names
    decreases |names|
  {
    if names != [] {
      var front, last := names[..|names| - 1], names[|names| - 1];
      AddAllKeys(counts, front);
      assert names == front + [last];
      assert (set k | k in names) == (set k | k in front) + {last};
    }
  }

  /** Feeding two batches one after the other is feeding their concatenation. */
  lemma {:induction false} AddAllAppend(counts: map<string, nat>, a: seq<string>, b: seq<string>)
    ensures AddAll(counts, a + b) == AddAll(AddAll(counts, a), b)
    decreases |b|
  {
    if b == [] {
      assert a + b == a;
    } else {
      var front, last := b[..|b| - 1], b[|b| - 1];
      var ab := a + b;
      assert ab[..|ab| - 1] == a + front && ab[|ab| - 1] == last;
      assert AddAll(counts, ab) == Bump(AddAll(counts, a + front), last);
      AddAllAppend(counts, a, front);
      assert AddAll(AddAll(counts, a), b) == Bump(AddAll(AddAll(counts, a), front), last);
    }
  }

  /** The key order after two batches is the key order after their concatenation. */
  lemma {:induction false} NoteAllAppend(order: seq<string>, a: seq<string>, b: seq<string>)
    ensures NoteAll(order, a + b) == NoteAll(NoteAll(order, a), b)
    decreases |b|
  {
    if b == [] {
      assert a + b == a;
    } else {
      NoteAllAppend(order, a, b[..|b| - 1]);
      assert (a + b)[..|a + b| - 1] == a + b[..|b| - 1];
    }
  }

  /** Counts that agree on the names of `order` give the same total over `order`. */
  lemma {:induction false} TotalAgree(order: seq<string>, m: map<string, nat>, m': map<string, nat>)
    requires forall i :: 0 <= i < |order| ==> Count(m, order[i]) == Count(m', order[i])
    ensures Total(order, m) == Total(order, m')
    decreases |order|
  {
    if order != [] {
      TotalAgree(order[..|order| - 1], m, m');
    }
  }

  /** Raising the count of a name that occurs once in `order` raises the total by one. */
  lemma {:induction false} TotalBumpPresent(order: seq<string>, m: map<string, nat>, name: string)
    requires Distinct(order) && name in order
    ensures Total(order, Bump(m, name)) == Total(order, m) + 1
    decreases |order|
  {
    var front, last := order[..|order| - 1], order[|order| - 1];
    assert order == front + [last];
    if last == name {
      assert forall i :: 0 <= i < |front| ==> front[i] != name by {
        forall i | 0 <= i < |front| ensures front[i] != name {
          assert front[i] == order[i];
        }
      }
      TotalAgree(front, m, Bump(m, name));
    } else {
      assert name in front;
      TotalBumpPresent(front, m, name);
    }
  }

  /** One `Bump` with its key-order update keeps the table consistent and raises the total by one. */
  lemma BumpPreserves(order: seq<string>, counts: map<string, nat>, name: string)
    requires Consistent(order, counts)
    ensures Consistent(Note(order, name), Bump(counts, name))
    ensures Total(Note(order, name), Bump(counts, name)) == Total(order, counts) + 1
  {
    var m := Bump(counts, name);
    if name in order {
      assert Note(order, name) == order;
      assert m.Keys == counts.Keys;
      TotalBumpPresent(order, counts, name);
    } else {
      var o' := order + [name];
      assert Note(order, name) == o';
      assert Distinct(o') by {
        forall i, j | 0 <= i < j < |o'| ensures o'[i] != o'[j] {
          if j < |order| {
            assert o'[i] == order[i] && o'[j] == order[j];
          } else {
            assert o'[i] == order[i];
          }
        }
      }
      assert forall k :: k in o' <==> k in m;
      assert o'[..|o'| - 1] == order;
      TotalAgree(order, counts, m);
    }
  }

  /**
   * `update(names)` keeps the table consistent and raises the total by the number of names,
   * empty names included: the sum of the counts is the number of names ever fed.
   */
  lemma {:induction false} AddAllPreserves(order: seq<string>, counts: map<string, nat>, names: seq<string>)
    requires Consistent(order, counts)
    ensures Consistent(NoteAll(order, names), AddAll(counts, names))
    ensures Total(NoteAll(order, names), AddAll(counts, names)) == Total(order, counts) + |names|
    decreases |names|
  {
    if names != [] {
      var front := names[..|names| - 1];
      AddAllPreserves(order, counts, front);
      BumpPreserves(NoteAll(order, front), AddAll(counts, front), names[|names| - 1]);
    }
  }

  /** Position of the first occurrence of `x` in `s`. */
  function FirstIndex(s: seq<string>, x: string): (i: nat)
    requires x in s
    ensures i < |s| && s[i] == x && x !in s[..i]
  {
    if s[0] == x then 0 else 1 + FirstIndex(s[1..], x)
  }

  /** Appending to a sequence does not move the first occurrence of a name already in it. */
  lemma {:induction false} FirstIndexAppend(s: seq<string>, y: string, x: string)
    requires x in s
    ensures FirstIndex(s + [y], x) == FirstIndex(s, x)
  {
    if s[0] != x {
      assert (s + [y])[1..] == s[1..] + [y];
      FirstIndexAppend(s[1..], y, x);
    }
  }

  /**
   * The key order, starting from an empty counter, lists each distinct name once,
   * in the order in which the names first occur.
   */
  lemma {:induction false} NoteAllFirstSeen(names: seq<string>)
    ensures forall x :: x in NoteAll([], names) <==> x in names
    ensures Distinct(NoteAll([], names))
    ensures forall i, j :: 0 <= i < j < |NoteAll([], names)| ==>
              FirstIndex(names, NoteAll([], names)[i]) < FirstIndex(names, NoteAll([], names)[j])
    decreases |names|
  {
    if names != [] {
      var front, last := names[..|names| - 1], names[|names| - 1];
      assert names == front + [last];
      NoteAllFirstSeen(front);
      var r', r := NoteAll([], front), NoteAll([], names);
      forall k | 0 <= k < |r'| ensures FirstIndex(names, r'[k]) == FirstIndex(front, r'[k]) {
        FirstIndexAppend(front, last, r'[k]);
      }
      if last !in front {
        assert r == r' + [last];
        assert FirstIndex(names, last) == |front| by {
          assert names[..|front|] == front;
        }
      }
    }
  }

  /** A `Counter`: counts per package name, and the names in the order they were first stored. */
  class PackageCounter {
    var counts: map<string, nat>
    var order: seq<string>

    ghost predicate Valid()
      reads this
    {
      Consistent(order, counts)
    }

    /** `Counter([])`. */
    constructor ()
      ensures Valid() && counts == map[] && order == []
    {
      counts := map[];
      order := [];
    }

    /** `Counter.update(names)`: each name's count goes up by one per occurrence. */
    method Update(names: seq<string>)
      requires Valid()
      modifies this
      ensures Valid()
      ensures counts == AddAll(old(counts), names) && order == NoteAll(old(order), names)
      ensures forall k :: Count(counts, k) == Count(old(counts), k) + multiset(names)[k]
      ensures Total(order, counts) == old(Total(order, counts)) + |names|
    {
      ghost var counts0, order0 := counts, order;
      for n := 0 to |names|
        invariant Consistent(order, counts)
        invariant counts == AddAll(counts0, names[..n]) && order == NoteAll(order0, names[..n])
      {
        var name := names[n];
        assert names[..n + 1][..n] == names[..n] && names[..n + 1][n] == name;
        assert (name in order) == (name in counts);
        BumpPreserves(order, counts, name);
        var present := name in counts;
        var seen := Count(counts, name);    // self.get(name, 0)
        counts := counts[name := seen + 1];
        if !present {
          order := order + [name];
        }
      }
      assert names[..|names|] == names;
      forall k {
        AddAllCount(counts0, names, k);
      }
      AddAllPreserves(order0, counts0, names);
    }

    /** `Counter.items()`. */
    function Items(): (items: seq<Entry>)
      reads this
      ensures forall e: Entry :: e in items <==> e.name in order && e.count == Count(counts, e.name)
      ensures Valid() ==> forall e: Entry :: e in items ==> e.name in counts && e.count >= 1
    {
      ItemsOf(order, counts)
    }
  }
}
