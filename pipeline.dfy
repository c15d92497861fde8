/**
 * `package_parser` without its download: every line of the Contents index is matched, the
 * package field of each matching line is split on commas, every segment is counted, and
 * `most_common(count)` ranks the result.
 */
module Pipeline {
  import opened Wrappers
  import opened Text
  import opened ContentsLine
  import opened Frequency
  import opened Ranking

  /** The names `pkg_count.update(current_pkgs.split(','))` receives for one line: none when it does not match. */
  function LineNames(line: string): (names: seq<string>)
    ensures names == [] <==> ParseLine(line).None?
  {
    match ParseLine(line)
    case None => []
    case Some((_, field)) => Split(field, ',')
  }

  /** The outputs of `f` for each line, one after the other. */
  function FlatMap(f: string -> seq<string>, lines: seq<string>): seq<string>
    decreases |lines|
  {
    if lines == [] then [] else FlatMap(f, lines[..|lines| - 1]) + f(lines[|lines| - 1])
  }

  /** Every name the matching lines contribute, in line order. */
  function Names(lines: seq<string>): seq<string> {
    FlatMap(LineNames, lines)
  }

  /** The counts `pkg_count` holds after the loop over `lines`. */
  function Tally(lines: seq<string>): (counts: map<string, nat>)
    ensures forall k :: k in counts <==> k in Names(lines)
  {
    AddAllKeys(map[], Names(lines));
    AddAll(map[], Names(lines))
  }

  /** The order in which `pkg_count` first stored its keys. */
  function KeyOrder(lines: seq<string>): (order: seq<string>)
    ensures forall x :: x in order <==> x in Names(lines)
  {
    NoteAll([], Names(lines))
  }

  /** What `package_parser` returns: `pkg_count.most_common(count)`. */
  function TopPackages(lines: seq<string>, count: int): (top: seq<Entry>)
    ensures count <= 0 ==> top == []
    ensures forall e: Entry :: e in top ==> e.name in Names(lines) && e.count == Count(Tally(lines), e.name)
  {
    var items := ItemsOf(KeyOrder(lines), Tally(lines));
    var top := MostCommon(items, count);
    assert forall e: Entry :: e in top ==> e in multiset(SortByCount(items)) by {
      forall e: Entry | e in top ensures e in multiset(SortByCount(items)) {
        assert e in SortByCount(items);
      }
    }
    top
  }

  /** The loop of `package_parser` over the decoded lines, and its `most_common(count)`. */
  method PackageParser(lines: seq<string>, count: int) returns (top: seq<Entry>)
    ensures top == TopPackages(lines, count)
  {
    var pkgCount := new PackageCounter();
    for n := 0 to |lines|
      invariant pkgCount.Valid()
      invariant pkgCount.counts == Tally(lines[..n]) && pkgCount.order == KeyOrder(lines[..n])
    {
      assert lines[..n + 1][..n] == lines[..n];
      ghost var before := Names(lines[..n]);
      var m := ParseLine(lines[n]);
      if m.Some? {
        var (filePath, currentPkgs) := m.value;
        pkgCount.Update(Split(currentPkgs, ','));
      }
      AddAllAppend(map[], before, LineNames(lines[n]));
      NoteAllAppend([], before, LineNames(lines[n]));
    }
    assert lines[..|lines|] == lines;
    top := MostCommon(pkgCount.Items(), count);
  }

  /** A matching line contributes the segments of its package field: one more than its commas, none holding a comma, joining back to the field. */
  lemma LineNamesShape(line: string)
    ensures ParseLine(line).None? ==> LineNames(line) == []
    ensures ParseLine(line).Some? ==>
              && Join(LineNames(line), ',') == ParseLine(line).value.1
              && |LineNames(line)| == multiset(ParseLine(line).value.1)[','] + 1
    ensures forall i :: 0 <= i < |LineNames(line)| ==> ',' !in LineNames(line)[i]
  {
    if ParseLine(line).Some? {
      JoinSplit(ParseLine(line).value.1, ',');
      SplitPieces(ParseLine(line).value.1, ',');
    }
  }

  /** `FlatMap` over two runs of lines, one after the other, is `FlatMap` over each. */
  lemma {:induction false} FlatMapAppend(f: string -> seq<string>, a: seq<string>, b: seq<string>)
    ensures FlatMap(f, a + b) == FlatMap(f, a) + FlatMap(f, b)
    decreases |b|
  {
    if b == [] {
      assert a + b == a;
    } else {
      var b', x := b[..|b| - 1], b[|b| - 1];
      var ab := a + b;
      assert ab[..|ab| - 1] == a + b' && ab[|ab| - 1] == x;
      FlatMapAppend(f, a, b');
      var front, back := FlatMap(f, a), FlatMap(f, b');
      assert FlatMap(f, ab) == front + back + f(x);
      assert FlatMap(f, b) == back + f(x);
      assert front + back + f(x) == front + (back + f(x));
    }
  }

  /** Taking the same element out of two equal multisets of lines. */
  lemma RemoveOne(rest: seq<string>, x: string, a: seq<string>, b: seq<string>)
    requires multiset(rest + [x]) == multiset(a + [x] + b)
    ensures multiset(rest) == multiset(a + b)
  {
    assert multiset(rest + [x]) == multiset(rest) + multiset{x};
    assert multiset(a + [x] + b) == multiset(a) + multiset{x} + multiset(b);
    assert multiset(a + b) == multiset(a) + multiset(b);
    forall y
      ensures multiset(rest)[y] == multiset(a + b)[y]
    {
      assert multiset(rest + [x])[y] == multiset(a + [x] + b)[y];
    }
  }

  /** Moving one group of names to the end of a sequence of names keeps its multiset. */
  lemma MoveToEnd(front: seq<string>, mid: seq<string>, back: seq<string>, others: seq<string>)
    requires multiset(others) == multiset(front + back)
    ensures multiset(others + mid) == multiset(front + mid + back)
  {
    assert multiset(others + mid) == multiset(others) + multiset(mid);
    assert multiset(front + back) == multiset(front) + multiset(back);
    assert multiset(front + mid + back) == multiset(front) + multiset(mid) + multiset(back);
  }

  /** `FlatMap` over one line is `f` of that line. */
  lemma FlatMapSingle(f: string -> seq<string>, x: string)
    ensures FlatMap(f, [x]) == f(x)
  {
    assert [x][..0] == [] && [x][0] == x;
    assert FlatMap(f, [x]) == FlatMap(f, []) + f(x);
    assert [] + f(x) == f(x);
  }

  /** Reordering the lines reorders what `FlatMap` produces and nothing more. */
  lemma {:induction false} FlatMapPermutation(f: string -> seq<string>, l1: seq<string>, l2: seq<string>)
    requires multiset(l1) == multiset(l2)
    ensures multiset(FlatMap(f, l1)) == multiset(FlatMap(f, l2))
    decreases |l1|
  {
    if l1 != [] {
      var n := |l1| - 1;
      var rest, x := l1[..n], l1[n];
      assert l1 == rest + [x];
      assert x in multiset(l2);
      var k :| 0 <= k < |l2| && l2[k] == x;
      var a, b := l2[..k], l2[k + 1..];
      assert l2 == a + [x] + b;
      RemoveOne(rest, x, a, b);
      FlatMapPermutation(f, rest, a + b);
      FlatMapAppend(f, a, b);
      FlatMapAppend(f, a + [x], b);
      FlatMapAppend(f, a, [x]);
      FlatMapAppend(f, rest, [x]);
      FlatMapSingle(f, x);
      MoveToEnd(FlatMap(f, a), f(x), FlatMap(f, b), FlatMap(f, rest));
    }
  }

  /** Every count is the number of segments equal to that name, over all matching lines. */
  lemma TallyCounts(lines: seq<string>, k: string)
    ensures Count(Tally(lines), k) == multiset(Names(lines))[k]
  {
    AddAllCount(map[], Names(lines), k);
  }

  /** The counts and the key order agree, and the counts add up to the number of segments seen. */
  lemma TallyTotal(lines: seq<string>)
    ensures Consistent(KeyOrder(lines), Tally(lines))
    ensures Total(KeyOrder(lines), Tally(lines)) == |Names(lines)|
  {
    AddAllPreserves([], map[], Names(lines));
  }

  /** The key order lists each name seen exactly once, in the order of first occurrence. */
  lemma KeyOrderFirstSeen(lines: seq<string>)
    ensures forall x :: x in KeyOrder(lines) <==> x in Names(lines)
    ensures Distinct(KeyOrder(lines))
    ensures forall i, j :: 0 <= i < j < |KeyOrder(lines)| ==>
              FirstIndex(Names(lines), KeyOrder(lines)[i]) < FirstIndex(Names(lines), KeyOrder(lines)[j])
  {
    NoteAllFirstSeen(Names(lines));
  }

  /** The names of `lines + [line]`: those of `lines`, then those of `line`. */
  lemma NamesSnoc(lines: seq<string>, line: string)
    ensures Names(lines + [line]) == Names(lines) + LineNames(line)
  {
    assert (lines + [line])[..|lines|] == lines;
    assert (lines + [line])[|lines|] == line;
  }

  /** A line that does not match changes neither the counts nor the key order. */
  lemma SkippedLine(lines: seq<string>, line: string)
    requires ParseLine(line).None?
    ensures Tally(lines + [line]) == Tally(lines) && KeyOrder(lines + [line]) == KeyOrder(lines)
  {
    NamesSnoc(lines, line);
    assert Names(lines) + [] == Names(lines);
  }

  /**
   * A matching line raises the count of each segment of its package field by one per occurrence,
   * empty segments included, leaves every other count alone, and adds its number of segments to
   * the total.
   */
  lemma MatchedLine(lines: seq<string>, line: string)
    requires ParseLine(line).Some?
    ensures forall k :: Count(Tally(lines + [line]), k) ==
                        Count(Tally(lines), k) + multiset(Split(ParseLine(line).value.1, ','))[k]
    ensures Total(KeyOrder(lines + [line]), Tally(lines + [line])) ==
            Total(KeyOrder(lines), Tally(lines)) + multiset(ParseLine(line).value.1)[','] + 1
  {
    var segments := Split(ParseLine(line).value.1, ',');
    NamesSnoc(lines, line);
    assert LineNames(line) == segments;
    forall k
      ensures Count(Tally(lines + [line]), k) == Count(Tally(lines), k) + multiset(segments)[k]
    {
      TallyCounts(lines + [line], k);
      TallyCounts(lines, k);
    }
    TallyTotal(lines + [line]);
    TallyTotal(lines);
    SplitPieces(ParseLine(line).value.1, ',');
  }

  /** Two maps with the same keys and the same counts are equal. */
  lemma SameCounts(m1: map<string, nat>, m2: map<string, nat>)
    requires m1.Keys == m2.Keys
    requires forall k :: Count(m1, k) == Count(m2, k)
    ensures m1 == m2
  {
    forall k | k in m1
      ensures m1[k] == m2[k]
    {
      assert Count(m1, k) == Count(m2, k);
    }
  }

  /** The keys of the counts are the names seen. */
  lemma TallyKeys(lines: seq<string>)
    ensures forall k :: k in Tally(lines) <==> k in multiset(Names(lines))
  {
    AddAllKeys(map[], Names(lines));
  }

  /** The key order holds exactly the names seen. */
  lemma KeyOrderMembers(lines: seq<string>)
    ensures forall x :: x in KeyOrder(lines) <==> x in multiset(Names(lines))
  {
    KeyOrderFirstSeen(lines);
  }

  /** Only the key order depends on the order of the lines: the counts depend on their multiset alone. */
  lemma TallyOrderIndependent(l1: seq<string>, l2: seq<string>)
    requires multiset(l1) == multiset(l2)
    ensures Tally(l1) == Tally(l2)
    ensures forall x :: x in KeyOrder(l1) <==> x in KeyOrder(l2)
  {
    FlatMapPermutation(LineNames, l1, l2);
    TallyKeys(l1);
    TallyKeys(l2);
    forall k
      ensures Count(Tally(l1), k) == Count(Tally(l2), k)
    {
      TallyCounts(l1, k);
      TallyCounts(l2, k);
    }
    SameCounts(Tally(l1), Tally(l2));
    KeyOrderMembers(l1);
    KeyOrderMembers(l2);
  }

  /** `Counter.items()` lists every counted name once, with its count. */
  lemma ItemsFaithful(lines: seq<string>)
    ensures NoDuplicateNames(ItemsOf(KeyOrder(lines), Tally(lines)))
    ensures forall e: Entry :: e in ItemsOf(KeyOrder(lines), Tally(lines)) <==>
              e.name in Names(lines) && e.count == multiset(Names(lines))[e.name]
  {
    var items := ItemsOf(KeyOrder(lines), Tally(lines));
    KeyOrderFirstSeen(lines);
    forall e: Entry | e.name in Names(lines) && e.count == multiset(Names(lines))[e.name]
      ensures e in items
    {
      var i :| 0 <= i < |KeyOrder(lines)| && KeyOrder(lines)[i] == e.name;
      TallyCounts(lines, e.name);
      assert items[i] == e;
    }
    forall e | e in items
      ensures e.name in Names(lines) && e.count == multiset(Names(lines))[e.name]
    {
      var i :| 0 <= i < |items| && items[i] == e;
      TallyCounts(lines, e.name);
    }
  }

  /** A sequence without repetitions has as many elements as distinct values. */
  lemma {:induction false} DistinctCard(s: seq<string>)
    requires Distinct(s)
    ensures |set x | x in s| == |s|
    decreases |s|
  {
    if s != [] {
      var n := |s| - 1;
      assert Distinct(s[..n]);
      DistinctCard(s[..n]);
      assert (set x | x in s) == (set x | x in s[..n]) + {s[n]};
      assert s[n] !in s[..n];
    }
  }

  /**
   * `most_common(count)` returns `min(count, distinct names)` entries (none when `count <= 0`),
   * no name twice, each with its true count, ordered by non-increasing count.
   */
  lemma TopPackagesShape(lines: seq<string>, count: int)
    ensures var distinct := |set x | x in Names(lines)|;
            |TopPackages(lines, count)| == if count <= 0 then 0 else if count < distinct then count else distinct
    ensures NoDuplicateNames(TopPackages(lines, count))
    ensures SortedByCount(TopPackages(lines, count))
    ensures forall e :: e in TopPackages(lines, count) ==>
              e.name in Names(lines) && e.count == multiset(Names(lines))[e.name]
  {
    KeyOrderFirstSeen(lines);
    DistinctCard(KeyOrder(lines));
    assert (set x | x in KeyOrder(lines)) == (set x | x in Names(lines));
    ItemsFaithful(lines);
    MostCommonEntries(ItemsOf(KeyOrder(lines), Tally(lines)), count);
    MostCommonSorted(ItemsOf(KeyOrder(lines), Tally(lines)), count);
  }

  /** Every returned count is at least the count of every name left out. */
  lemma TopPackagesLargest(lines: seq<string>, count: int, x: Entry, k: string)
    requires x in TopPackages(lines, count) && k in Names(lines)
    requires forall e :: e in TopPackages(lines, count) ==> e.name != k
    ensures x.count >= multiset(Names(lines))[k]
  {
    var e := Entry(k, multiset(Names(lines))[k]);
    ItemsFaithful(lines);
    MostCommonKeepsLargest(ItemsOf(KeyOrder(lines), Tally(lines)), count, x, e);
  }

  /** Entries with equal counts come in the order their names were first encountered. */
  lemma TopPackagesTieOrder(lines: seq<string>, count: int, i: nat, j: nat)
    requires i < j < |TopPackages(lines, count)|
    requires TopPackages(lines, count)[i].count == TopPackages(lines, count)[j].count
    ensures TopPackages(lines, count)[i].name in Names(lines) && TopPackages(lines, count)[j].name in Names(lines)
    ensures FirstIndex(Names(lines), TopPackages(lines, count)[i].name) <
            FirstIndex(Names(lines), TopPackages(lines, count)[j].name)
  {
    var items, top := ItemsOf(KeyOrder(lines), Tally(lines)), TopPackages(lines, count);
    MostCommonTieOrder(items, count, i, j);
    var p, q :| 0 <= p < q < |items| && items[p] == top[i] && items[q] == top[j];
    KeyOrderFirstSeen(lines);
    assert KeyOrder(lines)[p] == top[i].name && KeyOrder(lines)[q] == top[j].name;
  }

  /** No matching line, no ranking: `package_parser` then returns an empty list. */
  lemma NoMatchNoRanking(lines: seq<string>, count: int)
    requires forall i :: 0 <= i < |lines| ==> ParseLine(lines[i]).None?
    ensures TopPackages(lines, count) == []
  {
    assert Names(lines) == [] by {
      NoMatchNoNames(lines);
    }
  }

  lemma {:induction false} NoMatchNoNames(lines: seq<string>)
    requires forall i :: 0 <= i < |lines| ==> ParseLine(lines[i]).None?
    ensures Names(lines) == []
    decreases |lines|
  {
    if lines != [] {
      NoMatchNoNames(lines[..|lines| - 1]);
    }
  }

  /** An index holding only a header line yields an empty ranking, which `package_repr` cannot format. */
  lemma HeaderOnlyIndex()
    ensures TopPackages(["FILE"], 10) == []
  {
    SingleTokenNoMatch("FILE");
    NoMatchNoRanking(["FILE"], 10);
  }

  /** When `count` covers every distinct name, every name seen is returned with its count. */
  lemma TopPackagesComplete(lines: seq<string>, count: int, k: string)
    requires count >= |set x | x in Names(lines)|
    requires k in Names(lines)
    ensures Entry(k, multiset(Names(lines))[k]) in TopPackages(lines, count)
  {
    var items := ItemsOf(KeyOrder(lines), Tally(lines));
    KeyOrderFirstSeen(lines);
    DistinctCard(KeyOrder(lines));
    assert (set x | x in KeyOrder(lines)) == (set x | x in Names(lines));
    ItemsFaithful(lines);
    var e := Entry(k, multiset(Names(lines))[k]);
    assert e in multiset(items);
    assert TopPackages(lines, count) == SortByCount(items);
  }

  /** `Split` of one name, and of two names around a comma. */
  lemma SplitExamples(a: string, b: string)
    requires ',' !in a && ',' !in b
    ensures Split(a, ',') == [a]
    ensures Split(a + "," + b, ',') == [a, b]
  {
    assert Join([a], ',') == a;
    SplitJoin([a], ',');
    assert [a, b][1..] == [b];
    assert Join([a, b], ',') == a + "," + b;
    SplitJoin([a, b], ',');
  }

  /** "usr/bin/foo     util-a,util-b" contributes the two names of its package field. */
  lemma ExampleLineNames()
    ensures LineNames("usr/bin/foo" + "     " + ("util-a" + "," + "util-b")) == ["util-a", "util-b"]
  {
    UtilFields();
    PairLine("usr/bin/foo", "     ", "util-a", "util-b");
  }

  /** The gap and the two package names of that line have the shapes `PairLine` asks for. */
  lemma UtilFields()
    ensures Run("     ", 0, 5, true) && '\n' !in "usr/bin/foo"
    ensures Run("util-a", 0, 6, false) && Run("util-b", 0, 6, false)
  {
    RunOfMembers("     ", true);
    RunOfMembers("util-a", false);
    RunOfMembers("util-b", false);
  }

  /** `FlatMap` over three lines. */
  lemma FlatMapThree(f: string -> seq<string>, a: string, b: string, c: string)
    ensures FlatMap(f, [a, b, c]) == f(a) + f(b) + f(c)
  {
    FlatMapSingle(f, a);
    FlatMapAppend(f, [a], [b]);
    FlatMapSingle(f, b);
    FlatMapAppend(f, [a, b], [c]);
    FlatMapSingle(f, c);
    assert [a] + [b] == [a, b] && [a, b] + [c] == [a, b, c];
  }

  /** A line "path field" with a single space contributes the segments of `field`. */
  lemma SingleSpaceLine(path: string, field: string)
    requires |path| >= 2 && !Whitespace(path[0]) && !Whitespace(path[|path| - 1]) && '\n' !in path
    requires |field| >= 1 && Run(field, 0, |field|, false)
    ensures LineNames(path + " " + field) == Split(field, ',')
  {
    RunOfMembers(" ", true);
    ParseSeparated(path, " ", field);
  }

  /** A line "path a" with a single space contributes `a`. */
  lemma SingleSpaceName(path: string, a: string)
    requires |path| >= 2 && !Whitespace(path[0]) && !Whitespace(path[|path| - 1]) && '\n' !in path
    requires |a| >= 1 && Run(a, 0, |a|, false) && ',' !in a
    ensures LineNames(path + " " + a) == [a]
  {
    SingleSpaceLine(path, a);
    SplitExamples(a, a);
  }

  /** A line "path a,b", with a whitespace gap before the package field, contributes `a` and `b`. */
  lemma PairLine(path: string, gap: string, a: string, b: string)
    requires |path| >= 2 && !Whitespace(path[0]) && !Whitespace(path[|path| - 1]) && '\n' !in path
    requires |gap| >= 1 && Run(gap, 0, |gap|, true)
    requires |a| >= 1 && Run(a, 0, |a|, false) && ',' !in a
    requires |b| >= 1 && Run(b, 0, |b|, false) && ',' !in b
    ensures LineNames(path + gap + (a + "," + b)) == [a, b]
  {
    var field := a + "," + b;
    assert forall k :: 0 <= k < |a| ==> field[k] == a[k];
    assert field[|a|] == ',';
    assert forall k :: |a| < k < |field| ==> field[k] == b[k - |a| - 1];
    ParseSeparated(path, gap, field);
    SplitExamples(a, b);
  }

  /** `FlatMap` over three lines whose outputs are known. */
  lemma FlatMapKnown(f: string -> seq<string>, a: string, b: string, c: string, x: string, y: string)
    requires f(a) == [x] && f(b) == [x, y] && f(c) == [y]
    ensures FlatMap(f, [a, b, c]) == [x, x, y, y]
  {
    FlatMapThree(f, a, b, c);
    assert [x] + [x, y] + [y] == [x, x, y, y];
  }

  /** "a/b x" contributes x. */
  lemma ExampleFirstLine()
    ensures LineNames("a/b" + " " + "x") == ["x"]
  {
    RunOfMembers("x", false);
    SingleSpaceName("a/b", "x");
  }

  /** "c/d x,y" contributes x and y. */
  lemma ExampleSecondLine()
    ensures LineNames("c/d" + " " + ("x" + "," + "y")) == ["x", "y"]
  {
    RunOfMembers(" ", true);
    RunOfMembers("x", false);
    RunOfMembers("y", false);
    PairLine("c/d", " ", "x", "y");
  }

  /** "e/f y" contributes y. */
  lemma ExampleThirdLine()
    ensures LineNames("e/f" + " " + "y") == ["y"]
  {
    RunOfMembers("y", false);
    SingleSpaceName("e/f", "y");
  }

  /** The names of the three lines "a/b x", "c/d x,y" and "e/f y". */
  lemma ExampleNames()
    ensures Names(["a/b" + " " + "x", "c/d" + " " + ("x" + "," + "y"), "e/f" + " " + "y"]) == ["x", "x", "y", "y"]
  {
    ExampleFirstLine();
    ExampleSecondLine();
    ExampleThirdLine();
    FlatMapKnown(LineNames, "a/b" + " " + "x", "c/d" + " " + ("x" + "," + "y"), "e/f" + " " + "y", "x", "y");
  }

  /** The key order of `[x, x, y, y]` is `[x, y]`. */
  lemma TwoTiedOrder(x: string, y: string)
    requires x != y
    ensures NoteAll([], [x, x, y, y]) == [x, y]
  {
    var names := [x, x, y, y];
    assert names[..1] == [x] && [x][..0] == [];
    assert NoteAll([], [x]) == [x];
    assert names[..2] == [x, x] && [x, x][..1] == [x];
    assert NoteAll([], [x, x]) == [x];
    assert names[..3] == [x, x, y] && [x, x, y][..2] == [x, x];
    assert NoteAll([], [x, x, y]) == [x, y];
    assert names[..4][..3] == [x, x, y];
  }

  /** Stable sorting two entries with equal counts keeps them in place. */
  lemma SortTwoTied(a: Entry, b: Entry)
    requires a.count == b.count
    ensures SortByCount([a, b]) == [a, b]
  {
    assert [a, b][1..] == [b] && [b][1..] == [];
    assert SortByCount([b]) == [b];
  }

  /** The items of a counter holding x then y, both counted twice. */
  lemma TwoTiedItems(order: seq<string>, counts: map<string, nat>, x: string, y: string)
    requires order == [x, y] && Count(counts, x) == 2 && Count(counts, y) == 2
    ensures ItemsOf(order, counts) == [Entry(x, 2), Entry(y, 2)]
  {
  }

  /** Names seen as `[x, x, y, y]` rank as x then y, each with count 2, under `count` 2. */
  lemma TwoTiedNames(lines: seq<string>, x: string, y: string)
    requires Names(lines) == [x, x, y, y] && x != y
    ensures TopPackages(lines, 2) == [Entry(x, 2), Entry(y, 2)]
  {
    TwoTiedOrder(x, y);
    TallyCounts(lines, x);
    TallyCounts(lines, y);
    TwoTiedMultiset(x, y);
    TwoTiedItems(KeyOrder(lines), Tally(lines), x, y);
    SortTwoTied(Entry(x, 2), Entry(y, 2));
  }

  /** `[x, x, y, y]` holds x twice and y twice. */
  lemma TwoTiedMultiset(x: string, y: string)
    requires x != y
    ensures multiset([x, x, y, y])[x] == 2 && multiset([x, x, y, y])[y] == 2
  {
  }

  /**
   * End to end: "a/b x", "c/d x,y", "e/f y" with `count` 2 ranks x before y. Both are seen twice,
   * and the tie goes to x, the name encountered first.
   */
  lemma ExampleEndToEnd()
    ensures TopPackages(["a/b" + " " + "x", "c/d" + " " + ("x" + "," + "y"), "e/f" + " " + "y"], 2) == [Entry("x", 2), Entry("y", 2)]
  {
    ExampleNames();
    TwoTiedNames(["a/b" + " " + "x", "c/d" + " " + ("x" + "," + "y"), "e/f" + " " + "y"], "x", "y");
  }
}
