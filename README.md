# Debian Contents top-packages counter, modelled in Dafny

`src/main/main.py` downloads the Contents index of a Debian architecture. It reports the packages that own the most files. This project models what the program does with the index once the lines are in hand:

- **Line matching.** Each line is stripped and matched against `^(\S.*\S)\s+(\S+)\s*$`. The first group is the file path and the second is the comma-separated package field. This is module `ContentsLine`, built on the string built-ins in `Text`.
- **Counting.** The package field of every matching line is split on `,` and handed to `Counter.update`. Module `Frequency` models this: the class `PackageCounter` is the mutable `Counter`, and the functions `Bump`, `AddAll` and `NoteAll` state what `update` does to its counts and its key order.
- **Ranking.** `Counter.most_common(count)` is a stable sort by descending count, cut to `count` entries. This is module `Ranking`.
- **The whole of `package_parser` without its download.** Parsing, counting and ranking together are module `Pipeline`, with the method `PackageParser`.
- **Output.** The rows `package_repr` would print are module `Presenter`. They are returned as strings, not printed.

Three behaviours of the code deserve a note:

- **Empty segments are counted.** `"a,,b".split(',')` gives `"a"`, `""` and `"b"`, and the empty name is counted like any other.
- **Ties go to the first-seen name.** Equal counts keep the order in which names were first stored in the `Counter`, not the order of the lexicographically smaller name. It is proved in `Ranking.MostCommonTieOrder` and `Pipeline.TopPackagesTieOrder`, and `Pipeline.ExampleEndToEnd` shows it on three lines.
- **An empty ranking crashes the formatter.** `package_repr` takes `max` over its input, so an empty ranking raises `ValueError`. This is recorded under "Findings". The corrected `Presenter.Report` returns no rows for no entries.

The model makes three choices of representation:

- `\s` of a `str` pattern and `str.strip()` use the same set of characters. That set is the one `str.isspace()` accepts, and it is `Text.Whitespace`.
- `.` matches anything but `\n`.
- The regular expression is modelled twice. `ContentsLine.Groups` states what the pattern accepts. A tokenizer (`ContentsLine.Tokenize`) scans the stripped line from its end. `ContentsLine.ParseLineIffMatches` proves the two agree.

## Model

| member | source | states |
|---|---|---|
| Text.Whitespace | src/main/main.py:64 | The characters `\s`, `str.isspace()` and `str.strip()` treat as whitespace: the ASCII ones, U+0085, U+00A0, U+1680, U+2000 to U+200A, U+2028, U+2029, U+202F, U+205F and U+3000. |
| Text.AsciiWhitespace | src/main/main.py:64 | Below U+0080, whitespace is exactly space, TAB to CR, and U+001C to U+001F. No printable ASCII character is whitespace. |
| Text.Strip | src/main/main.py:64 | `line.strip()`: the result is empty exactly when the line is all whitespace. Otherwise it begins and ends with non-whitespace and is a slice of the line. |
| Text.Split | src/main/main.py:67 | `str.split(',')` always yields at least one piece. |
| Text.SplitPieces | src/main/main.py:67 | `split` yields one more piece than there are separators, and no piece holds the separator. |
| Text.JoinSplit | src/main/main.py:67 | Joining the pieces of `split` with the separator gives back the original string, empty pieces included. |
| Text.SplitJoin | src/main/main.py:67 | Splitting a join of separator-free pieces gives back exactly those pieces. |
| Text.Decimal | src/main/main.py:31 | `str(n)`: at least one character, all decimal digits, no leading zero. |
| Text.DecimalRoundTrip | src/main/main.py:31 | Reading the digits of `str(n)` back gives `n`. |
| Text.PadRight | src/main/main.py:31 | `{name:{width}}`: the name, then spaces up to the width. It is never shortened. |
| Text.PadLeft | src/main/main.py:31 | `{rank:2}`: spaces, then the number, up to the width. It is never shortened. |
| ContentsLine.Groups | src/main/main.py:64 | The positions at which `^(\S.*\S)\s+(\S+)\s*$` can match with groups `s[..i]` and `s[j..e]`. Any match needs at least 4 characters, with whitespace at `i` and the package field starting with non-whitespace at `j`. |
| ContentsLine.Matches | src/main/main.py:64 | `re.match` succeeds with groups `(path, pkgs)`. The line has at least 4 characters, the path at least 2 and is a prefix of the line, and the package field is non-empty. |
| ContentsLine.GroupsUnique | src/main/main.py:61-64 | However the regex engine backtracks, a line matches with at most one split into path, gap and package field. |
| ContentsLine.Tokenize | src/main/main.py:64 | On a stripped line, an accepted path has at least 2 characters and begins and ends with non-whitespace. An accepted package field is non-empty and free of whitespace. |
| ContentsLine.ParseLine | src/main/main.py:62-64 | The same guarantees for the matched groups of `re.match(..., line.strip())`. |
| ContentsLine.TokenizeSound | src/main/main.py:64 | Whatever the tokenizer accepts, the pattern matches, with the same groups. |
| ContentsLine.TokenizeComplete | src/main/main.py:64 | Whatever the pattern matches on a stripped line, the tokenizer returns, with the same groups. |
| ContentsLine.ParseLineSound | src/main/main.py:64 | An accepted line matches the pattern once stripped, with the returned path and package field as groups. |
| ContentsLine.ParseLineComplete | src/main/main.py:64 | Every match of the pattern on the stripped line is what `ParseLine` returns. |
| ContentsLine.ParseLineIffMatches | src/main/main.py:64-65 | `ParseLine` returns `(path, pkgs)` if and only if the stripped line matches with those groups. |
| ContentsLine.SingleTokenNoMatch | src/main/main.py:64-65 | A line whose stripped form has no whitespace, and so a single token, gives no match. |
| ContentsLine.BlankNoMatch | src/main/main.py:64-65 | Empty and whitespace-only lines give no match. |
| ContentsLine.StripUnchanged | src/main/main.py:64 | Stripping leaves a line that begins and ends with non-whitespace as it is. |
| ContentsLine.ParseSeparated | src/main/main.py:61-64 | A path, a whitespace gap and a whitespace-free token parse to exactly that path and token. The path may contain inner spaces. |
| ContentsLine.ExampleTwoPackages | src/main/main.py:64 | `"usr/bin/foo     util-a,util-b"` parses to path `"usr/bin/foo"` and package field `"util-a,util-b"`. |
| ContentsLine.ExampleSpaceInPath | src/main/main.py:61-64 | `"usr/lib/my app/bin   pkg1"` parses to path `"usr/lib/my app/bin"`, keeping the embedded space, and package `"pkg1"`. |
| Frequency.AddAll | src/main/main.py:67 | `Counter.update(names)` on the counts: no key is ever lost, and every name fed becomes a key. |
| Frequency.Note | src/main/main.py:67 | Storing a name in the dict: the old key order is kept as a prefix, the name is present, and at most one key is added. |
| Frequency.NoteAll | src/main/main.py:67 | The key order after `Counter.update(names)`: the old order is kept as a prefix, and the keys are the old keys and the names fed. |
| Frequency.ItemsOf | src/main/main.py:70 | `Counter.items()`: one entry per key, and an entry is present exactly when its name is a key and its count is that key's count. |
| Frequency.Bump | src/main/main.py:67 | One `self[k] = self.get(k, 0) + 1`: the key set gains `k`, `k`'s count goes up by 1, and every other count is unchanged. |
| Frequency.AddAllCount | src/main/main.py:67 | After `update(names)`, each key's count has grown by the number of times it occurs in `names`. |
| Frequency.AddAllKeys | src/main/main.py:67 | After `update(names)`, the keys are the old keys plus every name in `names`. |
| Frequency.AddAllAppend | src/main/main.py:59-67 | Updating with `a + b` is updating with `a`, then with `b`. |
| Frequency.NoteAllAppend | src/main/main.py:59-67 | The key order after `a + b` is the key order after `a`, then after `b`. |
| Frequency.BumpPreserves | src/main/main.py:67 | One increment keeps the key order listing each key once with a count of at least 1. The total of all counts grows by 1. |
| Frequency.AddAllPreserves | src/main/main.py:67 | `update(names)` keeps that invariant, and the total of all counts grows by `len(names)`. |
| Frequency.NoteAllFirstSeen | src/main/main.py:59-67 | Starting empty, the key order holds exactly the names seen, each once, ordered by first occurrence. |
| Frequency.PackageCounter.constructor | src/main/main.py:45 | `Counter([])`: no counts and no keys. |
| Frequency.PackageCounter.Update | src/main/main.py:67 | The loop of `Counter.update`: the new counts and key order are `AddAll` and `NoteAll` of the old ones. Each count grows by its multiplicity, the invariant holds, and the total grows by the number of names. |
| Frequency.PackageCounter.Items | src/main/main.py:70 | The counter's `items()`: exactly its keys with their counts. When the counter is valid, every entry has a stored name and a count of at least 1. |
| Ranking.SortByCount | src/main/main.py:70 | The sort behind `most_common` is a permutation of the items. |
| Ranking.InsertSorted | src/main/main.py:70 | Inserting an entry into a sequence sorted by count keeps it sorted by count. |
| Ranking.InsertWithCount | src/main/main.py:70 | Insertion puts the new entry ahead of the entries with its own count and leaves the other counts' order alone. |
| Ranking.SortByCountSorted | src/main/main.py:70 | The result is ordered by non-increasing count. |
| Ranking.SortByCountStable | src/main/main.py:70 | For every count, the entries having it keep the order they had among the items: the sort is stable. |
| Ranking.StableSortUnique | src/main/main.py:70 | Two sequences sorted by count with the same entries per count, in the same order, are equal. So `sorted(items, key=count, reverse=True)`, being stable, gives this result. `heapq.nlargest(n, ...)` is documented to equal its first `n` entries, which is `MostCommon`. |
| Ranking.SortByCountNoDuplicates | src/main/main.py:70 | Sorting items with distinct names keeps the names distinct. |
| Ranking.MostCommon | src/main/main.py:70 | `most_common(n)` has `min(n, len(items))` entries, or none when `n <= 0`, and is a prefix of the stable sort. |
| Ranking.MostCommonEntries | src/main/main.py:70 | The result has no duplicate names, and every entry is one of the counter's items. |
| Ranking.MostCommonSorted | src/main/main.py:70 | The result is ordered by non-increasing count. |
| Ranking.MostCommonKeepsLargest | src/main/main.py:70 | Every returned count is at least every count left out. |
| Ranking.MostCommonTies | src/main/main.py:70 | For each count, the returned entries having it are the first entries having it in the counter's order. |
| Ranking.MostCommonTieOrder | src/main/main.py:70 | Two returned entries with equal counts appear in the order they have among the counter's items. |
| Presenter.MaxNameLength | src/main/main.py:29 | `max(len(name) ...)` of a non-empty list is at least every name's length and equal to one of them. |
| Presenter.Row | src/main/main.py:31 | One f-string row: it starts with the rank padded to at least 2 columns and ends with the decimal count, with at least the 3 characters `. ` and the tab between them. |
| Presenter.Rows | src/main/main.py:30-31 | The rows of the `enumerate` loop: exactly one row per entry. |
| Presenter.FormatRows | src/main/main.py:29-31 | The rows of `package_repr`: one row per entry, in input order, numbered from 1, each `Row(i + 1, entry, max_len)` with `max_len` the longest name plus 4. Like the source, it needs a non-empty list. |
| Presenter.Report | src/main/main.py:18-31 | The corrected formatter: no rows for no entries, otherwise the rows of `FormatRows`. |
| Presenter.RankWidth | src/main/main.py:31 | A rank from 1 to 99 fills exactly the two columns of `{i:2}`. |
| Presenter.RowLayout | src/main/main.py:31 | Layout of a row: rank in columns 0-1, `". "`, then the name from column 4 padded with spaces to the width. A tab follows at column `4 + width`; after it comes the count, whose digits read back as the count. |
| Presenter.RowsAligned | src/main/main.py:28-31 | With up to 99 entries and one shared width, every row has its tab, and so its count, in the same column. Each name starts at column 4. |
| Pipeline.LineNames | src/main/main.py:64-67 | The names one line hands to `pkg_count.update`: none exactly when the line does not match. A matching line always gives at least one name, possibly an empty one. |
| Pipeline.Tally | src/main/main.py:45-67 | The counts after the loop: the keys are exactly the names contributed by the matching lines. |
| Pipeline.KeyOrder | src/main/main.py:45-67 | The counter's key order after the loop: it holds exactly the names contributed by the matching lines. |
| Pipeline.TopPackages | src/main/main.py:45-70 | What `package_parser` returns: nothing when `count <= 0`, and otherwise only names that were seen, each with its final count. |
| Pipeline.LineNamesShape | src/main/main.py:65-67 | A non-matching line contributes nothing. A matching line contributes its package field split on commas: one more name than commas, none holding a comma, joining back to the field. |
| Pipeline.FlatMapAppend | src/main/main.py:59-67 | The names of two runs of lines, one after the other, are the names of each run, one after the other. |
| Pipeline.FlatMapPermutation | src/main/main.py:59-67 | Reordering the lines only reorders the names they contribute, as a multiset. |
| Pipeline.PackageParser | src/main/main.py:45-71 | The loop over the lines with a `PackageCounter`, then `most_common(count)`: it returns `TopPackages(lines, count)`. |
| Pipeline.TallyCounts | src/main/main.py:59-67 | Each final count equals the number of occurrences of that name among the segments of all matching lines. |
| Pipeline.TallyTotal | src/main/main.py:59-67 | The counts and the key order agree, and the sum of all counts is the number of segments seen, empty ones included. |
| Pipeline.KeyOrderFirstSeen | src/main/main.py:59-67 | The counter's key order lists every name seen exactly once, ordered by first occurrence. |
| Pipeline.SkippedLine | src/main/main.py:64-65 | A non-matching line changes neither the counts nor the key order. |
| Pipeline.MatchedLine | src/main/main.py:65-67 | A matching line raises each segment's count by its number of occurrences, empty segments included, and leaves every other key alone. The total grows by the number of commas plus one. |
| Pipeline.TallyOrderIndependent | src/main/main.py:59-67 | Lines with the same multiset give the same counts and the same set of keys. Only the key order can depend on the order of the lines. |
| Pipeline.ItemsFaithful | src/main/main.py:70 | `items()` lists every name seen exactly once, paired with its count, and nothing else. |
| Pipeline.TopPackagesShape | src/main/main.py:70 | The ranking has `min(count, distinct names)` entries, or none when `count <= 0`. It has no name twice, each entry has its true count, and the order is by non-increasing count. |
| Pipeline.TopPackagesLargest | src/main/main.py:70 | Every returned count is at least the count of every name left out. |
| Pipeline.TopPackagesTieOrder | src/main/main.py:70 | Returned names with equal counts appear in the order in which they were first encountered in the index. |
| Pipeline.TopPackagesComplete | src/main/main.py:70 | When `count` is at least the number of distinct names, every name seen is returned with its count. |
| Pipeline.NoMatchNoRanking | src/main/main.py:59-71 | If no line matches, `package_parser` returns an empty list. |
| Pipeline.HeaderOnlyIndex | src/main/main.py:59-71 | An index that holds only the single-token line `FILE` yields an empty ranking. |
| Pipeline.ExampleLineNames | src/main/main.py:64-67 | `"usr/bin/foo     util-a,util-b"` contributes `util-a` and `util-b`. |
| Pipeline.TwoTiedNames | src/main/main.py:70 | Names seen as x, x, y, y rank as `[(x, 2), (y, 2)]` under `most_common(2)`. |
| Pipeline.ExampleEndToEnd | src/main/main.py:59-71 | The lines `a/b x`, `c/d x,y` and `e/f y` with `count` 2 give `[("x", 2), ("y", 2)]`. The tie goes to `x`, which was seen first. |

## Left out

- The download: `requests.get`, `raise_for_status` and `req.raw` (src/main/main.py:50-54). This is network I/O.
- Decompression: `gzip.open(...).readlines()` (src/main/main.py:55-56) is a foreign library. The model takes the index as a sequence of lines.
- Decoding: `line.decode('utf-8')` (src/main/main.py:64) is a foreign decoder. Lines are character strings, so a line that is not valid UTF-8 is not modelled. That `UnicodeDecodeError` would end in the `except` path.
- Error handling: `except Exception`, its `print` calls and `sys.exit(1)` (src/main/main.py:72-76) are side effects. They have no logic to verify.
- The command-line wiring: `main`, `argparse` and the URL built from `URL_BASE` (src/main/main.py:15, 46, 79-96).
- Printing: the `print` in `package_repr` (src/main/main.py:31) is left out. The model returns the rows it would print, without newlines.
- `heapq.nlargest`, which `most_common` calls, is not modelled step by step. `Ranking.MostCommon` is the stable descending sort cut to `n`, which `nlargest` is documented to equal. `Ranking.StableSortUnique` shows that every stable descending sort, such as `sorted(..., reverse=True)`, gives one and the same result. Nothing is proved about `nlargest` itself.
- Presenter.RowLayout: states the column layout only for ranks 1 to 99. A rank from 100 on takes three columns and shifts its row; `FormatRows` still produces such rows, since `PadLeft` never truncates.
- Presenter.RowsAligned: claims alignment only for at most 99 entries, for the same reason. `package_parser` is called with its default `count` of 10.

## Findings

| source | as written | input that shows it | evidently intended | confidence | as-written member | corrected member |
|---|---|---|---|---|---|---|
| src/main/main.py:29 | `max(len(i[0]) for i in pkgs)` raises `ValueError` when `pkgs` is empty, and `main` passes whatever `package_parser` returns straight to `package_repr`. | An index in which no line has the shape path, whitespace, package field, such as the single line `FILE`. `package_parser` then returns `[]`. | An empty ranking prints no rows instead of crashing. | not executed | Presenter.FormatRows (requires a non-empty list) with Pipeline.HeaderOnlyIndex | Presenter.Report |
