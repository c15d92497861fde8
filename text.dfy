/**
 * The handful of Python string built-ins the program relies on, written out:
 * `str.isspace` (which is also what `\s` matches in a `str` pattern), `str.strip()`,
 * `str.split(sep)` with its inverse `sep.join`, `str(n)` for a non-negative int, and
 * the space padding of a format specification.
 */
module Text {

  /** A character for which Python's `str.isspace()` holds; `\s` of `re` and `str.strip()` use the same set. */
  predicate Whitespace(c: char)
  {
    || ('\t' <= c <= '\r')                     // TAB, LF, VT, FF, CR
    || ('\U{1C}' <= c <= '\U{1F}')             // the four information separators
    || c == ' ' || c == '\U{85}' || c == '\U{A0}' || c == '\U{1680}'
    || ('\U{2000}' <= c <= '\U{200A}')
    || c == '\U{2028}' || c == '\U{2029}' || c == '\U{202F}' || c == '\U{205F}' || c == '\U{3000}'
  }

  /** Among ASCII characters, whitespace is exactly the space, TAB to CR and the four information separators. */
  lemma AsciiWhitespace(c: char)
    requires c < '\U{80}'
    ensures Whitespace(c) <==> c == ' ' || '\t' <= c <= '\r' || '\U{1C}' <= c <= '\U{1F}'
    ensures '!' <= c <= '~' ==> !Whitespace(c)
  {
  }

  /** Every character of `s[lo..hi]` is whitespace (when `ws`) or non-whitespace (when `!ws`). */
  predicate Run(s: string, lo: nat, hi: nat, ws: bool)
    requires lo <= hi <= |s|
  {
    forall k :: lo <= k < hi ==> Whitespace(s[k]) == ws
  }

  /** A string all of whose characters are (or are not) whitespace is one run. */
  lemma RunOfMembers(s: string, ws: bool)
    requires forall c :: c in s ==> Whitespace(c) == ws
    ensures Run(s, 0, |s|, ws)
  {
    forall k | 0 <= k < |s|
      ensures Whitespace(s[k]) == ws
    {
      assert s[k] in s;
    }
  }

  /** Start of the longest run of `ws`-characters that ends at `end`. */
  function RunStart(s: string, end: nat, ws: bool): (i: nat)
    requires end <= |s|
    ensures i <= end && Run(s, i, end, ws)
    ensures i == 0 || Whitespace(s[i - 1]) != ws
    decreases end
  {
    if end == 0 || Whitespace(s[end - 1]) != ws then end else RunStart(s, end - 1, ws)
  }

  /** End of the longest run of `ws`-characters that starts at `start` and stays below `end`. */
  function RunEnd(s: string, start: nat, end: nat, ws: bool): (j: nat)
    requires start <= end <= |s|
    ensures start <= j <= end && Run(s, start, j, ws)
    ensures j == end || Whitespace(s[j]) != ws
    decreases end - start
  {
    if start == end || Whitespace(s[start]) != ws then start else RunEnd(s, start + 1, end, ws)
  }

  /** A run boundary is unique: any `i` with the two properties `RunStart` promises is `RunStart`'s answer. */
  lemma RunStartUnique(s: string, end: nat, ws: bool, i: nat)
    requires i <= end <= |s| && Run(s, i, end, ws)
    requires i == 0 || Whitespace(s[i - 1]) != ws
    ensures i == RunStart(s, end, ws)
  {
  }

  /** Bounds of `str.strip()`: the whitespace prefix `s[..i]` and whitespace suffix `s[j..]` it removes. */
  function StripBounds(s: string): (b: (nat, nat))
    ensures b.0 <= b.1 <= |s|
    ensures Run(s, 0, b.0, true) && Run(s, b.1, |s|, true)
    ensures b.0 < b.1 ==> !Whitespace(s[b.0]) && !Whitespace(s[b.1 - 1])
    ensures b.0 == b.1 ==> Run(s, 0, |s|, true)
  {
    var j := RunStart(s, |s|, true);
    var i := RunEnd(s, 0, j, true);
    (i, j)
  }

  /** Python's `s.strip()`: `s` without its leading and trailing whitespace. */
  function Strip(s: string): (r: string)
    ensures r == [] || (!Whitespace(r[0]) && !Whitespace(r[|r| - 1]))
    ensures r == [] <==> Run(s, 0, |s|, true)
    ensures exists i :: 0 <= i <= |s| - |r| && s[i..i + |r|] == r
                        && Run(s, 0, i, true) && Run(s, i + |r|, |s|, true)
  {
    var b := StripBounds(s);
    assert s[b.0..b.0 + (b.1 - b.0)] == s[b.0..b.1];
    s[b.0..b.1]
  }

  /** Python's `sep.join(parts)`. */
  function Join(parts: seq<string>, sep: char): (s: string)
    decreases |parts|
  {
    if |parts| == 0 then []
    else if |parts| == 1 then parts[0]
    else parts[0] + [sep] + Join(parts[1..], sep)
  }

  /**
   * Python's `s.split(sep)` for a one-character separator: the pieces between separators,
   * empty pieces included (`"a,,b"` gives three pieces, `""` gives one empty piece).
   */
  function Split(s: string, sep: char): (parts: seq<string>)
    ensures |parts| >= 1
    decreases |s|
  {
    if s == [] then [[]]
    else
      var rest := Split(s[1..], sep);
      if s[0] == sep then [[]] + rest
      else [[s[0]] + rest[0]] + rest[1..]
  }

  /** There is one more piece than there are separators, and no piece holds a separator. */
  lemma {:induction false} SplitPieces(s: string, sep: char)
    ensures |Split(s, sep)| == multiset(s)[sep] + 1
    ensures forall i :: 0 <= i < |Split(s, sep)| ==> sep !in Split(s, sep)[i]
    decreases |s|
  {
    if s != [] {
      SplitPieces(s[1..], sep);
      assert s == [s[0]] + s[1..];
      var rest := Split(s[1..], sep);
      var parts := Split(s, sep);
      if s[0] == sep {
        assert parts == [[]] + rest;
        forall i | 0 < i < |parts| ensures sep !in parts[i] {
          assert parts[i] == rest[i - 1];
        }
      } else {
        assert parts == [[s[0]] + rest[0]] + rest[1..];
        forall i | 0 < i < |parts| ensures sep !in parts[i] {
          assert parts[i] == rest[i];
        }
      }
    }
  }

  /** Joining the pieces with the separator gives back the text: `sep.join(s.split(sep)) == s`. */
  lemma {:induction false} JoinSplit(s: string, sep: char)
    ensures Join(Split(s, sep), sep) == s
    decreases |s|
  {
    if s != [] {
      JoinSplit(s[1..], sep);
      var rest := Split(s[1..], sep);
      assert s == [s[0]] + s[1..];
      if s[0] == sep {
        assert ([[]] + rest)[1..] == rest;
      } else {
        SplitConsHead(s[0], rest, sep);
      }
    }
  }

  /** Joining after growing the first piece by one leading character grows the joined text likewise. */
  lemma SplitConsHead(c: char, rest: seq<string>, sep: char)
    requires |rest| >= 1
    ensures Join([[c] + rest[0]] + rest[1..], sep) == [c] + Join(rest, sep)
  {
    var parts := [[c] + rest[0]] + rest[1..];
    if |rest| > 1 {
      assert parts[1..] == rest[1..];
    }
  }

  /** Splitting text that starts with an ordinary character puts that character in front of the first piece. */
  lemma SplitOrdinaryHead(c: char, s: string, sep: char)
    requires c != sep
    ensures Split([c] + s, sep) == [[c] + Split(s, sep)[0]] + Split(s, sep)[1..]
  {
    assert ([c] + s)[1..] == s;
  }

  /** Splitting text that starts with the separator puts an empty piece in front. */
  lemma SplitSeparatorHead(s: string, sep: char)
    ensures Split([sep] + s, sep) == [[]] + Split(s, sep)
  {
    assert ([sep] + s)[1..] == s;
  }

  /** Splitting undoes joining: pieces free of the separator come back unchanged. */
  lemma {:induction false} SplitJoin(parts: seq<string>, sep: char)
    requires |parts| >= 1
    requires forall i :: 0 <= i < |parts| ==> sep !in parts[i]
    ensures Split(Join(parts, sep), sep) == parts
    decreases |parts|, |parts[0]|
  {
    if |parts[0]| > 0 {
      var c := parts[0][0];
      var shorter := [parts[0][1..]] + parts[1..];
      assert c != sep by { assert c in parts[0]; }
      forall i | 0 <= i < |shorter| ensures sep !in shorter[i] {
        if i > 0 { assert shorter[i] == parts[i]; }
      }
      SplitJoin(shorter, sep);
      assert [c] + parts[0][1..] == parts[0];
      assert [[c] + shorter[0]] + shorter[1..] == parts;
      SplitConsHead(c, shorter, sep);
      SplitOrdinaryHead(c, Join(shorter, sep), sep);
    } else if |parts| > 1 {
      forall i | 0 <= i < |parts| - 1 ensures sep !in parts[1..][i] {
        assert parts[1..][i] == parts[i + 1];
      }
      SplitJoin(parts[1..], sep);
      assert Join(parts, sep) == [sep] + Join(parts[1..], sep);
      SplitSeparatorHead(Join(parts[1..], sep), sep);
      assert [[]] + parts[1..] == parts;
    } else {
      assert parts == [[]];
    }
  }

  /** The character of a decimal digit. */
  function DigitChar(d: nat): (c: char)
    requires d < 10
    ensures '0' <= c <= '9'
  {
    (48 + d) as char
  }

  /** Python's `str(n)` for a non-negative integer: its decimal digits, without leading zeros. */
  function Decimal(n: nat): (s: string)
    ensures |s| >= 1 && (|s| > 1 ==> s[0] != '0')
    ensures forall k :: 0 <= k < |s| ==> '0' <= s[k] <= '9'
    decreases n
  {
    if n < 10 then [DigitChar(n)] else Decimal(n / 10) + [DigitChar(n % 10)]
  }

  /** The number a string of decimal digits denotes. */
  function DecimalValue(s: string): (n: nat)
    requires forall k :: 0 <= k < |s| ==> '0' <= s[k] <= '9'
    decreases |s|
  {
    if s == [] then 0 else 10 * DecimalValue(s[..|s| - 1]) + (s[|s| - 1] as int - 48)
  }

  /** Reading the digits back gives the number: `int(str(n)) == n`. */
  lemma {:induction false} DecimalRoundTrip(n: nat)
    ensures DecimalValue(Decimal(n)) == n
    decreases n
  {
    if n >= 10 {
      DecimalRoundTrip(n / 10);
      var s := Decimal(n);
      assert s[..|s| - 1] == Decimal(n / 10);
    }
  }

  /** `n` spaces. */
  function Spaces(n: nat): (s: string)
    ensures |s| == n && forall k :: 0 <= k < n ==> s[k] == ' '
  {
    seq(n, _ => ' ')
  }

  /** The format specification `{s:w}` for a string: left-justified, padded with spaces to width `w`. */
  function PadRight(s: string, w: nat): (r: string)
    ensures |r| == if |s| < w then w else |s|
    ensures r[..|s|] == s
    ensures forall k :: |s| <= k < |r| ==> r[k] == ' '
  {
    if |s| < w then s + Spaces(w - |s|) else s
  }

  /** The format specification `{n:w}` for an int: right-justified, padded with spaces to width `w`. */
  function PadLeft(s: string, w: nat): (r: string)
    ensures |r| == if |s| < w then w else |s|
    ensures r[|r| - |s|..] == s
    ensures forall k :: 0 <= k < |r| - |s| ==> r[k] == ' '
  {
    if |s| < w then Spaces(w - |s|) + s else s
  }
}
