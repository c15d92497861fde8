/**
 * Matching one line of a Debian Contents index, as `package_parser` does with
 * `re.match(r'^(\S.*\S)\s+(\S+)\s*$', line.strip())`: the first group is the file path,
 * the second the comma-separated package field.
 *
 * `Groups` states what the regular expression accepts; `ParseLine` is a hand-written
 * tokenizer that scans the stripped line from its end; `ParseLineIffMatches` proves the two agree.
 */
module ContentsLine {
  import opened Wrappers
  import opened Text

  /**
   * `s` matches the pattern with group 1 = `s[..i]`, group 2 = `s[j..e]`:
   * `\S.*\S` is `s[..i]` (first and last character non-whitespace, no newline, since `.` excludes it),
   * `\s+` is `s[i..j]`, `\S+` is `s[j..e]` and `\s*$` is `s[e..]`.
   */
  predicate Groups(s: string, i: nat, j: nat, e: nat)
    ensures Groups(s, i, j, e) ==> |s| >= 4 && i < j < |s| && Whitespace(s[i]) && !Whitespace(s[j])
  {
    && 2 <= i < j < e <= |s|
    && !Whitespace(s[0]) && !Whitespace(s[i - 1])
    && (forall k :: 1 <= k < i - 1 ==> s[k] != '\n')
    && Run(s, i, j, true)
    && Run(s, j, e, false)
    && Run(s, e, |s|, true)
  }

  /** `re.match` of the pattern against `s` succeeds with groups `(path, pkgs)`. */
  ghost predicate Matches(s: string, path: string, pkgs: string)
    ensures Matches(s, path, pkgs) ==> |s| >= 4 && |path| >= 2 && |pkgs| >= 1 && path <= s
  {
    exists i: nat, j: nat, e: nat :: Groups(s, i, j, e) && path == s[..i] && pkgs == s[j..e]
  }

  /**
   * Whichever way the regular-expression engine backtracks, a match has only one set of groups:
   * the package field is the last maximal run of non-whitespace, so the greedy `.*` changes nothing.
   */
  lemma GroupsUnique(s: string, i: nat, j: nat, e: nat, i': nat, j': nat, e': nat)
    requires Groups(s, i, j, e) && Groups(s, i', j', e')
    ensures i == i' && j == j' && e == e'
  {
    RunStartUnique(s, |s|, true, e);
    RunStartUnique(s, |s|, true, e');
    RunStartUnique(s, e, false, j);
    RunStartUnique(s, e, false, j');
    RunStartUnique(s, j, true, i);
    RunStartUnique(s, j, true, i');
  }

  /** What `str.strip()` leaves: nothing, or a string that begins and ends with non-whitespace. */
  predicate Stripped(t: string) {
    t == [] || (!Whitespace(t[0]) && !Whitespace(t[|t| - 1]))
  }

  /**
   * The tokenizer on a stripped line `t`: take the last whitespace-free token as the package field,
   * skip the whitespace before it, and keep the rest as the path if it is at least two characters
   * long and holds no newline.
   */
  function Tokenize(t: string): (r: Option<(string, string)>)
    requires Stripped(t)
    ensures r.Some? ==> |r.value.0| >= 2 && |r.value.1| >= 1
    ensures r.Some? ==> !Whitespace(r.value.0[0]) && !Whitespace(r.value.0[|r.value.0| - 1])
    ensures r.Some? ==> forall k :: 0 <= k < |r.value.1| ==> !Whitespace(r.value.1[k])
  {
    var j := RunStart(t, |t|, false);  // where the package field starts
    var i := RunStart(t, j, true);     // where the path ends
    if j == 0 || i < 2 || '\n' in t[..i] then None
    else Some((t[..i], t[j..]))
  }

  /**
   * `re.match(r'^(\S.*\S)\s+(\S+)\s*$', line.strip())`: a path of at least two characters that
   * begins and ends with non-whitespace, and a package field free of whitespace.
   */
  function ParseLine(line: string): (r: Option<(string, string)>)
    ensures r.Some? ==> |r.value.0| >= 2 && |r.value.1| >= 1
    ensures r.Some? ==> !Whitespace(r.value.0[0]) && !Whitespace(r.value.0[|r.value.0| - 1])
    ensures r.Some? ==> forall k :: 0 <= k < |r.value.1| ==> !Whitespace(r.value.1[k])
  {
    var t := Strip(line);
    assert Stripped(t);
    Tokenize(t)
  }

  /** Every string the tokenizer accepts is matched by the regular expression, with the same groups. */
  lemma TokenizeSound(t: string)
    requires Stripped(t) && Tokenize(t).Some?
    ensures Matches(t, Tokenize(t).value.0, Tokenize(t).value.1)
  {
    var j := RunStart(t, |t|, false);
    var i := RunStart(t, j, true);
    assert t[0] == t[..i][0] && t[i - 1] == t[..i][i - 1];
    assert forall k :: 1 <= k < i - 1 ==> t[k] != '\n' by {
      forall k | 1 <= k < i - 1 ensures t[k] != '\n' {
        assert t[k] == t[..i][k];
      }
    }
    assert Groups(t, i, j, |t|);
  }

  /** Every line the tokenizer accepts is matched by the regular expression, with the same groups. */
  lemma ParseLineSound(line: string)
    requires ParseLine(line).Some?
    ensures Matches(Strip(line), ParseLine(line).value.0, ParseLine(line).value.1)
  {
    TokenizeSound(Strip(line));
  }

  /** On a string that ends in non-whitespace, the groups of a match are where the tokenizer looks. */
  lemma GroupsAtRunStarts(t: string, i: nat, j: nat, e: nat)
    requires Groups(t, i, j, e) && !Whitespace(t[|t| - 1])
    ensures e == |t| && j == RunStart(t, |t|, false) && i == RunStart(t, j, true)
    ensures '\n' !in t[..i]
  {
    RunStartUnique(t, |t|, false, j);
    RunStartUnique(t, j, true, i);
    assert Whitespace('\n');
    forall k | 0 <= k < i ensures t[..i][k] != '\n' {
      if k == 0 || k == i - 1 {
        assert !Whitespace(t[k]);
      }
    }
  }

  /** On a stripped string, every match of the regular expression is found by the tokenizer. */
  lemma TokenizeComplete(t: string, path: string, pkgs: string)
    requires Stripped(t)
    requires Matches(t, path, pkgs)
    ensures Tokenize(t) == Some((path, pkgs))
  {
    var i: nat, j: nat, e: nat :| Groups(t, i, j, e) && path == t[..i] && pkgs == t[j..e];
    GroupsAtRunStarts(t, i, j, e);
    assert pkgs == t[j..];
  }

  /** Every match of the regular expression is found by the tokenizer, with the same groups. */
  lemma ParseLineComplete(line: string, path: string, pkgs: string)
    requires Matches(Strip(line), path, pkgs)
    ensures ParseLine(line) == Some((path, pkgs))
  {
    TokenizeComplete(Strip(line), path, pkgs);
  }

  /** The tokenizer accepts exactly the lines the regular expression matches, with the same groups. */
  lemma ParseLineIffMatches(line: string, path: string, pkgs: string)
    ensures ParseLine(line) == Some((path, pkgs)) <==> Matches(Strip(line), path, pkgs)
  {
    if ParseLine(line) == Some((path, pkgs)) {
      ParseLineSound(line);
    }
    if Matches(Strip(line), path, pkgs) {
      ParseLineComplete(line, path, pkgs);
    }
  }

  /** A match is never found when the line has no whitespace between two non-whitespace characters. */
  lemma SingleTokenNoMatch(line: string)
    requires Run(Strip(line), 0, |Strip(line)|, false)
    ensures ParseLine(line) == None
  {
    var t := Strip(line);
    RunStartUnique(t, |t|, false, 0);
  }

  /** Blank and whitespace-only lines produce no match. */
  lemma BlankNoMatch(line: string)
    requires Run(line, 0, |line|, true)
    ensures ParseLine(line) == None
  {
  }

  /** Stripping leaves a string that begins and ends with non-whitespace unchanged. */
  lemma StripUnchanged(s: string)
    requires |s| >= 1 && !Whitespace(s[0]) && !Whitespace(s[|s| - 1])
    ensures Strip(s) == s
  {
    RunStartUnique(s, |s|, true, |s|);
    var j := RunStart(s, |s|, true);
    assert RunEnd(s, 0, j, true) == 0;
  }

  /**
   * A line laid out as a path, a whitespace gap and a whitespace-free token parses to that path and token:
   * the path may hold inner spaces, and the token is the whole package field.
   */
  lemma ParseSeparated(path: string, gap: string, pkgs: string)
    requires |path| >= 2 && !Whitespace(path[0]) && !Whitespace(path[|path| - 1]) && '\n' !in path
    requires |gap| >= 1 && Run(gap, 0, |gap|, true)
    requires |pkgs| >= 1 && Run(pkgs, 0, |pkgs|, false)
    ensures ParseLine(path + gap + pkgs) == Some((path, pkgs))
  {
    var s := path + gap + pkgs;
    var i, j := |path|, |path| + |gap|;
    assert s[..i] == path && s[j..|s|] == pkgs;
    assert forall k :: 0 <= k < i ==> s[k] == path[k];
    assert forall k :: i <= k < j ==> s[k] == gap[k - i];
    assert forall k :: j <= k < |s| ==> s[k] == pkgs[k - j];
    StripUnchanged(s);
    assert Groups(s, i, j, |s|);
    ParseLineComplete(s, path, pkgs);
  }

  /** The three fields of the first example line have the shapes `ParseSeparated` asks for. */
  lemma TwoPackagesFields()
    ensures Run("     ", 0, 5, true) && Run("util-a,util-b", 0, 13, false) && '\n' !in "usr/bin/foo"
  {
    RunOfMembers("     ", true);
    RunOfMembers("util-a,util-b", false);
  }

  /** "usr/bin/foo     util-a,util-b": the package field is the last token. */
  lemma ExampleTwoPackages()
    ensures ParseLine("usr/bin/foo" + "     " + "util-a,util-b") == Some(("usr/bin/foo", "util-a,util-b"))
  {
    TwoPackagesFields();
    ParseSeparated("usr/bin/foo", "     ", "util-a,util-b");
  }

  /** "usr/lib/my app/bin   pkg1": the path keeps its embedded space. */
  lemma ExampleSpaceInPath()
    ensures ParseLine("usr/lib/my app/bin" + "   " + "pkg1") == Some(("usr/lib/my app/bin", "pkg1"))
  {
    RunOfMembers("   ", true);
    RunOfMembers("pkg1", false);
    ParseSeparated("usr/lib/my app/bin", "   ", "pkg1");
  }
}
