/**
 * repoman/release.py: choosing the next release version from the version
 * the package describes, and the names a release is recorded under (the
 * tag and the release commit message).
 */
module Release {
  import opened Wrappers
  import opened PyText

  /** `RELEASE_COMMIT_PREFIX`: marks the commits a release makes. */
  const ReleaseCommitPrefix: string := "[repoman-release]"

  /** `RELEASE_COMMIT_MESSAGE`: the message used when none is given. */
  const ReleaseCommitMessage: string := "Prepare release"

  /** What makes `resolve_next_version` raise (`ValueError` in every case). */
  datatype VersionError =
    | NotAnInteger(field: string)  // `int()` rejects one of the first three fields
    | TooFewFields(count: nat)  // fewer than three fields to unpack
    | InvalidVersionSpecification  // no suffix after the three numbers and no bump flag

  /** `[int(i) for i in fields]`: the numbers, or the first field `int()` rejects. */
  function ParseFields(fields: seq<string>): Result<seq<int>, VersionError>
    decreases |fields|
  {
    if fields == [] then Ok([])
    else match ParseInt(fields[0])
      case None => Err(NotAnInteger(fields[0]))
      case Some(n) =>
        match ParseFields(fields[1..])
        case Err(e) => Err(e)
        case Ok(ns) => Ok([n] + ns)
  }

  /** One field more in front: the comprehension reads it first, and raises if `int()` rejects it. */
  lemma ParseFieldsCons(fields: seq<string>)
    requires fields != []
    ensures ParseInt(fields[0]).None? ==> ParseFields(fields) == Err(NotAnInteger(fields[0]))
    ensures ParseInt(fields[0]).Some? ==> ParseFields(fields).Ok? == ParseFields(fields[1..]).Ok?
    ensures ParseInt(fields[0]).Some? && ParseFields(fields[1..]).Err? ==> ParseFields(fields) == ParseFields(fields[1..])
    ensures ParseFields(fields).Ok? ==> ParseFields(fields).value == [ParseInt(fields[0]).value] + ParseFields(fields[1..]).value
  {
  }

  /**
   * The comprehension succeeds exactly when `int()` accepts every field,
   * and then holds their values in order.
   */
  lemma {:induction false} ParseFieldsSucceeds(fields: seq<string>)
    ensures ParseFields(fields).Ok? <==> forall k :: 0 <= k < |fields| ==> ParseInt(fields[k]).Some?
    ensures ParseFields(fields).Ok? ==> (|ParseFields(fields).value| == |fields|
      && forall k :: 0 <= k < |fields| ==> ParseInt(fields[k]) == Some(ParseFields(fields).value[k]))
    decreases |fields|
  {
    if fields != [] {
      var tail := fields[1..];
      ParseFieldsCons(fields);
      ParseFieldsSucceeds(tail);
      assert forall k :: 0 < k < |fields| ==> fields[k] == tail[k - 1];
      if ParseFields(fields).Ok? {
        var r, rt := ParseFields(fields).value, ParseFields(tail).value;
        assert r == [ParseInt(fields[0]).value] + rt;
        forall k | 0 <= k < |fields| ensures ParseInt(fields[k]) == Some(r[k]) {
          if k > 0 {
            assert r[k] == rt[k - 1];
          }
        }
      }
    }
  }

  /** When the comprehension raises, it names the first field `int()` rejects. */
  lemma {:induction false} ParseFieldsFailsOnFirst(fields: seq<string>)
    requires ParseFields(fields).Err?
    ensures exists k :: (0 <= k < |fields| && ParseInt(fields[k]).None?
      && ParseFields(fields).error == NotAnInteger(fields[k]) && forall j :: 0 <= j < k ==> ParseInt(fields[j]).Some?)
    decreases |fields|
  {
    var tail := fields[1..];
    ParseFieldsCons(fields);
    if ParseInt(fields[0]).Some? {
      ParseFieldsFailsOnFirst(tail);
      var k :| 0 <= k < |tail| && ParseInt(tail[k]).None? && ParseFields(tail).error == NotAnInteger(tail[k])
        && forall j :: 0 <= j < k ==> ParseInt(tail[j]).Some?;
      assert fields[k + 1] == tail[k];
      assert forall j :: 0 < j < k + 1 ==> fields[j] == tail[j - 1];
      assert ParseInt(fields[k + 1]).None? && ParseFields(fields).error == NotAnInteger(fields[k + 1]);
    } else {
      assert ParseInt(fields[0]).None? && ParseFields(fields).error == NotAnInteger(fields[0]);
    }
  }

  /** Three fields: the comprehension reads each of them in turn. */
  lemma ParseFieldsOfThree(fields: seq<string>)
    requires |fields| == 3
    ensures ParseFields(fields).Ok? <==> ParseInt(fields[0]).Some? && ParseInt(fields[1]).Some? && ParseInt(fields[2]).Some?
    ensures ParseFields(fields).Ok? ==> ParseFields(fields).value == [ParseInt(fields[0]).value, ParseInt(fields[1]).value, ParseInt(fields[2]).value]
  {
    var f1 := fields[1..];
    var f2 := f1[1..];
    assert f2[1..] == [];
    ParseFieldsCons(f2);
    ParseFieldsCons(f1);
    ParseFieldsCons(fields);
  }

  /** `s[n:]` for `n >= 0`: `s` without its first `n` characters, or "" when it is shorter. */
  function Drop(s: string, n: nat): (r: string)
    ensures |s| <= n ==> r == ""
    ensures |s| > n ==> r == s[n..] && r != ""
  {
    if |s| <= n then "" else s[n..]
  }

  /** `sum([1 for i in [major, minor, patch] if i])`. */
  function FlagCount(major: bool, minor: bool, patch: bool): (n: nat)
    ensures n == 0 <==> !major && !minor && !patch
  {
    (if major then 1 else 0) + (if minor then 1 else 0) + (if patch then 1 else 0)
  }

  /** `"{:02}-{:02}-{:02}".format(a, b, c)`. */
  function FormatVersion(a: int, b: int, c: int): string {
    Format02(a) + "-" + Format02(b) + "-" + Format02(c)
  }

  /** `s[:n]` for `n >= 0`: the first `n` items of `s`, or all of them when it is shorter. */
  function Take<T>(s: seq<T>, n: nat): (r: seq<T>)
    ensures |s| <= n ==> r == s
    ensures |s| > n ==> r == s[..n] && |r| == n
  {
    if |s| <= n then s else s[..n]
  }

  /**
   * `resolve_next_version(package, major, minor, patch)` for the version
   * `package.describe_version()` returns. The flags stand for the truth
   * values of the arguments. The first three '-'-separated fields are the
   * major, minor and patch numbers; anything after them is the suffix
   * `describe_version` adds past a tag.
   */
  function ResolveNextVersion(currentVersion: string, major: bool, minor: bool, patch: bool): Result<string, VersionError> {
    var splitVersion := Split(currentVersion, '-');
    match ParseFields(Take(splitVersion, 3))
    case Err(e) => Err(e)
    case Ok(numbers) =>
      if |numbers| != 3 then Err(TooFewFields(|numbers|))
      else
        var curMore := if |splitVersion| > 3 then Drop(Join('-', splitVersion), 3) else "";
        var lenArgs := FlagCount(major, minor, patch);
        if curMore == "" && lenArgs == 0 then Err(InvalidVersionSpecification)
        else
          var nextMajor, nextMinor, nextPatch := numbers[0], numbers[1], numbers[2];
          var (nextMajor, nextMinor, nextPatch) :=
            if major then (nextMajor + 1, 0, 0)
            else if minor then (nextMajor, nextMinor + 1, 0)
            else if patch then (nextMajor, nextMinor, nextPatch + 1)
            else (nextMajor, nextMinor, nextPatch);
          Ok(FormatVersion(nextMajor, nextMinor, nextPatch))
  }

  /** The version's first three '-'-separated fields exist and `int()` accepts them. */
  predicate NumericPrefix(version: string) {
    var fields := Split(version, '-');
    |fields| >= 3 && ParseInt(fields[0]).Some? && ParseInt(fields[1]).Some? && ParseInt(fields[2]).Some?
  }

  /** The major, minor and patch numbers of the version; none is negative, as no field holds '-'. */
  function Numbers(version: string): (n: (int, int, int))
    requires NumericPrefix(version)
    ensures n.0 >= 0 && n.1 >= 0 && n.2 >= 0
  {
    var fields := Split(version, '-');
    ParseIntNonNegative(fields[0]);
    ParseIntNonNegative(fields[1]);
    ParseIntNonNegative(fields[2]);
    (ParseInt(fields[0]).value, ParseInt(fields[1]).value, ParseInt(fields[2]).value)
  }

  /** The version has fields after the three numbers. */
  predicate HasSuffix(version: string) {
    |Split(version, '-')| > 3
  }

  /**
   * With more than three fields `cur_more` is never empty: the re-joined
   * string is the version itself, longer than three characters since its
   * first field is not empty and at least three '-' follow it.
   */
  lemma SuffixNotEmpty(version: string)
    requires NumericPrefix(version) && HasSuffix(version)
    ensures Drop(Join('-', Split(version, '-')), 3) != ""
  {
    var fields := Split(version, '-');
    JoinSplit(version, '-');
    JoinLength('-', fields);
    ParseIntEmpty();
    assert |version| > 3;
  }

  /** The numbers `int()` reads from the first three fields, when there are three. */
  lemma {:induction false} LeadingNumbers(version: string)
    ensures var r := ParseFields(Take(Split(version, '-'), 3));
      (r.Ok? && |r.value| == 3) <==> NumericPrefix(version)
    ensures NumericPrefix(version) ==>
      ParseFields(Take(Split(version, '-'), 3)) == Ok([Numbers(version).0, Numbers(version).1, Numbers(version).2])
  {
    var fields := Split(version, '-');
    var leading := Take(fields, 3);
    if |fields| >= 3 {
      ParseFieldsOfThree(leading);
    } else {
      ParseFieldsSucceeds(leading);
    }
  }

  /** The numbers after a bump: major wins over minor and minor over patch; a bump zeroes what follows it. */
  function Bumped(n: (int, int, int), major: bool, minor: bool, patch: bool): (int, int, int) {
    if major then (n.0 + 1, 0, 0)
    else if minor then (n.0, n.1 + 1, 0)
    else if patch then (n.0, n.1, n.2 + 1)
    else n
  }

  /**
   * `resolve_next_version` succeeds exactly when the first three fields
   * are integers and there is a suffix after them or a bump flag.
   */
  lemma ResolveNextVersionSucceeds(version: string, major: bool, minor: bool, patch: bool)
    ensures ResolveNextVersion(version, major, minor, patch).Ok? <==>
      NumericPrefix(version) && (HasSuffix(version) || major || minor || patch)
  {
    LeadingNumbers(version);
    if NumericPrefix(version) && HasSuffix(version) {
      SuffixNotEmpty(version);
    }
  }

  /**
   * "Invalid version specification" is raised exactly for a version of
   * three integer fields and nothing more, with no bump flag; a malformed
   * version raises from `int()` or from the unpacking instead.
   */
  lemma ResolveNextVersionInvalid(version: string, major: bool, minor: bool, patch: bool)
    ensures ResolveNextVersion(version, major, minor, patch) == Err(InvalidVersionSpecification) <==>
      NumericPrefix(version) && !HasSuffix(version) && !major && !minor && !patch
  {
    LeadingNumbers(version);
    var leading := Take(Split(version, '-'), 3);
    if ParseFields(leading).Err? {
      ParseFieldsFailsOnFirst(leading);
    } else if NumericPrefix(version) && HasSuffix(version) {
      SuffixNotEmpty(version);
    }
  }

  /** A successful `resolve_next_version` writes back the bumped numbers. */
  lemma ResolveNextVersionValue(version: string, major: bool, minor: bool, patch: bool)
    requires ResolveNextVersion(version, major, minor, patch).Ok?
    ensures NumericPrefix(version)
    ensures var b := Bumped(Numbers(version), major, minor, patch);
      ResolveNextVersion(version, major, minor, patch).value == FormatVersion(b.0, b.1, b.2)
  {
    LeadingNumbers(version);
  }

  /** The text `"{:02}-{:02}-{:02}".format(a, b, c)` splits into three fields of at least two digits each. */
  lemma FormatVersionFields(a: nat, b: nat, c: nat)
    ensures Split(FormatVersion(a, b, c), '-') == [Format02(a), Format02(b), Format02(c)]
    ensures var fields := Split(FormatVersion(a, b, c), '-');
      && |fields[0]| >= 2 && AllDigits(fields[0]) && |fields[1]| >= 2 && AllDigits(fields[1])
      && |fields[2]| >= 2 && AllDigits(fields[2])
  {
    Format02Digits(a);
    Format02Digits(b);
    Format02Digits(c);
    SplitThree(Format02(a), Format02(b), Format02(c), '-');
  }

  /** The numbers written by `"{:02}-{:02}-{:02}".format` parse back, and nothing follows them. */
  lemma FormatVersionNumbers(a: nat, b: nat, c: nat)
    ensures NumericPrefix(FormatVersion(a, b, c)) && !HasSuffix(FormatVersion(a, b, c))
    ensures Numbers(FormatVersion(a, b, c)) == (a, b, c)
  {
    FormatVersionFields(a, b, c);
    Format02RoundTrip(a);
    Format02RoundTrip(b);
    Format02RoundTrip(c);
  }

  /**
   * What a successful `resolve_next_version` returns, read back: exactly
   * three fields of at least two digits each, holding the bumped numbers.
   */
  lemma ResolveNextVersionShape(version: string, major: bool, minor: bool, patch: bool)
    requires ResolveNextVersion(version, major, minor, patch).Ok?
    ensures NumericPrefix(version)
    ensures var next := ResolveNextVersion(version, major, minor, patch).value;
      var fields := Split(next, '-');
      && NumericPrefix(next) && !HasSuffix(next)
      && |fields[0]| >= 2 && AllDigits(fields[0]) && |fields[1]| >= 2 && AllDigits(fields[1])
      && |fields[2]| >= 2 && AllDigits(fields[2])
      && Numbers(next) == Bumped(Numbers(version), major, minor, patch)
  {
    ResolveNextVersionValue(version, major, minor, patch);
    var n := Bumped(Numbers(version), major, minor, patch);
    FormatVersionFields(n.0, n.1, n.2);
    FormatVersionNumbers(n.0, n.1, n.2);
  }

  /**
   * The bump rules, on the numbers the result parses back to: major wins
   * over minor and minor over patch; a bump zeroes the numbers after it;
   * with no flag the numbers are kept, which only happens past a suffix.
   */
  lemma ResolveNextVersionBumps(version: string, major: bool, minor: bool, patch: bool)
    requires ResolveNextVersion(version, major, minor, patch).Ok?
    ensures NumericPrefix(version)
    ensures var next := ResolveNextVersion(version, major, minor, patch).value;
      var cur := Numbers(version);
      NumericPrefix(next)
      && (major ==> Numbers(next) == (cur.0 + 1, 0, 0))
      && (!major && minor ==> Numbers(next) == (cur.0, cur.1 + 1, 0))
      && (!major && !minor && patch ==> Numbers(next) == (cur.0, cur.1, cur.2 + 1))
      && (!major && !minor && !patch ==> HasSuffix(version) && Numbers(next) == cur)
  {
    ResolveNextVersionSucceeds(version, major, minor, patch);
    ResolveNextVersionShape(version, major, minor, patch);
  }

  /** Fed back in, a version `resolve_next_version` wrote needs a bump flag: it has no suffix. */
  lemma ResolveFormattedNeedsFlag(a: nat, b: nat, c: nat)
    ensures ResolveNextVersion(FormatVersion(a, b, c), false, false, false) == Err(InvalidVersionSpecification)
  {
    FormatVersionNumbers(a, b, c);
    ResolveNextVersionInvalid(FormatVersion(a, b, c), false, false, false);
  }

  /**
   * Past a tag the described version carries a suffix after the three
   * numbers; with no flag the numbers are released as they are.
   */
  lemma ResolveSuffixKeepsNumbers(a: nat, b: nat, c: nat, more: string)
    ensures ResolveNextVersion(FormatVersion(a, b, c) + "-" + more, false, false, false) == Ok(FormatVersion(a, b, c))
  {
    var version := FormatVersion(a, b, c) + "-" + more;
    SuffixedNumbers(a, b, c, more);
    ResolveNextVersionSucceeds(version, false, false, false);
    ResolveNextVersionValue(version, false, false, false);
  }

  /** A written version followed by '-' and more text keeps its three numbers and has a suffix. */
  lemma SuffixedNumbers(a: nat, b: nat, c: nat, more: string)
    ensures NumericPrefix(FormatVersion(a, b, c) + "-" + more) && HasSuffix(FormatVersion(a, b, c) + "-" + more)
    ensures Numbers(FormatVersion(a, b, c) + "-" + more) == (a, b, c)
  {
    var version := FormatVersion(a, b, c) + "-" + more;
    SuffixedFields(a, b, c, more);
    Format02RoundTrip(a);
    Format02RoundTrip(b);
    Format02RoundTrip(c);
    FieldNumbers(version, a, b, c);
  }

  /** The fields of a written version followed by '-' and more text: the three numbers, then the fields of the rest. */
  lemma SuffixedFields(a: nat, b: nat, c: nat, more: string)
    ensures var fields := Split(FormatVersion(a, b, c) + "-" + more, '-');
      |fields| > 3 && fields[0] == Format02(a) && fields[1] == Format02(b) && fields[2] == Format02(c)
  {
    Format02Digits(a);
    Format02Digits(b);
    Format02Digits(c);
    SplitSuffixed(Format02(a), Format02(b), Format02(c), more);
  }

  /** Three fields free of '-', then '-' and more text: the fields come first, more text follows. */
  lemma SplitSuffixed(x: string, y: string, z: string, more: string)
    requires '-' !in x && '-' !in y && '-' !in z
    ensures var fields := Split(x + "-" + y + "-" + z + "-" + more, '-');
      |fields| > 3 && fields[0] == x && fields[1] == y && fields[2] == z
  {
    assert x + "-" + y + "-" + z + "-" + more == x + ['-'] + (y + ['-'] + (z + ['-'] + more));
    SplitThreeThen(x, y, z, '-', more);
  }

  /** A version whose first three fields parse to `a`, `b` and `c` has those numbers. */
  lemma FieldNumbers(version: string, a: int, b: int, c: int)
    requires |Split(version, '-')| >= 3
    requires ParseInt(Split(version, '-')[0]) == Some(a)
    requires ParseInt(Split(version, '-')[1]) == Some(b)
    requires ParseInt(Split(version, '-')[2]) == Some(c)
    ensures NumericPrefix(version) && Numbers(version) == (a, b, c)
  {
  }

  /** The versions in the examples below, as text. */
  lemma ExampleVersions()
    ensures FormatVersion(1, 2, 3) == "01-02-03" && FormatVersion(2, 0, 0) == "02-00-00"
    ensures FormatVersion(1, 3, 0) == "01-03-00" && FormatVersion(1, 2, 4) == "01-02-04"
  {
    assert Format02(0) == "00" && Format02(1) == "01" && Format02(2) == "02";
    assert Format02(3) == "03" && Format02(4) == "04";
  }

  /**
   * Bumping release 01-02-03: major gives 02-00-00, minor 01-03-00, patch
   * 01-02-04; with every flag set major wins; with none it raises.
   */
  lemma ResolveExamples()
    ensures ResolveNextVersion(FormatVersion(1, 2, 3), true, false, false) == Ok(FormatVersion(2, 0, 0))
    ensures ResolveNextVersion(FormatVersion(1, 2, 3), false, true, false) == Ok(FormatVersion(1, 3, 0))
    ensures ResolveNextVersion(FormatVersion(1, 2, 3), false, false, true) == Ok(FormatVersion(1, 2, 4))
    ensures ResolveNextVersion(FormatVersion(1, 2, 3), true, true, true) == Ok(FormatVersion(2, 0, 0))
    ensures ResolveNextVersion(FormatVersion(1, 2, 3), false, false, false) == Err(InvalidVersionSpecification)
  {
    var v := FormatVersion(1, 2, 3);
    FormatVersionNumbers(1, 2, 3);
    ResolveNextVersionSucceeds(v, true, false, false);
    ResolveNextVersionValue(v, true, false, false);
    ResolveNextVersionSucceeds(v, false, true, false);
    ResolveNextVersionValue(v, false, true, false);
    ResolveNextVersionSucceeds(v, false, false, true);
    ResolveNextVersionValue(v, false, false, true);
    ResolveNextVersionSucceeds(v, true, true, true);
    ResolveNextVersionValue(v, true, true, true);
    ResolveFormattedNeedsFlag(1, 2, 3);
  }

  /** `_get_tag(package, version)`: the package name and the version, joined by '-'. */
  function GetTag(name: string, version: string): string {
    Join('-', [name, version])
  }

  /** The tag is the name, '-', then the version. */
  lemma GetTagText(name: string, version: string)
    ensures GetTag(name, version) == name + "-" + version
  {
    JoinTwo('-', name, version);
  }

  /** For a name free of '-', the tag splits back into the name followed by the version's own fields. */
  lemma GetTagSplits(name: string, version: string)
    requires '-' !in name
    ensures Split(GetTag(name, version), '-') == [name] + Split(version, '-')
  {
    GetTagText(name, version);
    SplitAfter(name, '-', version);
  }

  /**
   * `_get_commit_message(commit_message, tag)`: the release prefix, the
   * message (the default one when it is missing or empty) and the tag,
   * joined by single spaces.
   */
  function GetCommitMessage(commitMessage: Option<string>, tag: string): string {
    var prefix := ReleaseCommitPrefix;
    var message := if commitMessage.None? || commitMessage.value == "" then ReleaseCommitMessage else commitMessage.value;
    Join(' ', [prefix, message, tag])
  }

  /**
   * A release commit message starts with the release prefix and a space,
   * and ends with a space and the tag; between them is the given message,
   * or "Prepare release" when none (or an empty one) is given.
   */
  lemma GetCommitMessageParts(commitMessage: Option<string>, tag: string)
    ensures var m := GetCommitMessage(commitMessage, tag);
      var message := if commitMessage.Some? && commitMessage.value != "" then commitMessage.value else ReleaseCommitMessage;
      m == ReleaseCommitPrefix + " " + message + " " + tag
    ensures GetCommitMessage(commitMessage, tag)[..|ReleaseCommitPrefix| + 1] == ReleaseCommitPrefix + " "
  {
    var message := if commitMessage.Some? && commitMessage.value != "" then commitMessage.value else ReleaseCommitMessage;
    JoinThree(' ', ReleaseCommitPrefix, message, tag);
    var m := GetCommitMessage(commitMessage, tag);
    assert m == (ReleaseCommitPrefix + " ") + (message + " " + tag);
  }

  /** With no message given, the commit message is "[repoman-release] Prepare release" and the tag. */
  lemma DefaultCommitMessage(tag: string)
    ensures GetCommitMessage(None, tag) == "[repoman-release] Prepare release " + tag
    ensures GetCommitMessage(Some(""), tag) == GetCommitMessage(None, tag)
  {
    GetCommitMessageParts(None, tag);
    GetCommitMessageParts(Some(""), tag);
    assert ReleaseCommitPrefix + " " + ReleaseCommitMessage + " " == "[repoman-release] Prepare release ";
  }

  /** The tag of release 01-01-01 of package astro. */
  lemma TagExample()
    ensures GetTag("astro", FormatVersion(1, 1, 1)) == "astro-01-01-01"
  {
    var v := FormatVersion(1, 1, 1);
    assert Format02(1) == "01";
    assert v == "01-01-01";
    GetTagText("astro", v);
    assert "astro" + "-" + "01-01-01" == "astro-01-01-01";
  }

  /** The default message for release 01-01-01 of package astro. */
  lemma CommitMessageExample()
    ensures GetCommitMessage(None, GetTag("astro", FormatVersion(1, 1, 1))) == "[repoman-release] Prepare release astro-01-01-01"
  {
    TagExample();
    DefaultCommitMessage("astro-01-01-01");
  }
}
