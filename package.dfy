/**
 * repoman/package.py: the package specification value and the original
 * manifest reader, `read_package_list`, which turns each entry line of a
 * `packageList.txt` into a `[package, ref]` pair without decoding sub-paths.
 */
module Package {
  import opened Wrappers
  import opened PyText

  /**
   * A dependency declaration: a package name, the ref (tag, branch or
   * commit) to check out, and a sub-path inside the package. Equality
   * is structural.
   */
  datatype PackageSpec = PackageSpec(name: string, ref: Option<string>, refPath: Option<string>)

  /** `PackageSpec(name)`: a spec that names a package and nothing else. */
  function NameOnly(name: string): (s: PackageSpec)
    ensures s.name == name && s.ref.None? && s.refPath.None?
  {
    PackageSpec(name, None, None)
  }

  /**
   * The entry text of a manifest line: `line.split("#")[0].rstrip()`.
   * It is what stands before the first '#', without trailing whitespace.
   */
  function EntryText(line: string): string {
    RStrip(Split(line, '#')[0])
  }

  /**
   * The entry text holds no '#' and does not end in whitespace; it is the
   * right-stripped text before the first '#', or the whole line if there
   * is none.
   */
  lemma EntryTextMeaning(line: string)
    ensures var t := EntryText(line);
      && '#' !in t
      && (t == "" || !IsSpace(t[|t| - 1]))
      && ('#' !in line ==> t == RStrip(line))
      && ('#' in line ==> t == RStrip(line[..IndexOf(line, '#')]))
  {
    var parts := Split(line, '#');
    assert '#' !in parts[0];
  }

  /** A line that declares a package; every other line is blank or only a comment. */
  predicate IsEntryLine(line: string) {
    EntryText(line) != ""
  }

  /** The entry texts of the entry lines of a file, in file order. */
  function EntryTexts(lines: seq<string>): (ts: seq<string>)
    ensures |ts| <= |lines|
    ensures forall k :: 0 <= k < |ts| ==> ts[k] != ""
    decreases |lines|
  {
    if lines == [] then []
    else if IsEntryLine(lines[0]) then [EntryText(lines[0])] + EntryTexts(lines[1..])
    else EntryTexts(lines[1..])
  }

  /**
   * The unpacking `(package, ref) = line.split(" ")`: it succeeds exactly
   * when the line holds one single space, and then the line is the two
   * tokens with that space between them. A tab or a second space makes
   * the line malformed.
   */
  function SplitPair(line: string): (r: Option<(string, string)>)
    ensures r.Some? <==> multiset(line)[' '] == 1
    ensures r.Some? ==> line == r.value.0 + " " + r.value.1
    ensures r.Some? ==> ' ' !in r.value.0 && ' ' !in r.value.1
  {
    var parts := Split(line, ' ');
    SplitCount(line, ' ');
    if |parts| == 2 then
      JoinSplit(line, ' ');
      Some((parts[0], parts[1]))
    else
      None
  }

  /** Two tokens without spaces, joined by one, unpack to themselves. */
  lemma SplitPairOfJoin(a: string, b: string)
    requires ' ' !in a && ' ' !in b
    ensures SplitPair(a + " " + b) == Some((a, b))
  {
    assert Join(' ', [a, b]) == a + " " + b;
    SplitJoin([a, b], ' ');
  }

  /** Prefixes the list inside a successful result; an error passes through. */
  function Prefixed<T, E>(prefix: seq<T>, r: Result<seq<T>, E>): Result<seq<T>, E> {
    match r
    case Ok(v) => Ok(prefix + v)
    case Err(e) => Err(e)
  }

  lemma PrefixedNil<T, E>(r: Result<seq<T>, E>)
    ensures Prefixed([], r) == r
  {
    if r.Ok? {
      assert [] + r.value == r.value;
    }
  }

  lemma PrefixedTwice<T, E>(a: seq<T>, b: seq<T>, r: Result<seq<T>, E>)
    ensures Prefixed(a, Prefixed(b, r)) == Prefixed(a + b, r)
  {
    if r.Ok? {
      assert a + (b + r.value) == (a + b) + r.value;
    }
  }

  /**
   * The line loop both manifest readers run: every line is cut at its
   * first '#' and right-stripped; an empty result is skipped, anything
   * else is handed to `parse`, and the first failure aborts the read.
   */
  function ReadEntries<T, E>(lines: seq<string>, parse: string -> Result<T, E>): Result<seq<T>, E>
    decreases |lines|
  {
    if lines == [] then Ok([])
    else
      var text := EntryText(lines[0]);
      if text == "" then ReadEntries(lines[1..], parse)
      else match parse(text)
        case Err(e) => Err(e)
        case Ok(x) => Prefixed([x], ReadEntries(lines[1..], parse))
  }

  /** Every entry text parses. */
  ghost predicate AllParse<T, E>(ts: seq<string>, parse: string -> Result<T, E>) {
    forall k :: 0 <= k < |ts| ==> parse(ts[k]).Ok?
  }

  /**
   * A read succeeds exactly when every entry text parses; blank and
   * comment-only lines never make it fail.
   */
  lemma {:induction false} ReadEntriesSucceeds<T, E>(lines: seq<string>, parse: string -> Result<T, E>)
    ensures ReadEntries(lines, parse).Ok? <==> AllParse(EntryTexts(lines), parse)
    decreases |lines|
  {
    if lines != [] {
      ReadEntriesSucceeds(lines[1..], parse);
      var tail := EntryTexts(lines[1..]);
      if IsEntryLine(lines[0]) {
        var ts := [EntryText(lines[0])] + tail;
        assert EntryTexts(lines) == ts;
        assert forall k :: 0 <= k < |tail| ==> ts[k + 1] == tail[k];
        if AllParse(ts, parse) {
          assert parse(ts[0]).Ok? && AllParse(tail, parse);
        }
        if AllParse(tail, parse) && parse(ts[0]).Ok? {
          assert forall k :: 0 <= k < |ts| ==> (k == 0 || ts[k] == tail[k - 1]);
        }
      }
    }
  }

  /**
   * A successful read yields exactly one value per entry line, in file
   * order: the k-th value is what the k-th entry text parses to.
   */
  lemma {:induction false} ReadEntriesInOrder<T, E>(lines: seq<string>, parse: string -> Result<T, E>)
    requires ReadEntries(lines, parse).Ok?
    ensures var ts, vs := EntryTexts(lines), ReadEntries(lines, parse).value;
      |vs| == |ts| && forall k :: 0 <= k < |ts| ==> parse(ts[k]) == Ok(vs[k])
    decreases |lines|
  {
    if lines != [] {
      ReadEntriesInOrder(lines[1..], parse);
      var tail, rest := EntryTexts(lines[1..]), ReadEntries(lines[1..], parse).value;
      if IsEntryLine(lines[0]) {
        var ts := [EntryText(lines[0])] + tail;
        assert EntryTexts(lines) == ts;
        var vs := ReadEntries(lines, parse).value;
        assert vs == [parse(ts[0]).value] + rest;
        forall k | 0 <= k < |ts| ensures parse(ts[k]) == Ok(vs[k]) {
          if k > 0 {
            assert ts[k] == tail[k - 1] && vs[k] == rest[k - 1];
          }
        }
      }
    }
  }

  /** A failing read fails with the error of the first entry text that does not parse. */
  lemma ReadEntriesFailsOnFirst<T, E>(lines: seq<string>, parse: string -> Result<T, E>)
    requires ReadEntries(lines, parse).Err?
    ensures var ts, e := EntryTexts(lines), ReadEntries(lines, parse).error;
      exists k :: 0 <= k < |ts| && parse(ts[k]) == Err(e) && AllParse(ts[..k], parse)
  {
    var k := FirstFailure(lines, parse);
  }

  /** The position, among the entry texts, of the one a failing read stops at. */
  lemma {:induction false} FirstFailure<T, E>(lines: seq<string>, parse: string -> Result<T, E>) returns (k: nat)
    requires ReadEntries(lines, parse).Err?
    ensures var ts := EntryTexts(lines);
      k < |ts| && parse(ts[k]) == Err(ReadEntries(lines, parse).error) && AllParse(ts[..k], parse)
    decreases |lines|
  {
    var tail := EntryTexts(lines[1..]);
    if !IsEntryLine(lines[0]) {
      k := FirstFailure(lines[1..], parse);
      assert EntryTexts(lines) == tail;
    } else {
      var ts := [EntryText(lines[0])] + tail;
      assert EntryTexts(lines) == ts;
      if parse(ts[0]).Err? {
        k := 0;
        assert AllParse(ts[..0], parse);
      } else {
        var j := FirstFailure(lines[1..], parse);
        k := j + 1;
        assert ts[k] == tail[j];
        assert ts[..k] == [ts[0]] + tail[..j];
        assert forall i :: 0 <= i < j ==> tail[..j][i] == ts[..k][i + 1];
      }
    }
  }

  /** Reading a one-line file. */
  lemma ReadEntriesSingle<T, E>(line: string, parse: string -> Result<T, E>)
    ensures !IsEntryLine(line) ==> ReadEntries([line], parse) == Ok([])
    ensures IsEntryLine(line) && parse(EntryText(line)).Err? ==> ReadEntries([line], parse) == Err(parse(EntryText(line)).error)
    ensures IsEntryLine(line) && parse(EntryText(line)).Ok? ==> ReadEntries([line], parse) == Ok([parse(EntryText(line)).value])
  {
    assert [line][1..] == [];
    if IsEntryLine(line) && parse(EntryText(line)).Ok? {
      var x := parse(EntryText(line)).value;
      assert ReadEntries([line], parse) == Prefixed([x], Ok([]));
      assert [x] + [] == [x];
    }
  }

  /**
   * Reading two files one after the other is reading their concatenation:
   * the first error wins, and otherwise the values of the first file come
   * before those of the second.
   */
  lemma {:induction false} ReadEntriesConcat<T, E>(a: seq<string>, b: seq<string>, parse: string -> Result<T, E>)
    ensures ReadEntries(a, parse).Err? ==> ReadEntries(a + b, parse) == ReadEntries(a, parse)
    ensures ReadEntries(a, parse).Ok? ==> ReadEntries(a + b, parse) == Prefixed(ReadEntries(a, parse).value, ReadEntries(b, parse))
    decreases |a|
  {
    if a == [] {
      assert a + b == b;
      PrefixedNil(ReadEntries(b, parse));
    } else {
      assert (a + b)[0] == a[0] && (a + b)[1..] == a[1..] + b;
      ReadEntriesConcat(a[1..], b, parse);
      var text := EntryText(a[0]);
      if text != "" && parse(text).Ok? && ReadEntries(a[1..], parse).Ok? {
        PrefixedTwice([parse(text).value], ReadEntries(a[1..], parse).value, ReadEntries(b, parse));
      }
    }
  }

  /**
   * The unpacking `(package, ref) = line.split(" ")` as one step of
   * `read_package_list`: the pair, or the offending text, which stands for
   * the `ValueError` the unpacking raises.
   */
  function ToPair(text: string): (r: Result<(string, string), string>)
    ensures r.Ok? <==> SplitPair(text).Some?
    ensures r.Ok? ==> text == r.value.0 + " " + r.value.1 && ' ' !in r.value.0 && ' ' !in r.value.1
    ensures r.Err? ==> r.error == text
  {
    match SplitPair(text)
    case None => Err(text)
    case Some(pair) => Ok(pair)
  }

  /**
   * `read_package_list` over the lines `readlines()` gives; opening the
   * file is not modelled.
   */
  method ReadPackageList(lines: seq<string>) returns (r: Result<seq<(string, string)>, string>)
    ensures r == ReadEntries(lines, ToPair)
  {
    var packageSpecs: seq<(string, string)> := [];
    var i := 0;
    assert lines[i..] == lines;
    PrefixedNil(ReadEntries(lines, ToPair));
    while i < |lines|
      invariant 0 <= i <= |lines|
      invariant ReadEntries(lines, ToPair) == Prefixed(packageSpecs, ReadEntries(lines[i..], ToPair))
    {
      assert lines[i..][1..] == lines[i + 1..];
      var line := Split(lines[i], '#')[0];
      line := RStrip(line);
      if |line| == 0 {
        i := i + 1;
        continue;
      }
      var parts := Split(line, ' ');
      if |parts| != 2 {
        return Err(line);
      }
      PrefixedTwice(packageSpecs, [(parts[0], parts[1])], ReadEntries(lines[i + 1..], ToPair));
      packageSpecs := packageSpecs + [(parts[0], parts[1])];
      i := i + 1;
    }
    assert lines[i..] == [];
    assert packageSpecs + [] == packageSpecs;
    return Ok(packageSpecs);
  }

  /**
   * `read_package_list` keeps exactly the entry lines, in file order: it
   * succeeds exactly when every entry text holds one single space, and
   * then the k-th pair is the k-th entry text cut at that space, the
   * package token kept whole, '/' and all; otherwise it fails on the first
   * entry text that does not.
   */
  lemma PackageListKeepsEntryLines(lines: seq<string>)
    ensures var ts, r := EntryTexts(lines), ReadEntries(lines, ToPair);
      && (r.Ok? <==> forall k :: 0 <= k < |ts| ==> multiset(ts[k])[' '] == 1)
      && (r.Ok? ==> |r.value| == |ts| && forall k :: 0 <= k < |ts| ==> ts[k] == r.value[k].0 + " " + r.value[k].1)
      && (r.Err? ==> exists k :: 0 <= k < |ts| && ts[k] == r.error && multiset(ts[k])[' '] != 1)
  {
    var ts, r := EntryTexts(lines), ReadEntries(lines, ToPair);
    ReadEntriesSucceeds(lines, ToPair);
    if r.Ok? {
      ReadEntriesInOrder(lines, ToPair);
    } else {
      ReadEntriesFailsOnFirst(lines, ToPair);
    }
  }
}
