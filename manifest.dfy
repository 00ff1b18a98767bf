/**
 * repoman/manifest.py: the text model of a `packageList.txt` manifest.
 * Each entry line is `<package>[/<subpath>] <ref>`, optionally followed by
 * `# comment`; blank and comment-only lines carry no entry. The file itself
 * is a sequence of lines as `readlines()` returns them (each keeping its
 * line break); reading yields package specs, and an update yields the new
 * sequence of lines written back over the file.
 */
module Manifest {
  import opened Wrappers
  import opened PyText
  import opened Package
  import opened FileText

  /** What makes reading or rewriting a manifest raise. */
  datatype ManifestError =
    | MalformedLine(line: string)  // the entry text does not unpack into two tokens (`ValueError`)
    | MissingRef(spec: PackageSpec)  // a spec without a ref reaches `" ".join` (`TypeError`)

  /**
   * The package token a spec is decoded from: the name, then '/' and the
   * sub-path when there is one (even an empty one).
   */
  function SpecToken(spec: PackageSpec): string {
    spec.name + (if spec.refPath.Some? then "/" + spec.refPath.value else "")
  }

  /**
   * The sub-path decoding of `get_spec`: without a '/', the token is the
   * name; otherwise the name is what stands before the first '/', and the
   * rest, re-joined with '/', is the sub-path, so later slashes are kept.
   */
  function DecodePackage(package: string): (r: (string, Option<string>))
    ensures '/' !in r.0
    ensures '/' !in package ==> r == (package, None)
    ensures '/' in package ==> r.1.Some? && package == r.0 + "/" + r.1.value
    ensures '/' in package ==> var i := IndexOf(package, '/'); r == (package[..i], Some(package[i + 1..]))
    ensures package == r.0 + (if r.1.Some? then "/" + r.1.value else "")
  {
    if '/' in package then
      var parts := Split(package, '/');
      SplitAtFirst(package, '/');
      (parts[0], Some(Join('/', parts[1..])))
    else
      assert package + "" == package;
      (package, None)
  }

  /**
   * `get_spec(line)`: it succeeds exactly when the line holds one single
   * space, and then the line is the decoded package token and the ref with
   * that space between them; the name never holds a '/'.
   */
  function GetSpec(line: string): (r: Result<PackageSpec, ManifestError>)
    ensures r.Ok? <==> multiset(line)[' '] == 1
    ensures r.Err? ==> r.error == MalformedLine(line)
    ensures r.Ok? ==> r.value.ref.Some? && '/' !in r.value.name
    ensures r.Ok? ==> line == SpecToken(r.value) + " " + r.value.ref.value
    ensures r.Ok? ==> ' ' !in SpecToken(r.value) && ' ' !in r.value.ref.value
  {
    match SplitPair(line)
    case None => Err(MalformedLine(line))
    case Some(pair) =>
      var (name, refPath) := DecodePackage(pair.0);
      var spec := PackageSpec(name, Some(pair.1), refPath);
      assert SpecToken(spec) == pair.0;
      Ok(spec)
  }

  /**
   * `_mangle_spec(spec)`: the composite key `name/subpath`, or the bare
   * name when the sub-path is absent or empty.
   */
  function MangleSpec(spec: PackageSpec): (key: string)
    ensures spec.refPath.Some? && spec.refPath.value != "" ==> key == spec.name + "/" + spec.refPath.value
    ensures spec.refPath.None? || spec.refPath.value == "" ==> key == spec.name
  {
    var package := spec.name;
    if spec.refPath.Some? && spec.refPath.value != "" then
      JoinTwo('/', package, spec.refPath.value);
      Join('/', [package, spec.refPath.value])
    else
      package
  }

  /**
   * `format_spec(spec, comment)`: the key, the ref and, when it is not
   * empty, the comment, separated by single spaces. The comment is written
   * as given, without a '#'. The default `comment=None` behaves as "".
   */
  function FormatSpec(spec: PackageSpec, comment: string): (line: string)
    requires spec.ref.Some?
    ensures line == MangleSpec(spec) + " " + spec.ref.value + (if comment != "" then " " + comment else "")
  {
    var package := MangleSpec(spec);
    var specList := [package, spec.ref.value] + (if comment != "" then [comment] else []);
    if comment != "" then
      assert specList == [package, spec.ref.value, comment];
      JoinThree(' ', package, spec.ref.value, comment);
      Join(' ', specList)
    else
      assert specList == [package, spec.ref.value];
      JoinTwo(' ', package, spec.ref.value);
      assert package + " " + spec.ref.value + "" == package + " " + spec.ref.value;
      Join(' ', specList)
  }

  /** `read_manifest_file`: the specs of the entry lines, or the first error. */
  method ReadManifestFile(lines: seq<string>) returns (r: Result<seq<PackageSpec>, ManifestError>)
    ensures r == ReadEntries(lines, GetSpec)
  {
    var packageSpecs: seq<PackageSpec> := [];
    var i := 0;
    assert lines[i..] == lines;
    PrefixedNil(ReadEntries(lines, GetSpec));
    while i < |lines|
      invariant 0 <= i <= |lines|
      invariant ReadEntries(lines, GetSpec) == Prefixed(packageSpecs, ReadEntries(lines[i..], GetSpec))
    {
      assert lines[i..][1..] == lines[i + 1..];
      var line := Split(lines[i], '#')[0];
      line := RStrip(line);
      if |line| == 0 {
        i := i + 1;
        continue;
      }
      var spec := GetSpec(line);
      if spec.Err? {
        return Err(spec.error);
      }
      PrefixedTwice(packageSpecs, [spec.value], ReadEntries(lines[i + 1..], GetSpec));
      packageSpecs := packageSpecs + [spec.value];
      i := i + 1;
    }
    assert lines[i..] == [];
    assert packageSpecs + [] == packageSpecs;
    return Ok(packageSpecs);
  }

  // ---------------------------------------------------------------------
  // Properties of reading and formatting

  /**
   * `read_manifest_file` fails exactly when some entry text does not hold
   * one single space; blank and comment-only lines never make it fail.
   */
  lemma ReadManifestSucceeds(lines: seq<string>)
    ensures var ts := EntryTexts(lines);
      ReadEntries(lines, GetSpec).Ok? <==> forall k :: 0 <= k < |ts| ==> multiset(ts[k])[' '] == 1
  {
    ReadEntriesSucceeds(lines, GetSpec);
  }

  /**
   * `read_manifest_file` emits exactly one spec per entry line, in file
   * order, each decoded from that line's entry text.
   */
  lemma ReadManifestKeepsEntryLines(lines: seq<string>)
    requires ReadEntries(lines, GetSpec).Ok?
    ensures var ts, specs := EntryTexts(lines), ReadEntries(lines, GetSpec).value;
      |specs| == |ts| && forall k :: 0 <= k < |ts| ==> GetSpec(ts[k]) == Ok(specs[k])
  {
    ReadEntriesInOrder(lines, GetSpec);
  }

  /** A failing `read_manifest_file` reports the first malformed entry text. */
  lemma ReadManifestFailsOnFirst(lines: seq<string>)
    requires ReadEntries(lines, GetSpec).Err?
    ensures var ts, e := EntryTexts(lines), ReadEntries(lines, GetSpec).error;
      exists k :: 0 <= k < |ts| && e == MalformedLine(ts[k]) && multiset(ts[k])[' '] != 1
        && forall j :: 0 <= j < k ==> multiset(ts[j])[' '] == 1
  {
    var ts, e := EntryTexts(lines), ReadEntries(lines, GetSpec).error;
    var k := FirstFailure(lines, GetSpec);
    FirstMalformed(ts, k, e);
    assert 0 <= k < |ts| && e == MalformedLine(ts[k]) && multiset(ts[k])[' '] != 1
      && forall j :: 0 <= j < k ==> multiset(ts[j])[' '] == 1;
  }

  /** The first entry text `get_spec` rejects is the one without exactly one space; all before it have one. */
  lemma FirstMalformed(ts: seq<string>, k: int, e: ManifestError)
    requires 0 <= k < |ts| && GetSpec(ts[k]) == Err(e) && AllParse(ts[..k], GetSpec)
    ensures e == MalformedLine(ts[k]) && multiset(ts[k])[' '] != 1
    ensures forall j :: 0 <= j < k ==> multiset(ts[j])[' '] == 1
  {
    forall j | 0 <= j < k ensures multiset(ts[j])[' '] == 1 {
      assert ts[..k][j] == ts[j];
    }
  }

  /**
   * Encoding and decoding the composite key are inverse: a name without
   * '/' and a non-empty sub-path (or none) survive the trip through
   * `_mangle_spec` and the decoding of `get_spec`.
   */
  lemma DecodeMangledKey(name: string, ref: Option<string>, refPath: Option<string>)
    requires '/' !in name
    requires refPath.None? || refPath.value != ""
    ensures DecodePackage(MangleSpec(PackageSpec(name, ref, refPath))) == (name, refPath)
  {
    if refPath.Some? {
      IndexOfAfter(name, '/', refPath.value);
      var key := name + "/" + refPath.value;
      assert key[..|name|] == name && key[|name| + 1..] == refPath.value;
    }
  }

  /** A package token that does not end in '/', so its sub-path, if any, is not empty. */
  predicate TokenKeepsPath(package: string) {
    package == [] || package[|package| - 1] != '/'
  }

  /**
   * Decoding then encoding gives back the package token, unless the token
   * ends in '/', whose empty sub-path `_mangle_spec` drops.
   */
  lemma MangleDecodedKey(package: string, spec: PackageSpec)
    requires TokenKeepsPath(package)
    requires (spec.name, spec.refPath) == DecodePackage(package)
    ensures MangleSpec(spec) == package
  {
    if '/' in package {
      var i := IndexOf(package, '/');
      assert i < |package| - 1;
      assert package == package[..i] + "/" + package[i + 1..];
    }
  }

  /** The conditions under which a spec survives formatting and parsing unchanged. */
  predicate RoundTrips(spec: PackageSpec) {
    && '/' !in spec.name && ' ' !in spec.name
    && spec.ref.Some? && ' ' !in spec.ref.value
    && (spec.refPath.None? || (spec.refPath.value != "" && ' ' !in spec.refPath.value))
  }

  /** `get_spec(format_spec(spec))` gives back the spec. */
  lemma GetSpecOfFormat(spec: PackageSpec)
    requires RoundTrips(spec)
    ensures GetSpec(FormatSpec(spec, "")) == Ok(spec)
  {
    var key := MangleSpec(spec);
    DecodeMangledKey(spec.name, spec.ref, spec.refPath);
    assert ' ' !in key;
    assert FormatSpec(spec, "") == key + " " + spec.ref.value;
    SplitPairOfJoin(key, spec.ref.value);
  }

  /**
   * On one entry text, the unpacking of repoman/package.py and `get_spec`
   * agree: both fail, with the same text, or both succeed, and the pair
   * holds the spec's package token and its ref; the token is `_mangle_spec`
   * of the spec unless it ends in '/'.
   */
  lemma ToPairAgreesWithGetSpec(text: string)
    ensures ToPair(text).Ok? <==> GetSpec(text).Ok?
    ensures ToPair(text).Err? ==> GetSpec(text).error == MalformedLine(ToPair(text).error)
    ensures ToPair(text).Ok? ==>
      && ToPair(text).value.0 == SpecToken(GetSpec(text).value)
      && ToPair(text).value.1 == GetSpec(text).value.ref.value
      && (TokenKeepsPath(ToPair(text).value.0) ==> ToPair(text).value.0 == MangleSpec(GetSpec(text).value))
  {
    if SplitPair(text).Some? {
      var pair := SplitPair(text).value;
      GetSpecOfPair(text);
      assert ToPair(text).value == pair;
      if TokenKeepsPath(pair.0) {
        MangleDecodedKey(pair.0, GetSpec(text).value);
      }
    }
  }

  /** `get_spec` decodes the package token of the unpacked pair. */
  lemma GetSpecOfPair(text: string)
    requires SplitPair(text).Some?
    ensures var pair, decoded := SplitPair(text).value, DecodePackage(SplitPair(text).value.0);
      GetSpec(text) == Ok(PackageSpec(decoded.0, Some(pair.1), decoded.1))
  {
  }

  /**
   * The older reader of repoman/package.py and `read_manifest_file` succeed
   * on the same files, and fail on the same line.
   */
  lemma {:induction false} PackageListFailsWithManifest(lines: seq<string>)
    ensures var pairs, specs := ReadEntries(lines, ToPair), ReadEntries(lines, GetSpec);
      && (pairs.Ok? <==> specs.Ok?)
      && (pairs.Err? ==> specs.Err? && specs.error == MalformedLine(pairs.error))
    decreases |lines|
  {
    if lines != [] {
      PackageListFailsWithManifest(lines[1..]);
      var text := EntryText(lines[0]);
      if text != "" {
        ToPairAgreesWithGetSpec(text);
      }
    }
  }

  /**
   * When both readers succeed they keep the same lines, and each pair
   * holds the spec's package token (which is `_mangle_spec` of the spec
   * unless the token ends in '/') and its ref.
   */
  lemma PackageListAgreesWithManifest(lines: seq<string>)
    requires ReadEntries(lines, ToPair).Ok? && ReadEntries(lines, GetSpec).Ok?
    ensures var pairs, specs := ReadEntries(lines, ToPair).value, ReadEntries(lines, GetSpec).value;
      |pairs| == |specs| && forall k :: 0 <= k < |pairs| ==>
        && pairs[k].0 == SpecToken(specs[k])
        && specs[k].ref == Some(pairs[k].1)
        && (TokenKeepsPath(pairs[k].0) ==> pairs[k].0 == MangleSpec(specs[k]))
  {
    var ts := EntryTexts(lines);
    var pairs, specs := ReadEntries(lines, ToPair).value, ReadEntries(lines, GetSpec).value;
    ReadEntriesInOrder(lines, ToPair);
    ReadEntriesInOrder(lines, GetSpec);
    forall k | 0 <= k < |pairs|
      ensures && pairs[k].0 == SpecToken(specs[k])
        && specs[k].ref == Some(pairs[k].1)
        && (TokenKeepsPath(pairs[k].0) ==> pairs[k].0 == MangleSpec(specs[k]))
    {
      PairOfSpec(ts[k], pairs[k], specs[k]);
    }
  }

  lemma PairOfSpec(text: string, pair: (string, string), spec: PackageSpec)
    requires ToPair(text) == Ok(pair) && GetSpec(text) == Ok(spec)
    ensures pair.0 == SpecToken(spec) && spec.ref == Some(pair.1)
    ensures TokenKeepsPath(pair.0) ==> pair.0 == MangleSpec(spec)
  {
    ToPairAgreesWithGetSpec(text);
  }

  // ---------------------------------------------------------------------
  // update_manifest_file
  // ---------------------------------------------------------------------

  /** Every key of `a` is a key of `b`, with the same spec. */
  predicate SubMap(a: map<string, PackageSpec>, b: map<string, PackageSpec>) {
    forall k :: k in a ==> k in b && a[k] == b[k]
  }

  /** Every spec of the map sits under its own `_mangle_spec` key. */
  predicate KeyedByMangle(m: map<string, PackageSpec>) {
    forall k :: k in m ==> MangleSpec(m[k]) == k
  }

  /**
   * `{_mangle_spec(spec): spec for spec in package_specs}`: the requested
   * specs by key; of two specs with the same key the later one wins.
   */
  function PendingSpecs(specs: seq<PackageSpec>): (m: map<string, PackageSpec>)
    ensures m.Keys == set s | s in specs :: MangleSpec(s)
    ensures KeyedByMangle(m)
    ensures forall k :: k in m ==> m[k] in specs
    decreases |specs|
  {
    if specs == [] then map[]
    else
      var last := specs[|specs| - 1];
      var m := PendingSpecs(specs[..|specs| - 1]);
      assert specs == specs[..|specs| - 1] + [last];
      m[MangleSpec(last) := last]
  }

  /** A spec that no later spec with the same key replaces is the one kept. */
  lemma {:induction false} PendingSpecsLastWins(specs: seq<PackageSpec>, i: int)
    requires 0 <= i < |specs|
    requires forall j :: i < j < |specs| ==> MangleSpec(specs[j]) != MangleSpec(specs[i])
    ensures PendingSpecs(specs)[MangleSpec(specs[i])] == specs[i]
    decreases |specs|
  {
    if i < |specs| - 1 {
      var init := specs[..|specs| - 1];
      assert forall j :: i < j < |init| ==> init[j] == specs[j];
      PendingSpecsLastWins(init, i);
    }
  }

  /**
   * The comment of a manifest line: everything after its first '#',
   * right-stripped; a line without '#' has the empty comment.
   */
  function LineComment(orig: string): string {
    var lineAndComment := Split(orig, '#');
    if |lineAndComment| > 1 then RStrip(Join('#', lineAndComment[1..])) else ""
  }

  lemma LineCommentMeaning(orig: string)
    ensures '#' !in orig ==> LineComment(orig) == ""
    ensures '#' in orig ==> LineComment(orig) == RStrip(orig[IndexOf(orig, '#') + 1..])
  {
    SplitCount(orig, '#');
    if '#' in orig {
      JoinRest(orig, '#');
    }
  }

  /**
   * One turn of the line loop of `update_manifest_file`: the lines it
   * writes for `orig` (none or one) and the specs still pending after it.
   * A blank or comment-only line is copied; an entry line whose key is
   * pending is copied when its spec is the pending one and rewritten with
   * the pending spec and its own comment otherwise, and the key is no
   * longer pending; an entry line whose key is not pending is dropped.
   */
  function UpdateLine(orig: string, pending: map<string, PackageSpec>): (r: Result<(seq<string>, map<string, PackageSpec>), ManifestError>)
    ensures r.Ok? ==> |r.value.0| <= 1 && SubMap(r.value.1, pending)
    ensures !IsEntryLine(orig) ==> r == Ok(([orig], pending))
  {
    var line := EntryText(orig);
    if |line| == 0 then Ok(([orig], pending))
    else match GetSpec(line)
      case Err(e) => Err(e)
      case Ok(oldSpec) =>
        var mangled := MangleSpec(oldSpec);
        if mangled in pending && oldSpec != pending[mangled] then
          var newSpec := pending[mangled];
          if newSpec.ref.None? then Err(MissingRef(newSpec))
          else Ok(([FormatSpec(newSpec, LineComment(orig)) + "\n"], pending - {mangled}))
        else if mangled in pending then Ok(([orig], pending - {mangled}))
        else Ok(([], pending))
  }

  /** The lines written so far and the specs still pending. */
  datatype Progress = Progress(written: seq<string>, pending: map<string, PackageSpec>)

  /** Prefixes the written lines inside a successful progress; an error passes through. */
  function Emitted(prefix: seq<string>, r: Result<Progress, ManifestError>): Result<Progress, ManifestError> {
    match r
    case Ok(p) => Ok(Progress(prefix + p.written, p.pending))
    case Err(e) => Err(e)
  }

  lemma EmittedNil(r: Result<Progress, ManifestError>)
    ensures Emitted([], r) == r
  {
    if r.Ok? {
      assert [] + r.value.written == r.value.written;
    }
  }

  lemma EmittedTwice(a: seq<string>, b: seq<string>, r: Result<Progress, ManifestError>)
    ensures Emitted(a, Emitted(b, r)) == Emitted(a + b, r)
  {
    if r.Ok? {
      assert a + (b + r.value.written) == (a + b) + r.value.written;
    }
  }

  /** The line loop of `update_manifest_file` over the whole file. */
  function UpdateLines(lines: seq<string>, pending: map<string, PackageSpec>): (r: Result<Progress, ManifestError>)
    ensures r.Ok? ==> |r.value.written| <= |lines| && SubMap(r.value.pending, pending)
    decreases |lines|
  {
    if lines == [] then Ok(Progress([], pending))
    else match UpdateLine(lines[0], pending)
      case Err(e) => Err(e)
      case Ok((out, rest)) => Emitted(out, UpdateLines(lines[1..], rest))
  }

  /**
   * `[i for i in package_specs if i in new_specs.values()]`: the requested
   * specs, in request order, that are still pending after the line loop.
   * A spec requested twice is kept twice.
   */
  function UnusedSpecs(specs: seq<PackageSpec>, rest: map<string, PackageSpec>): seq<PackageSpec>
    decreases |specs|
  {
    if specs == [] then []
    else (if specs[0] in rest.Values then [specs[0]] else []) + UnusedSpecs(specs[1..], rest)
  }

  /**
   * Membership is tested by value: each requested spec still pending is
   * appended as many times as it was requested, and no other spec is.
   */
  lemma {:induction false} UnusedSpecsCount(specs: seq<PackageSpec>, rest: map<string, PackageSpec>)
    ensures forall s :: multiset(UnusedSpecs(specs, rest))[s] == if s in rest.Values then multiset(specs)[s] else 0
    decreases |specs|
  {
    if specs != [] {
      UnusedSpecsCount(specs[1..], rest);
      assert specs == [specs[0]] + specs[1..];
    }
  }

  /**
   * The lines appended for the unused specs, `format_spec(spec) + "\n"`
   * each, or the error of the first spec without a ref.
   */
  function FormatNew(us: seq<PackageSpec>): (r: Result<seq<string>, ManifestError>)
    ensures r.Ok? <==> forall k :: 0 <= k < |us| ==> us[k].ref.Some?
    ensures r.Ok? ==> |r.value| == |us| && forall k :: 0 <= k < |us| ==> r.value[k] == FormatSpec(us[k], "") + "\n"
    ensures r.Err? ==> exists k :: 0 <= k < |us| && us[k].ref.None? && r.error == MissingRef(us[k])
    decreases |us|
  {
    if us == [] then Ok([])
    else if us[0].ref.None? then Err(MissingRef(us[0]))
    else
      var rest := FormatNew(us[1..]);
      assert forall k :: 0 < k < |us| ==> us[k] == us[1..][k - 1];
      Prefixed([FormatSpec(us[0], "") + "\n"], rest)
  }

  /**
   * `update_manifest_file(manifest_file, package_specs)`: the new lines of
   * the manifest, or the error that aborts the update before the file is
   * touched.
   */
  function UpdateManifest(lines: seq<string>, specs: seq<PackageSpec>): Result<seq<string>, ManifestError> {
    match UpdateLines(lines, PendingSpecs(specs))
    case Err(e) => Err(e)
    case Ok(p) => Prefixed(p.written, FormatNew(UnusedSpecs(specs, p.pending)))
  }

  /** An open manifest file: the text it holds. */
  class ManifestFile {
    var content: string

    constructor(content: string)
      ensures this.content == content
    {
      this.content := content;
    }
  }

  /**
   * One pass of the line loop of `update_manifest_file` (lines 66-90 of
   * repoman/manifest.py), statement by statement: the lines to write for
   * `orig` and the specs still pending. `UpdateLine` is its specification.
   */
  method RewriteLine(orig: string, pending: map<string, PackageSpec>) returns (r: Result<(seq<string>, map<string, PackageSpec>), ManifestError>)
    ensures r == UpdateLine(orig, pending)
  {
    var lineAndComment := Split(orig, '#');
    var line := lineAndComment[0];
    var comment := "";
    if |lineAndComment| > 1 {
      comment := RStrip(Join('#', lineAndComment[1..]));
    }
    line := RStrip(line);
    assert line == EntryText(orig) && comment == LineComment(orig);
    if |line| == 0 {
      return Ok(([orig], pending));
    }
    var oldSpec := GetSpec(line);
    if oldSpec.Err? {
      return Err(oldSpec.error);
    }
    var mangled := MangleSpec(oldSpec.value);
    if mangled in pending && oldSpec.value != pending[mangled] {
      var newSpec := pending[mangled];
      if newSpec.ref.None? {
        return Err(MissingRef(newSpec));
      }
      line := FormatSpec(newSpec, comment);
      return Ok(([line + "\n"], pending - {mangled}));
    } else if mangled in pending {
      return Ok(([orig], pending - {mangled}));
    } else {
      return Ok(([], pending));
    }
  }

  /** The line loop of `update_manifest_file`. */
  method RewriteLines(lines: seq<string>, pending: map<string, PackageSpec>) returns (r: Result<Progress, ManifestError>)
    ensures r == UpdateLines(lines, pending)
  {
    var newSpecs := pending;
    var newLines: seq<string> := [];
    assert lines[0..] == lines;
    EmittedNil(UpdateLines(lines, pending));
    var i := 0;
    while i < |lines|
      invariant 0 <= i <= |lines|
      invariant UpdateLines(lines, pending) == Emitted(newLines, UpdateLines(lines[i..], newSpecs))
    {
      UpdateLinesStep(lines, i, newSpecs);
      var step := RewriteLine(lines[i], newSpecs);
      if step.Err? {
        return Err(step.error);
      }
      var (out, rest) := step.value;
      EmittedTwice(newLines, out, UpdateLines(lines[i + 1..], rest));
      newLines := newLines + out;
      newSpecs := rest;
      i := i + 1;
    }
    assert lines[i..] == [];
    assert newLines + [] == newLines;
    return Ok(Progress(newLines, newSpecs));
  }

  lemma UpdateLinesStep(lines: seq<string>, i: int, pending: map<string, PackageSpec>)
    requires 0 <= i < |lines|
    ensures UpdateLines(lines[i..], pending) ==
      match UpdateLine(lines[i], pending)
      case Err(e) => Err(e)
      case Ok((out, rest)) => Emitted(out, UpdateLines(lines[i + 1..], rest))
  {
    assert lines[i..][0] == lines[i] && lines[i..][1..] == lines[i + 1..];
  }

  /**
   * `update_manifest_file`: reads the file's lines with `readlines`, then
   * either replaces its text by the updated lines, written one after the
   * other as `writelines` does, or raises (here: returns the error) and
   * leaves it as it was.
   */
  method UpdateManifestFile(file: ManifestFile, specs: seq<PackageSpec>) returns (err: Option<ManifestError>)
    modifies file
    ensures var result := UpdateManifest(ReadLines(old(file.content)), specs);
      result.Ok? ==> err.None? && file.content == WriteLines(result.value)
    ensures var result := UpdateManifest(ReadLines(old(file.content)), specs);
      result.Err? ==> err == Some(result.error) && file.content == old(file.content)
  {
    var lines := ReadLines(file.content);
    ghost var result := UpdateManifest(lines, specs);
    var newSpecs := PendingSpecs(specs);
    var progress := RewriteLines(lines, newSpecs);
    if progress.Err? {
      assert result == Err(progress.error);
      return Some(progress.error);
    }
    var newLines := progress.value.written;
    var unusedSpecs := UnusedSpecs(specs, progress.value.pending);
    assert result == Prefixed(newLines, FormatNew(unusedSpecs));
    assert unusedSpecs[0..] == unusedSpecs;
    var j := 0;
    while j < |unusedSpecs|
      invariant 0 <= j <= |unusedSpecs|
      invariant result == Prefixed(newLines, FormatNew(unusedSpecs[j..]))
      invariant file.content == old(file.content)
    {
      var spec := unusedSpecs[j];
      assert unusedSpecs[j..][0] == spec && unusedSpecs[j..][1..] == unusedSpecs[j + 1..];
      if spec.ref.None? {
        assert FormatNew(unusedSpecs[j..]) == Err(MissingRef(spec));
        return Some(MissingRef(spec));
      }
      PrefixedTwice(newLines, [FormatSpec(spec, "") + "\n"], FormatNew(unusedSpecs[j + 1..]));
      newLines := newLines + [FormatSpec(spec, "") + "\n"];
      j := j + 1;
    }
    assert unusedSpecs[j..] == [];
    assert newLines + [] == newLines;
    assert result == Ok(newLines);
    file.content := WriteLines(newLines);
    return None;
  }
}
