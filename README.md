# repoman manifest and release naming, in Dafny

repoman checks out a workspace of packages listed in a manifest,
`packageList.txt`, and cuts releases of them. This project models the
text logic at its core and proves properties of it:

- **The manifest** (`repoman/manifest.py`). `read_manifest_file` reads the
  specs of a manifest. `get_spec` decodes one entry line into a
  `PackageSpec(name, ref, ref_path)`. `_mangle_spec` builds the
  `name[/ref_path]` key and `format_spec` writes the line of a spec.
  `update_manifest_file` rewrites the manifest for a list of requested specs.
- **The older parser** `read_package_list` (`repoman/package.py`). It
  filters lines the same way but keeps the package token whole.
- **Release naming** (`repoman/release.py`). `resolve_next_version` computes
  the next `MM-mm-pp` version from a described version and the
  major/minor/patch flags. `_get_tag` and `_get_commit_message` build the
  tag and the release commit message. `RELEASE_COMMIT_PREFIX` and
  `RELEASE_COMMIT_MESSAGE` are the constants they use.

The text of a file is a string. `readlines()` cuts it after each `"\n"`,
so every line read but the last keeps its `"\n"`, and the last keeps it
only when the text ends in one (`FileText.ReadLines`). `writelines()`
writes the lines one after the other and adds no line break
(`FileText.WriteLines`). The readers take the list of lines `readlines()`
returns; the update reads and writes the text of a `ManifestFile`.
Python's exceptions become `Result` values:

- `MalformedLine` is the `ValueError` of unpacking `line.split(" ")` into
  two names.
- `MissingRef` is the `TypeError` of `" ".join` when a spec has no ref.
- `VersionError` covers what `resolve_next_version` raises.

Modules:

- `Wrappers`: `Option` and `Result`.
- `PyText`: the Python built-ins the code relies on: `str.isspace`,
  `rstrip`, `strip`, `split` and `join` on one character, `int()` (signs,
  surrounding whitespace, `_` digit groups, ASCII digits only) and
  `"{:02}".format`.
- `FileText`: `readlines()` and `writelines()` on the text of a file.
- `Package`: the `PackageSpec` datatype and the comment-cutting line filter
  that both readers share (`ReadEntries`, generic in the per-line parser).
  It also holds `read_package_list`.
- `Manifest`: `get_spec`, `_mangle_spec` and `format_spec`. It also holds
  `read_manifest_file`, with its loop as a method, and
  `update_manifest_file`. That one is a method on a `ManifestFile` object
  whose text it reads with `readlines()` and replaces with the
  `writelines()` of the new lines, built from a per-line method `RewriteLine`
  and a line-loop method `RewriteLines`. Each method is proved equal to a
  specification function (`ReadEntries`, `UpdateLine`, `UpdateLines`,
  `UpdateManifest`).
- `ManifestLaws`: the laws of the update on the list of lines: what it
  keeps, rewrites, drops and appends, what reads back, when it is
  idempotent, and where it is not.
- `ManifestFileLaws`: the same laws for the text of the file, written with
  `writelines()` and read again with `readlines()`, and the case where the
  file's last line has no line break.
- `Release`: `resolve_next_version`, `_get_tag`, `_get_commit_message` and
  their laws.

`PackageSpec` is not defined in the files of this model. It is used at
`repoman/manifest.py:2,81,126` and `tests/test_package.py:26,38`, and is
modelled as a datatype with structural equality. Its `ref` and `ref_path`
are `Option`s, because either may be `None`.

### How the code behaves at the edges

The model follows the code in each case below, and the lemmas named show
the behaviour.

- **Splitting.** An entry line is split on one space character
  (`line.split(" ")`), not on whitespace. A tab or two spaces in a row
  therefore make the line malformed (`GetSpec`, `ReadManifestSucceeds`).
- **Lines not requested.** The update has no `else` branch for an entry
  whose key is not among the new specs, so such a line is dropped
  (`UpdateDropsUnrequested`).
- **Comments.** A rewritten line keeps the text of its comment but not its
  `#` (`format_spec(new_spec, comment)`). The line written then has three
  space-separated tokens and no longer reads (`UpdateDropsCommentMarker`).
  A commented entry line whose spec is unchanged is copied verbatim.
- **Idempotence.** `UpdateIsIdempotent` proves that updating the lines
  written a second time with the same specs writes the same lines, when
  the manifest reads, its entry lines carry no comment, every spec is
  writable and no spec is requested twice. `UpdateFileIsIdempotent` proves
  the same of the file's text when, in addition, the text ends in a line
  break and no field of a spec holds one. `UpdateDropsCommentMarker` and
  `UpdateRepeatsDuplicate` show two ways it fails: a rewritten commented
  line no longer reads, and a spec requested twice is appended twice and
  one copy is dropped by the second update.
- **The last line.** `writelines()` adds no line break. When the file's
  last line has none and a spec is appended, the two are written on one
  line, which no longer reads (`LastLineMerges`).
- **Several bump flags.** More than one flag is accepted: major wins over
  minor, and minor over patch (`ResolveNextVersionBumps`).
- **`cur_more`.** At `repoman/release.py:10` it is the whole version less
  its first three characters, not the suffix. Only its truthiness is used:
  it is non-empty exactly when there are more than three fields
  (`SuffixNotEmpty`, `ResolveNextVersionInvalid`).

## Model

| member | source | states |
|---|---|---|
| Package.ReadPackageList | repoman/package.py:3-20 | the loop returns the `[package, ref]` pairs of the entry lines, or the error of the first line that does not unpack into two tokens; it equals `ReadEntries(lines, ToPair)` |
| Package.PackageListKeepsEntryLines | repoman/package.py:9-20 | reading succeeds iff every entry text holds exactly one space; on success there is one pair per entry line, in file order, and the two tokens joined by a space give back the entry text; on failure the error is an entry text without exactly one space |
| Package.ToPair | repoman/package.py:17 | unpacking succeeds iff the text holds exactly one space; the two tokens hold no space and, joined by a space, give back the text; otherwise the error carries the text |
| Package.SplitPair | repoman/package.py:17 | `line.split(" ")` has two parts iff the line holds exactly one space; the parts hold no space and rejoin to the line |
| Package.SplitPairOfJoin | repoman/package.py:17 | two space-free tokens joined by a space unpack to themselves |
| Package.EntryText | repoman/manifest.py:36-37 | no contract of its own; `EntryTextMeaning` and `EntryTexts` state what it keeps of a line |
| Package.ReadEntries | repoman/manifest.py:33-41 | no contract of its own; `ReadEntriesSucceeds`, `ReadEntriesInOrder`, `ReadEntriesFailsOnFirst` and `ReadEntriesConcat` state what it returns |
| Package.EntryTextMeaning | repoman/manifest.py:36-37 | the text kept of a line holds no `#` and does not end in whitespace; it is the right-stripped line when there is no `#`, and otherwise the right-stripped text before the first `#` |
| Package.EntryTexts | repoman/manifest.py:38-39 | the entry texts are at most as many as the lines and none of them is empty |
| Package.ReadEntriesSucceeds | repoman/manifest.py:33-41 | reading the lines succeeds iff every entry text parses |
| Package.ReadEntriesInOrder | repoman/manifest.py:33-41 | a successful read yields exactly one value per entry text, the k-th being the parse of the k-th entry text, in file order |
| Package.ReadEntriesFailsOnFirst | repoman/manifest.py:33-41 | a failing read fails with the error of an entry text that does not parse, and every entry text before it parses |
| Package.FirstFailure | repoman/manifest.py:33-41 | the position of the entry text a failing read stops at: its parse is the read's error, and all earlier ones parse |
| Package.ReadEntriesSingle | repoman/manifest.py:34-40 | a blank or comment-only line reads as nothing; an entry line reads as its parse or fails with its parse error |
| Package.ReadEntriesConcat | repoman/manifest.py:34-41 | reading two files one after the other is reading the first, then prefixing its values to the read of the second; an error in the first stops the read |
| Package.NameOnly | repoman/cli.py:74 | a spec built from a name alone has that name and neither ref nor ref path |
| Manifest.GetSpec | repoman/manifest.py:117-126 | the line is accepted iff it holds exactly one space, and otherwise is reported as malformed; an accepted spec has a ref and a name without `/`, and its package token (name, then `/` and ref path when present) and ref, joined by a space, give back the line |
| Manifest.DecodePackage | repoman/manifest.py:120-125 | a token without `/` is the name with no ref path; otherwise the name is the text before the first `/` and the ref path all the text after it, further slashes kept; the two rejoin to the token |
| Manifest.MangleSpec | repoman/manifest.py:102-106 | the key is `name/ref_path` when the ref path is present and non-empty, and the name otherwise |
| Manifest.FormatSpec | repoman/manifest.py:109-114 | the line is the key, a space and the ref, then a space and the comment when the comment is non-empty |
| Manifest.ReadManifestFile | repoman/manifest.py:26-41 | the loop returns the specs of the entry lines, or the first error; it equals `ReadEntries(lines, GetSpec)` |
| Manifest.ReadManifestSucceeds | repoman/manifest.py:33-41 | reading the manifest succeeds iff every entry text holds exactly one space |
| Manifest.ReadManifestKeepsEntryLines | repoman/manifest.py:33-41 | a successful read has one spec per entry line, in file order, each being `get_spec` of that line's text |
| Manifest.ReadManifestFailsOnFirst | repoman/manifest.py:33-41 | a failing read reports as malformed the first entry text without exactly one space; all earlier entry texts hold exactly one space |
| Manifest.FirstMalformed | repoman/manifest.py:119 | the entry text `get_spec` rejects is the malformed one, and the ones accepted before it each hold one space |
| Manifest.DecodeMangledKey | repoman/manifest.py:102-125 | decoding the key of a spec whose name holds no `/` and whose ref path is absent or non-empty gives back the name and the ref path |
| Manifest.MangleDecodedKey | repoman/manifest.py:102-125 | a package token that does not end in `/` is the key of the spec decoded from it |
| Manifest.GetSpecOfFormat | repoman/manifest.py:102-126 | `get_spec(format_spec(spec))` is the spec, when the name holds no `/` or space, the ref holds no space, and the ref path is absent or non-empty without spaces |
| Manifest.ToPairAgreesWithGetSpec | repoman/manifest.py:117-126 | the older parser accepts a text iff `get_spec` does, with the same malformed text on failure; its pair is the spec's package token and ref, and the token is the spec's key unless it ends in `/` |
| Manifest.GetSpecOfPair | repoman/manifest.py:119-126 | `get_spec` builds its spec from the unpacked ref and the decoded package token |
| Manifest.PackageListFailsWithManifest | repoman/package.py:11-19 | the older parser fails exactly when `read_manifest_file` fails, and both name the same malformed text |
| Manifest.PackageListAgreesWithManifest | repoman/package.py:11-19 | when both readers succeed they yield equally many results, pair k being spec k's package token and ref, and the token being spec k's key unless it ends in `/` |
| Manifest.PairOfSpec | repoman/package.py:17-19 | a pair and a spec read from the same text agree on the token and the ref |
| Manifest.PendingSpecs | repoman/manifest.py:62 | the pending map has exactly the keys of the requested specs; each spec sits under its own key and is one of the requested specs |
| Manifest.PendingSpecsLastWins | repoman/manifest.py:62 | of specs sharing a key, the last one requested is the one pending |
| Manifest.LineComment | repoman/manifest.py:67-71 | no contract of its own; `LineCommentMeaning` states it |
| Manifest.LineCommentMeaning | repoman/manifest.py:67-71 | a line without `#` has no comment; otherwise the comment is the right-stripped text after the first `#` |
| Manifest.UpdateLine | repoman/manifest.py:66-90 | one line gives at most one line of output and only consumes pending keys; a blank or comment-only line is copied and consumes nothing |
| Manifest.UpdateLines | repoman/manifest.py:65-90 | the line loop writes at most one line per input line and only consumes pending keys |
| Manifest.UpdateLinesStep | repoman/manifest.py:65-90 | from any position, the loop handles that line, then the rest of the file with what that line left pending |
| Manifest.UnusedSpecs | repoman/manifest.py:93 | no contract of its own; `UnusedSpecsCount`, `UnusedSpecsRequested`, `UnusedSpecsConcat` and `UnusedSpecsAllPending` state which specs it keeps and in what order |
| Manifest.UnusedSpecsCount | repoman/manifest.py:93 | each requested spec still pending after the loop is appended as many times as it was requested, and no other spec is |
| Manifest.FormatNew | repoman/manifest.py:94-96 | formatting the appended specs succeeds iff each has a ref, giving `format_spec(spec) + "\n"` per spec in order; otherwise it fails on a spec without a ref |
| Manifest.UpdateManifest | repoman/manifest.py:55-99 | no contract of its own; `UpdateManifestParts`, `UpdateFailsOnlyOnMalformed`, `UpdateKeepsNonEntryLines`, `UpdateReadsBack`, `UpdateWritesEachKeyOnce` and `UpdateIsIdempotent` state it |
| Manifest.EmittedTwice | repoman/manifest.py:76-88 | lines emitted in two steps are the concatenation of the two |
| Manifest.ManifestFile.constructor | repoman/manifest.py:51 | the file object holds the given text |
| Manifest.RewriteLine | repoman/manifest.py:66-90 | one pass of the line loop, statement by statement, equals its specification `UpdateLine` |
| Manifest.RewriteLines | repoman/manifest.py:64-90 | the line loop, appending to the new lines and deleting each consumed key from the pending map, equals `UpdateLines` |
| Manifest.UpdateManifestFile | repoman/manifest.py:55-99 | the file's text is read with `readlines()`; on success it becomes the `writelines()` of the new lines, the loop's output followed by the formatted unused specs; on failure the error is returned and the text is unchanged |
| ManifestLaws.UpdateLineKeepsOwnSpec | repoman/manifest.py:87-89 | an entry line whose spec equals the pending one is copied verbatim and its key consumed |
| ManifestLaws.UpdateLineRewrites | repoman/manifest.py:81-85 | an entry line whose pending spec differs is replaced by `format_spec(new, comment) + "\n"` and its key consumed |
| ManifestLaws.UpdateLineDropsUnpending | repoman/manifest.py:81-90 | an entry line whose key is not pending writes nothing and consumes nothing |
| ManifestLaws.UpdateLinesKeepsOwnSpecs | repoman/manifest.py:65-90 | with the file's own specs pending under distinct keys, the loop copies every line and consumes exactly those keys |
| ManifestLaws.UpdateWithOwnSpecs | repoman/manifest.py:55-99 | updating a manifest with its own specs, keyed apart, rewrites it byte for byte |
| ManifestLaws.UpdateLineFailsOnlyOnMalformed | repoman/manifest.py:79 | with every pending spec having a ref, a line fails iff it is an entry line that `get_spec` rejects, and with that error |
| ManifestLaws.UpdateLinesFailsOnlyOnMalformed | repoman/manifest.py:65-90 | the loop fails iff reading the manifest fails, and with the same error |
| ManifestLaws.UpdateFailsOnlyOnMalformed | repoman/manifest.py:55-99 | with every requested spec having a ref, the update fails iff reading the manifest fails, and with the same error |
| ManifestLaws.UnusedSpecsRequested | repoman/manifest.py:93 | every appended spec is a requested spec still pending |
| ManifestLaws.UnusedSpecsConcat | repoman/manifest.py:93 | the filter of two request lists is the filter of each, concatenated, so request order is kept |
| ManifestLaws.UnusedSpecsAllPending | repoman/manifest.py:93 | when every requested spec is still pending, all are appended in request order |
| ManifestLaws.NothingUnused | repoman/manifest.py:93-96 | when nothing is pending, nothing is appended |
| ManifestLaws.FormattedLineReadsBack | repoman/manifest.py:96 | the line written for a spec reads back as that spec |
| ManifestLaws.FormatNewReadsBack | repoman/manifest.py:94-96 | the appended lines read back as the appended specs, in order |
| ManifestLaws.UpdateLineReadsBack | repoman/manifest.py:66-90 | an uncommented line either gives nothing that reads and consumes nothing, or gives the line of the pending spec of its key, consuming that key |
| ManifestLaws.UpdateLinesReadsBack | repoman/manifest.py:65-90 | the lines the loop writes read back as specs keyed apart, exactly the pending specs whose keys it consumed |
| ManifestLaws.DeliveredAll | repoman/manifest.py:92-96 | the specs read back from the loop's lines, together with the appended ones, are all and only the pending specs |
| ManifestLaws.UpdateManifestParts | repoman/manifest.py:92-99 | the written file is the loop's lines followed by the appended lines |
| ManifestLaws.UpdateReadsBack | repoman/manifest.py:55-99 | for the lines of a readable manifest without commented entry lines, the update succeeds and the list of lines written reads back as exactly the set of pending specs |
| ManifestLaws.UnusedNoDuplicates | repoman/manifest.py:93 | filtering a list without duplicates keeps it without duplicates |
| ManifestLaws.UnusedDistinctKeys | repoman/manifest.py:93 | the appended specs of a list without duplicates are keyed apart and each is the pending spec of its key |
| ManifestLaws.UpdateWritesEachKeyOnce | repoman/manifest.py:55-99 | without duplicate requests, the list of lines written holds each key at most once, with the pending spec of that key |
| ManifestLaws.UpdateIsIdempotent | repoman/manifest.py:55-99 | for the lines of a readable manifest without commented entry lines, writable specs and no duplicate requests, updating the lines written a second time with the same specs writes the same lines |
| ManifestFileLaws.FormattedLineComplete | repoman/manifest.py:96 | the line written for a spec with a ref and no line break in its fields ends in its only line break |
| ManifestFileLaws.UpdateLineComplete | repoman/manifest.py:66-90 | a complete, uncommented line gives only complete lines |
| ManifestFileLaws.UpdateLinesComplete | repoman/manifest.py:65-90 | the line loop over complete, uncommented lines writes only complete lines |
| ManifestFileLaws.FormatNewComplete | repoman/manifest.py:94-96 | the appended lines are complete lines |
| ManifestFileLaws.UpdateManifestComplete | repoman/manifest.py:55-96 | the update of complete, uncommented lines writes only complete lines |
| ManifestFileLaws.WrittenFileReadsBack | repoman/manifest.py:63-99 | for a file ending in a line break, `readlines()` of the text written gives back the lines written |
| ManifestFileLaws.UpdateFileReadsBack | repoman/manifest.py:55-99 | for a readable file ending in a line break, without commented entry lines, and specs with no line break, the text written reads back as exactly the set of pending specs |
| ManifestFileLaws.UpdateFileWritesEachKeyOnce | repoman/manifest.py:55-99 | under the same conditions and without duplicate requests, the text written holds each key at most once, with the pending spec of that key |
| ManifestFileLaws.UpdateFileIsIdempotent | repoman/manifest.py:55-99 | under the same conditions, updating the text written a second time with the same specs writes the same text |
| ManifestFileLaws.LastLineMerges | repoman/manifest.py:63-99 | a file whose only line is an entry without a line break, updated with its spec and a second one, is written as one line holding both entries, and that file no longer reads |
| ManifestLaws.UpdateDropsUnrequested | repoman/manifest.py:81-90 | updating a one-entry manifest with no specs gives an empty manifest |
| ManifestLaws.UpdateRepeatsDuplicate | repoman/manifest.py:62 | a spec requested twice is appended twice to an empty manifest, and a second update drops one of the two copies |
| ManifestLaws.AppendTwice | repoman/manifest.py:93-96 | a spec requested twice is appended twice to an empty manifest |
| ManifestLaws.SecondRunDropsCopy | repoman/manifest.py:81-90 | with two copies of a line and its spec requested twice, the first copy is kept and the second dropped |
| ManifestLaws.UpdateDropsCommentMarker | repoman/manifest.py:81-84 | a commented entry line whose spec changes is rewritten with the comment but without its `#`, and the written line is malformed |
| ManifestLaws.RewrittenLineMalformed | repoman/manifest.py:109-119 | a spec written with a comment and read back is malformed |
| ManifestLaws.CommentedLineRewritten | repoman/manifest.py:67-85 | the commented line of a spec is rewritten with the new spec and the comment, consuming the only pending key |
| ManifestLaws.CommentedLineParts | repoman/manifest.py:67-72 | a commented line's entry text is the spec's text and its comment the comment |
| ManifestLaws.UpdateLinesEdits | repoman/manifest.py:65-90 | the loop edits the file entry by entry: blank and comment-only lines kept in order, each entry line dropped or replaced by one line in its place |
| ManifestLaws.UpdateKeepsNonEntryLines | repoman/manifest.py:65-99 | the written file is an entry-by-entry edit of the original followed by exactly the appended lines |
| FileText.ReadLines | repoman/manifest.py:63 | no contract of its own; `WriteReadLines`, `ReadLinesShape`, `ReadWriteLines` and `MergedLine` state it |
| FileText.WriteLines | repoman/manifest.py:99 | no contract of its own; `WriteReadLines`, `ReadWriteLines` and `MergedLine` state it |
| FileText.WriteReadLines | repoman/manifest.py:63 | writing the lines `readlines()` read gives back the text |
| FileText.ReadLinesShape | repoman/manifest.py:63 | every line read is non-empty with at most one line break, at its end; all but the last end in one, and the last too when the text does |
| FileText.ReadWriteLines | repoman/manifest.py:99 | lines that each end in their only line break are read back as written |
| FileText.MergedLine | repoman/manifest.py:99 | a line without a line break written before a complete line is read back as one line |
| PyText.RStrip | repoman/manifest.py:37 | `rstrip()` is a prefix not ending in whitespace, and only whitespace was removed |
| PyText.StripMeaning | repoman/release.py:9 | the `strip()` that `int()` applies is `rstrip()` then `lstrip()` |
| PyText.Split | repoman/manifest.py:36 | `split(c)` has at least one part and no part holds `c` |
| PyText.JoinSplit | repoman/release.py:10 | joining the parts of a split gives back the string |
| PyText.SplitJoin | repoman/package.py:17 | splitting a join of parts free of the separator gives back the parts |
| PyText.SplitCount | repoman/manifest.py:119 | a split has one part more than the string has separators |
| PyText.SplitAtFirst | repoman/manifest.py:123-125 | the first part of a split is the text before the first separator, and the rest rejoins to the text after it |
| PyText.ParseInt | repoman/release.py:9 | no contract of its own; `ParseIntDigits`, `ParseIntNonNegative`, `ParseIntEmpty` and `Format02RoundTrip` state it |
| PyText.Format02 | repoman/release.py:26 | no contract of its own; `Format02Digits` and `Format02RoundTrip` state it |
| PyText.ParseIntDigits | repoman/release.py:9 | `int()` of a non-empty string of digits is the number the digits denote |
| PyText.ParseIntNonNegative | repoman/release.py:9 | `int()` of a string without `-` is never negative |
| PyText.ParseIntEmpty | repoman/release.py:9 | `int("")` raises |
| PyText.Format02Digits | repoman/release.py:26 | `"{:02}"` of a natural number gives at least two digits and no `-` |
| PyText.Format02RoundTrip | repoman/release.py:26 | `int("{:02}".format(n)) == n` |
| PyText.DigitsValueOfDecimal | repoman/release.py:26 | the decimal digits of a number denote it |
| Release.ParseFields | repoman/release.py:9 | no contract of its own; `ParseFieldsSucceeds`, `ParseFieldsFailsOnFirst`, `ParseFieldsCons` and `ParseFieldsOfThree` state it |
| Release.ParseFieldsSucceeds | repoman/release.py:9 | the comprehension succeeds iff `int()` accepts every field, and then yields one number per field, in order |
| Release.ParseFieldsFailsOnFirst | repoman/release.py:9 | when it raises, it names the first field `int()` rejects |
| Release.ParseFieldsCons | repoman/release.py:9 | the first field is read first: a rejected first field is the error |
| Release.ParseFieldsOfThree | repoman/release.py:9 | three fields parse iff each does, to their three numbers |
| Release.Drop | repoman/release.py:10 | `s[3:]` is empty when `s` is at most three characters long, and otherwise `s` without its first three characters |
| Release.Take | repoman/release.py:9 | `split_version[:3]` is the whole list when it has at most three fields, and otherwise the first three |
| Release.FlagCount | repoman/release.py:11 | no flag counts iff none is set |
| Release.Numbers | repoman/release.py:9 | the major, minor and patch numbers of a version are never negative |
| Release.SuffixNotEmpty | repoman/release.py:10 | `cur_more` is non-empty when there are more than three fields |
| Release.LeadingNumbers | repoman/release.py:8-9 | the unpacking succeeds iff the version has three leading fields `int()` accepts, and gives their numbers |
| Release.ResolveNextVersion | repoman/release.py:6-27 | no contract of its own; `ResolveNextVersionSucceeds`, `ResolveNextVersionInvalid`, `ResolveNextVersionValue`, `ResolveNextVersionShape` and `ResolveNextVersionBumps` state it |
| Release.Bumped | repoman/release.py:16-24 | no contract of its own; `ResolveNextVersionBumps` states it |
| Release.FormatVersion | repoman/release.py:26 | no contract of its own; `FormatVersionFields` and `FormatVersionNumbers` state it |
| Release.ResolveNextVersionSucceeds | repoman/release.py:6-27 | the next version is computed iff the version has three numeric leading fields and either more fields or a bump flag |
| Release.ResolveNextVersionInvalid | repoman/release.py:13-14 | `Invalid version specification` is raised iff the version has three numeric fields, no more, and no flag is set |
| Release.ResolveNextVersionValue | repoman/release.py:16-26 | a computed version is the bumped numbers, formatted |
| Release.ResolveNextVersionShape | repoman/release.py:26 | a computed version has exactly three fields of at least two digits, holding the bumped numbers |
| Release.ResolveNextVersionBumps | repoman/release.py:16-24 | major increments major and zeroes the rest; otherwise minor increments minor and zeroes patch; otherwise patch increments patch; with no flag the numbers are kept, which needs a suffix |
| Release.FormatVersionFields | repoman/release.py:26 | the formatted version splits into the three zero-padded numbers, each of at least two digits |
| Release.FormatVersionNumbers | repoman/release.py:26 | the formatted version parses back to its numbers and has no suffix |
| Release.ResolveFormattedNeedsFlag | repoman/release.py:13-14 | feeding a computed version back in with no flag raises |
| Release.ResolveSuffixKeepsNumbers | repoman/release.py:13-26 | a version with a suffix and no flag resolves to its own numbers, without the suffix |
| Release.SuffixedNumbers | repoman/release.py:8-10 | a formatted version followed by `-` and more text keeps its numbers and has a suffix |
| Release.ResolveExamples | repoman/release.py:16-26 | `01-02-03` resolves to `02-00-00`, `01-03-00` and `01-02-04` for major, minor and patch, to `02-00-00` with every flag, and raises with none |
| Release.GetTag | repoman/release.py:118-119 | no contract of its own; `GetTagText` and `GetTagSplits` state it |
| Release.GetCommitMessage | repoman/release.py:122-125 | no contract of its own; `GetCommitMessageParts` and `DefaultCommitMessage` state it |
| Release.GetTagText | repoman/release.py:118-119 | the tag is the package name, `-`, then the version |
| Release.GetTagSplits | repoman/release.py:118-119 | for a name without `-`, the tag splits into the name followed by the version's fields |
| Release.GetCommitMessageParts | repoman/release.py:122-125 | the message is the prefix, a space, the given message (or `Prepare release` when none or empty is given), a space and the tag, and it starts with the prefix and a space |
| Release.DefaultCommitMessage | repoman/release.py:2-3 | with no message given, the commit message is `[repoman-release] Prepare release` and the tag; an empty message gives the same |
| Release.TagExample | repoman/release.py:118-119 | the tag of release `01-01-01` of `astro` is `astro-01-01-01` |
| Release.CommitMessageExample | repoman/release.py:43-44 | the default commit message of that release is `[repoman-release] Prepare release astro-01-01-01` |

## Left out

- File handling: `open`, `seek` and `truncate`. The `ManifestFile` object holds the file's text; `update_manifest_file` replacing it models `seek(0)`, `truncate()` and `writelines()`. The readers take the list `readlines()` returns.
- Newline translation of text mode (`"\r\n"` and `"\r"` read as `"\n"`) is not modelled: a line ends at `"\n"`.
- `ManifestLaws.UpdateReadsBack`, `ManifestLaws.UpdateWritesEachKeyOnce` and `ManifestLaws.UpdateIsIdempotent` are laws of the list of lines. For the file's text they hold only when the text ends in a line break and no field of a spec holds one (`ManifestFileLaws.UpdateFileReadsBack`, `ManifestFileLaws.UpdateFileWritesEachKeyOnce`, `ManifestFileLaws.UpdateFileIsIdempotent`); otherwise an appended line runs on from the last line (`ManifestFileLaws.LastLineMerges`).
- `find_manifest`, `read_manifest` and `update_manifest`: thin wrappers that open a file (`os.listdir`, `open`) around the modelled functions.
- `logger.info` calls: they have no effect on the result.
- `package.describe_version()`: a call into git, so the current version is an input of `ResolveNextVersion`.
- The `major`, `minor` and `patch` arguments are `bool`s: only their truthiness is used.
- `_get_tag` takes the package's name, the only attribute of the package object it reads.
- The `commit_message` argument is an `Option<string>`. `None` and `""` are the falsy values that select the default message; other falsy objects are not modelled.
- `ParseInt` covers the ASCII digits. Python's `int()` also accepts other Unicode decimal digits, which are not modelled.
- `IsSpace` covers the characters for which `str.isspace()` holds, as listed in `PyText.Whitespace`.
- The rest of `repoman/release.py` (`prepare`, `perform`, `assert_committed`, `do_resolve_release`, `tag_dependency`, `_push_dependency_tags`), `repoman/workspace.py`, `repoman/cli.py`, `repoman/tag.py` and `repoman/product.py`: git and filesystem calls, command-line glue and stubs.
- `setup.py`, `example.py` and the tests: packaging and scripts.
- `Manifest.ManifestFile.constructor` and `Manifest.UpdateManifestFile` describe the file's new state through `old` and `modifies`. Their contracts tie that state to `UpdateManifest`, whose properties are the `ManifestLaws` lemmas.
