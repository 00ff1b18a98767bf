/**
 * The laws of `update_manifest_file` for the text of the file, read with
 * `readlines` and written with `writelines`. The lines written re-read as
 * the same lines when each of them ends in its only line break, which is
 * the case when the file read ends in a line break and the specs' fields
 * hold none. When the last line of the file has no line break and a spec
 * is appended, the two run together on one line (`LastLineMerges`).
 */
module ManifestFileLaws {
  import opened Wrappers
  import opened PyText
  import opened FileText
  import opened Package
  import opened Manifest
  import opened ManifestLaws

  /** No field of the spec holds a line break. */
  predicate OneLine(spec: PackageSpec) {
    && '\n' !in spec.name
    && (spec.ref.Some? ==> '\n' !in spec.ref.value)
    && (spec.refPath.Some? ==> '\n' !in spec.refPath.value)
  }

  /** Every pending spec has a ref and no line break in its fields. */
  predicate OneLinePending(pending: map<string, PackageSpec>) {
    forall k :: k in pending ==> pending[k].ref.Some? && OneLine(pending[k])
  }

  /** The line `format_spec` writes for such a spec, with its line break, is a complete line. */
  lemma FormattedLineComplete(spec: PackageSpec)
    requires spec.ref.Some? && OneLine(spec)
    ensures CompleteLine(FormatSpec(spec, "") + "\n")
  {
    var text := FormatSpec(spec, "");
    assert '\n' !in MangleSpec(spec);
    assert text == MangleSpec(spec) + " " + spec.ref.value;
    assert '\n' !in text;
    assert (text + "\n")[..|text|] == text;
  }

  /** A complete, uncommented line gives complete lines. */
  lemma UpdateLineComplete(orig: string, pending: map<string, PackageSpec>)
    requires CompleteLine(orig)
    requires IsEntryLine(orig) ==> LineComment(orig) == ""
    requires OneLinePending(pending)
    requires UpdateLine(orig, pending).Ok?
    ensures forall w :: w in UpdateLine(orig, pending).value.0 ==> CompleteLine(w)
  {
    if IsEntryLine(orig) {
      UpdateLineFailsOnlyOnMalformed(orig, pending);
      var spec := GetSpec(EntryText(orig)).value;
      var key := MangleSpec(spec);
      if key in pending && pending[key] != spec {
        UpdateLineRewrites(orig, spec, pending);
        FormattedLineComplete(pending[key]);
      } else if key in pending {
        UpdateLineKeepsOwnSpec(orig, spec, pending);
      } else {
        UpdateLineDropsUnpending(orig, spec, pending);
      }
    }
  }

  /** The line loop over complete, uncommented lines writes complete lines. */
  lemma {:induction false} UpdateLinesComplete(lines: seq<string>, pending: map<string, PackageSpec>)
    requires forall k :: 0 <= k < |lines| ==> CompleteLine(lines[k])
    requires NoEntryComments(lines)
    requires OneLinePending(pending)
    requires UpdateLines(lines, pending).Ok?
    ensures forall w :: w in UpdateLines(lines, pending).value.written ==> CompleteLine(w)
    decreases |lines|
  {
    if lines != [] {
      UpdateLineComplete(lines[0], pending);
      var out, mid := UpdateLine(lines[0], pending).value.0, UpdateLine(lines[0], pending).value.1;
      assert forall k :: 0 <= k < |lines[1..]| ==> lines[1..][k] == lines[k + 1];
      UpdateLinesComplete(lines[1..], mid);
      assert UpdateLines(lines, pending).value.written == out + UpdateLines(lines[1..], mid).value.written;
    }
  }

  /** The appended lines of specs with refs and no line break are complete lines. */
  lemma FormatNewComplete(us: seq<PackageSpec>)
    requires forall k :: 0 <= k < |us| ==> us[k].ref.Some? && OneLine(us[k])
    ensures FormatNew(us).Ok? && forall w :: w in FormatNew(us).value ==> CompleteLine(w)
  {
    forall k | 0 <= k < |us| {
      FormattedLineComplete(us[k]);
    }
  }

  /** `update_manifest_file` on complete, uncommented lines writes complete lines. */
  lemma UpdateManifestComplete(lines: seq<string>, specs: seq<PackageSpec>, pending: map<string, PackageSpec>)
    requires PendingSpecs(specs) == pending
    requires forall k :: 0 <= k < |lines| ==> CompleteLine(lines[k])
    requires NoEntryComments(lines)
    requires forall s :: s in specs ==> s.ref.Some? && OneLine(s)
    requires UpdateManifest(lines, specs).Ok?
    ensures forall w :: w in UpdateManifest(lines, specs).value ==> CompleteLine(w)
  {
    assert OneLinePending(pending);
    UpdateLinesComplete(lines, pending);
    var p := UpdateLines(lines, pending).value;
    var us := UnusedSpecs(specs, p.pending);
    UnusedSpecsRequested(specs, p.pending);
    FormatNewComplete(us);
    UpdateManifestParts(lines, specs);
  }

  /**
   * For a file that ends in a line break, has no commented entry line and
   * is updated with specs whose fields hold no line break, the text
   * `writelines` writes reads back, with `readlines`, as the lines written.
   */
  lemma WrittenFileReadsBack(content: string, specs: seq<PackageSpec>)
    requires EndsInLineBreak(content)
    requires NoEntryComments(ReadLines(content))
    requires forall s :: s in specs ==> s.ref.Some? && OneLine(s)
    requires UpdateManifest(ReadLines(content), specs).Ok?
    ensures var written := UpdateManifest(ReadLines(content), specs).value;
      ReadLines(WriteLines(written)) == written
  {
    var lines := ReadLines(content);
    ReadLinesShape(content);
    UpdateManifestComplete(lines, specs, PendingSpecs(specs));
    var written := UpdateManifest(lines, specs).value;
    assert forall k :: 0 <= k < |written| ==> written[k] in written;
    ReadWriteLines(written);
  }

  /**
   * The file `update_manifest_file` writes reads back as exactly the set
   * of pending specs, when the file read ends in a line break.
   */
  lemma UpdateFileReadsBack(content: string, specs: seq<PackageSpec>)
    requires EndsInLineBreak(content)
    requires ReadEntries(ReadLines(content), GetSpec).Ok?
    requires forall s :: s in specs ==> Writable(s) && OneLine(s)
    requires NoEntryComments(ReadLines(content))
    ensures UpdateManifest(ReadLines(content), specs).Ok?
    ensures var back := ReadEntries(ReadLines(WriteLines(UpdateManifest(ReadLines(content), specs).value)), GetSpec);
      back.Ok? && (set s | s in back.value) == PendingSpecs(specs).Values
  {
    UpdateReadsBack(ReadLines(content), specs);
    WrittenFileReadsBack(content, specs);
  }

  /**
   * Without duplicate requests, the file written holds each key at most
   * once, with the pending spec of that key.
   */
  lemma UpdateFileWritesEachKeyOnce(content: string, specs: seq<PackageSpec>)
    requires EndsInLineBreak(content)
    requires ReadEntries(ReadLines(content), GetSpec).Ok?
    requires forall s :: s in specs ==> Writable(s) && OneLine(s)
    requires NoEntryComments(ReadLines(content))
    requires NoDuplicates(specs)
    ensures UpdateManifest(ReadLines(content), specs).Ok?
    ensures var back := ReadEntries(ReadLines(WriteLines(UpdateManifest(ReadLines(content), specs).value)), GetSpec);
      && back.Ok? && DistinctKeys(back.value)
      && forall s :: s in back.value ==> MangleSpec(s) in PendingSpecs(specs) && PendingSpecs(specs)[MangleSpec(s)] == s
  {
    UpdateWritesEachKeyOnce(ReadLines(content), specs);
    WrittenFileReadsBack(content, specs);
  }

  /**
   * Updating the file a second time with the same specs writes the same
   * text, when the file read ends in a line break, has no commented entry
   * line, and no spec is requested twice.
   */
  lemma UpdateFileIsIdempotent(content: string, specs: seq<PackageSpec>)
    requires EndsInLineBreak(content)
    requires ReadEntries(ReadLines(content), GetSpec).Ok?
    requires forall s :: s in specs ==> Writable(s) && OneLine(s)
    requires NoEntryComments(ReadLines(content))
    requires NoDuplicates(specs)
    ensures UpdateManifest(ReadLines(content), specs).Ok?
    ensures var first := WriteLines(UpdateManifest(ReadLines(content), specs).value);
      && UpdateManifest(ReadLines(first), specs).Ok?
      && WriteLines(UpdateManifest(ReadLines(first), specs).value) == first
  {
    UpdateIsIdempotent(ReadLines(content), specs);
    WrittenFileReadsBack(content, specs);
  }

  /**
   * A file whose last line is an entry without its line break, updated
   * with that entry's spec and one more: `writelines` puts the appended
   * line right after the last line, so the file written holds the two
   * entries on one line, and reading it fails.
   */
  lemma LastLineMerges(kept: PackageSpec, spec: PackageSpec)
    requires Writable(kept) && Writable(spec) && OneLine(kept) && OneLine(spec)
    requires MangleSpec(kept) != MangleSpec(spec)
    ensures var last := FormatSpec(kept, "");
      && ReadLines(last) == [last]
      && UpdateManifest([last], [kept, spec]) == Ok([last, SpecLine(spec)])
      && ReadLines(WriteLines([last, SpecLine(spec)])) == [last + SpecLine(spec)]
      && ReadEntries([last + SpecLine(spec)], GetSpec) == Err(MalformedLine(last + FormatSpec(spec, "")))
  {
    var last := FormatSpec(kept, "");
    LastLineAlone(kept);
    ManifestOfLastLine(kept, spec, last);
    LastLineRunsOn(kept, spec, last);
  }

  /** The text of a spec, with no line break, is one line. */
  lemma LastLineAlone(kept: PackageSpec)
    requires Writable(kept) && OneLine(kept)
    ensures ReadLines(FormatSpec(kept, "")) == [FormatSpec(kept, "")]
  {
    FormattedLineComplete(kept);
    var last := FormatSpec(kept, "");
    assert (last + "\n")[..|last|] == last;
  }

  /** Updating the one-line manifest appends the line of the second spec. */
  lemma ManifestOfLastLine(kept: PackageSpec, spec: PackageSpec, last: string)
    requires Writable(kept) && Writable(spec)
    requires MangleSpec(kept) != MangleSpec(spec)
    requires last == FormatSpec(kept, "")
    ensures UpdateManifest([last], [kept, spec]) == Ok([last, SpecLine(spec)])
  {
    var specs := [kept, spec];
    var rest := KeptLineLeaves(kept, spec, last, specs, PendingSpecs(specs));
    var line := SpecLine(spec);
    FormatOne(spec);
    AppendAfterLine(last, specs, PendingSpecs(specs), [last], rest, [spec], [line]);
    assert [last] + [line] == [last, line];
  }

  /** The line of the first spec is kept, and leaves only the second spec to append. */
  lemma KeptLineLeaves(kept: PackageSpec, spec: PackageSpec, last: string, specs: seq<PackageSpec>, pending: map<string, PackageSpec>)
      returns (rest: map<string, PackageSpec>)
    requires Writable(kept) && MangleSpec(kept) != MangleSpec(spec)
    requires last == FormatSpec(kept, "")
    requires specs == [kept, spec] && pending == PendingSpecs(specs)
    ensures UpdateLine(last, pending) == Ok(([last], rest))
    ensures UnusedSpecs(specs, rest) == [spec]
  {
    TwoPending(kept, spec, pending);
    LastLineKept(kept, last, pending);
    rest := pending - {MangleSpec(kept)};
    RestAfterKept(pending, MangleSpec(kept), MangleSpec(spec), spec, rest);
    UnusedAfterKept(kept, spec, rest);
  }

  /** The line appended for one spec. */
  lemma FormatOne(spec: PackageSpec)
    requires spec.ref.Some?
    ensures FormatNew([spec]) == Ok([SpecLine(spec)])
  {
    assert [spec][1..] == [];
    assert FormatNew([]) == Ok([]);
    assert [SpecLine(spec)] + [] == [SpecLine(spec)];
  }

  /** Two specs under different keys are both pending. */
  lemma TwoPending(kept: PackageSpec, spec: PackageSpec, pending: map<string, PackageSpec>)
    requires MangleSpec(kept) != MangleSpec(spec)
    requires pending == PendingSpecs([kept, spec])
    ensures pending.Keys == {MangleSpec(kept), MangleSpec(spec)}
    ensures pending[MangleSpec(kept)] == kept && pending[MangleSpec(spec)] == spec
  {
    assert [kept, spec][..1] == [kept];
    assert [kept][..0] == [];
  }

  /** The line of the first spec is kept and consumes its key. */
  lemma LastLineKept(kept: PackageSpec, last: string, pending: map<string, PackageSpec>)
    requires Writable(kept) && last == FormatSpec(kept, "")
    requires MangleSpec(kept) in pending && pending[MangleSpec(kept)] == kept
    ensures UpdateLine(last, pending) == Ok(([last], pending - {MangleSpec(kept)}))
  {
    FormattedEntryLine(last, kept);
    UpdateLineKeepsOwnSpec(last, kept, pending);
  }

  /** Once the first of two keys is consumed, the second spec is all that is pending. */
  lemma RestAfterKept(pending: map<string, PackageSpec>, k0: string, k1: string, spec: PackageSpec, rest: map<string, PackageSpec>)
    requires pending.Keys == {k0, k1} && k0 != k1 && pending[k1] == spec
    requires rest == pending - {k0}
    ensures rest.Values == {spec}
  {
    assert rest.Keys == {k1};
    assert spec in rest.Values by {
      assert rest[k1] == spec;
    }
  }

  /** Only the spec still pending is appended. */
  lemma UnusedAfterKept(kept: PackageSpec, spec: PackageSpec, rest: map<string, PackageSpec>)
    requires rest.Values == {spec} && MangleSpec(kept) != MangleSpec(spec)
    ensures UnusedSpecs([kept, spec], rest) == [spec]
  {
    assert kept != spec;
    assert [kept, spec][1..] == [spec] && [spec][1..] == [];
    assert UnusedSpecs([spec], rest) == [spec];
  }

  /** A one-line manifest, and the lines appended for the specs left pending after it. */
  lemma AppendAfterLine(orig: string, specs: seq<PackageSpec>, pending: map<string, PackageSpec>, out: seq<string>, rest: map<string, PackageSpec>, us: seq<PackageSpec>, extra: seq<string>)
    requires PendingSpecs(specs) == pending
    requires UpdateLine(orig, pending) == Ok((out, rest))
    requires UnusedSpecs(specs, rest) == us && FormatNew(us) == Ok(extra)
    ensures UpdateManifest([orig], specs) == Ok(out + extra)
  {
    assert [orig][1..] == [];
    assert UpdateLines([], rest) == Ok(Progress([], rest));
    assert UpdateLines([orig], pending) == Emitted(out, UpdateLines([], rest));
    assert out + [] == out;
    assert UpdateLines([orig], pending) == Ok(Progress(out, rest));
  }

  /** The file written holds the two entries on one line, which does not read. */
  lemma LastLineRunsOn(kept: PackageSpec, spec: PackageSpec, last: string)
    requires Writable(kept) && Writable(spec) && OneLine(kept) && OneLine(spec)
    requires last == FormatSpec(kept, "")
    ensures ReadLines(WriteLines([last, SpecLine(spec)])) == [last + SpecLine(spec)]
    ensures ReadEntries([last + SpecLine(spec)], GetSpec) == Err(MalformedLine(last + FormatSpec(spec, "")))
  {
    FormattedLineComplete(kept);
    FormattedLineComplete(spec);
    assert (last + "\n")[..|last|] == last;
    var line := SpecLine(spec);
    assert WriteLines([last, line]) == last + line by {
      assert [last, line][1..] == [line] && [line][1..] == [];
      assert WriteLines([line]) == line + WriteLines([]);
      assert line + [] == line;
    }
    MergedLine(last, SpecLine(spec));
    var w := last + FormatSpec(spec, "");
    assert last + SpecLine(spec) == w + "\n";
    MergedTextMalformed(kept, spec, w);
  }

  /** Two spec texts on one line make a malformed entry. */
  lemma MergedTextMalformed(kept: PackageSpec, spec: PackageSpec, w: string)
    requires Writable(kept) && Writable(spec)
    requires w == FormatSpec(kept, "") + FormatSpec(spec, "")
    ensures ReadEntries([w + "\n"], GetSpec) == Err(MalformedLine(w))
  {
    var a, b := FormatSpec(kept, ""), FormatSpec(spec, "");
    assert a == MangleSpec(kept) + " " + kept.ref.value;
    assert b == MangleSpec(spec) + " " + spec.ref.value;
    assert '#' !in MangleSpec(kept) && '#' !in MangleSpec(spec);
    assert '#' !in w;
    assert w[|w| - 1] == spec.ref.value[|spec.ref.value| - 1];
    assert multiset(w)[' '] >= 2 by {
      assert multiset(w) == multiset(MangleSpec(kept)) + multiset(" ") + multiset(kept.ref.value)
        + multiset(MangleSpec(spec)) + multiset(" ") + multiset(spec.ref.value);
    }
    PlainLineMalformed(w);
  }
}
