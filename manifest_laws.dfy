/**
 * Properties of the manifest update of repoman/manifest.py: updating a
 * manifest with its own specs changes nothing, the update fails only on a
 * malformed line, and a manifest written by the update reads back as the
 * requested specs. These laws are about the list of lines read and
 * written; the laws about the file's text are in `ManifestFileLaws`.
 */
module ManifestLaws {
  import opened Wrappers
  import opened PyText
  import opened Package
  import opened Manifest

  /** The keys of a list of specs. */
  function Keys(specs: seq<PackageSpec>): set<string> {
    set s | s in specs :: MangleSpec(s)
  }

  /** No two specs of the list share a key. */
  predicate DistinctKeys(specs: seq<PackageSpec>) {
    forall i, j :: 0 <= i < j < |specs| ==> MangleSpec(specs[i]) != MangleSpec(specs[j])
  }

  /** An entry line whose spec is the pending one is copied, and its key consumed. */
  lemma UpdateLineKeepsOwnSpec(orig: string, spec: PackageSpec, pending: map<string, PackageSpec>)
    requires IsEntryLine(orig) && GetSpec(EntryText(orig)) == Ok(spec)
    requires MangleSpec(spec) in pending && pending[MangleSpec(spec)] == spec
    ensures UpdateLine(orig, pending) == Ok(([orig], pending - {MangleSpec(spec)}))
  {
  }

  /** The first entry of a successful read is the spec of the first entry line. */
  lemma ReadEntriesHead(lines: seq<string>, specs: seq<PackageSpec>)
    requires lines != [] && ReadEntries(lines, GetSpec) == Ok(specs)
    ensures !IsEntryLine(lines[0]) ==> ReadEntries(lines[1..], GetSpec) == Ok(specs)
    ensures IsEntryLine(lines[0]) ==>
      && specs != []
      && GetSpec(EntryText(lines[0])) == Ok(specs[0])
      && ReadEntries(lines[1..], GetSpec) == Ok(specs[1..])
  {
    if IsEntryLine(lines[0]) {
      var tail := ReadEntries(lines[1..], GetSpec).value;
      assert specs == [GetSpec(EntryText(lines[0])).value] + tail;
      assert specs[1..] == tail;
    }
  }

  /**
   * The line loop copies every line of a file whose specs are all pending
   * with their own values, and consumes exactly their keys.
   */
  lemma {:induction false} UpdateLinesKeepsOwnSpecs(lines: seq<string>, specs: seq<PackageSpec>, pending: map<string, PackageSpec>)
    requires ReadEntries(lines, GetSpec) == Ok(specs)
    requires DistinctKeys(specs)
    requires forall s :: s in specs ==> MangleSpec(s) in pending && pending[MangleSpec(s)] == s
    ensures UpdateLines(lines, pending) == Ok(Progress(lines, pending - Keys(specs)))
    decreases |lines|
  {
    if lines == [] {
      assert specs == [];
      assert pending - Keys(specs) == pending;
    } else {
      ReadEntriesHead(lines, specs);
      assert [lines[0]] + lines[1..] == lines;
      if !IsEntryLine(lines[0]) {
        UpdateLinesKeepsOwnSpecs(lines[1..], specs, pending);
      } else {
        var key := MangleSpec(specs[0]);
        UpdateLineKeepsOwnSpec(lines[0], specs[0], pending);
        DistinctKeysTail(specs);
        ConsumeFirst(specs, pending);
        UpdateLinesKeepsOwnSpecs(lines[1..], specs[1..], pending - {key});
      }
    }
  }

  /** Dropping the first spec keeps the keys distinct, and none of the rest has its key. */
  lemma DistinctKeysTail(specs: seq<PackageSpec>)
    requires specs != [] && DistinctKeys(specs)
    ensures DistinctKeys(specs[1..])
    ensures forall s :: s in specs[1..] ==> MangleSpec(s) != MangleSpec(specs[0])
  {
    var tail := specs[1..];
    forall i, j | 0 <= i < j < |tail| ensures MangleSpec(tail[i]) != MangleSpec(tail[j]) {
      assert tail[i] == specs[i + 1] && tail[j] == specs[j + 1];
    }
    forall s | s in tail ensures MangleSpec(s) != MangleSpec(specs[0]) {
      var m :| 0 <= m < |tail| && tail[m] == s;
      assert specs[m + 1] == s;
    }
  }

  /**
   * Consuming the first key leaves the others pending, and consuming the
   * rest afterwards consumes them all.
   */
  lemma ConsumeFirst(specs: seq<PackageSpec>, pending: map<string, PackageSpec>)
    requires specs != [] && DistinctKeys(specs)
    requires forall s :: s in specs ==> MangleSpec(s) in pending && pending[MangleSpec(s)] == s
    ensures var key := MangleSpec(specs[0]);
      && (forall s :: s in specs[1..] ==> MangleSpec(s) in pending - {key} && (pending - {key})[MangleSpec(s)] == s)
      && (pending - {key}) - Keys(specs[1..]) == pending - Keys(specs)
  {
    DistinctKeysTail(specs);
    assert specs == [specs[0]] + specs[1..];
    assert Keys(specs) == {MangleSpec(specs[0])} + Keys(specs[1..]);
  }

  /** With distinct keys, the spec of each key is the one given for it. */
  lemma PendingSpecsOfDistinct(specs: seq<PackageSpec>)
    requires DistinctKeys(specs)
    ensures forall s :: s in specs ==> PendingSpecs(specs)[MangleSpec(s)] == s
  {
    forall s | s in specs ensures PendingSpecs(specs)[MangleSpec(s)] == s {
      var i :| 0 <= i < |specs| && specs[i] == s;
      PendingSpecsLastWins(specs, i);
    }
  }

  /** When nothing is pending any more, nothing is appended. */
  lemma NothingUnused(specs: seq<PackageSpec>)
    ensures UnusedSpecs(specs, map[]) == []
  {
  }

  /**
   * Updating a manifest with the specs read from it, when no two of its
   * entries share a key, leaves every line as it was.
   */
  lemma UpdateWithOwnSpecs(lines: seq<string>, specs: seq<PackageSpec>)
    requires ReadEntries(lines, GetSpec) == Ok(specs)
    requires DistinctKeys(specs)
    ensures UpdateManifest(lines, specs) == Ok(lines)
  {
    var pending := PendingSpecs(specs);
    PendingSpecsOfDistinct(specs);
    UpdateLinesKeepsOwnSpecs(lines, specs, pending);
    assert pending - Keys(specs) == map[];
    NothingUnused(specs);
    assert lines + [] == lines;
  }

  /**
   * With every pending spec carrying a ref, one turn of the line loop
   * fails exactly when the line is an entry line that `get_spec` rejects,
   * and with that error.
   */
  lemma UpdateLineFailsOnlyOnMalformed(orig: string, pending: map<string, PackageSpec>)
    requires forall k :: k in pending ==> pending[k].ref.Some?
    ensures UpdateLine(orig, pending).Err? <==> IsEntryLine(orig) && GetSpec(EntryText(orig)).Err?
    ensures UpdateLine(orig, pending).Err? ==> UpdateLine(orig, pending).error == GetSpec(EntryText(orig)).error
  {
  }

  /** The line loop fails exactly when reading the file fails, and with the same error. */
  lemma {:induction false} UpdateLinesFailsOnlyOnMalformed(lines: seq<string>, pending: map<string, PackageSpec>)
    requires forall k :: k in pending ==> pending[k].ref.Some?
    ensures UpdateLines(lines, pending).Ok? <==> ReadEntries(lines, GetSpec).Ok?
    ensures UpdateLines(lines, pending).Err? ==> UpdateLines(lines, pending).error == ReadEntries(lines, GetSpec).error
    decreases |lines|
  {
    if lines != [] {
      UpdateLineFailsOnlyOnMalformed(lines[0], pending);
      var step := UpdateLine(lines[0], pending);
      if step.Ok? {
        UpdateLinesFailsOnlyOnMalformed(lines[1..], step.value.1);
      }
    }
  }

  /** Every spec left to append is one of the requested specs. */
  lemma UnusedSpecsRequested(specs: seq<PackageSpec>, rest: map<string, PackageSpec>)
    ensures forall s :: s in UnusedSpecs(specs, rest) ==> s in specs && s in rest.Values
  {
    var us := UnusedSpecs(specs, rest);
    UnusedSpecsCount(specs, rest);
    forall s | s in us ensures s in specs && s in rest.Values {
      assert multiset(us)[s] > 0;
    }
  }

  /**
   * The unused specs keep request order: filtering a concatenation is
   * concatenating the filtered parts.
   */
  lemma {:induction false} UnusedSpecsConcat(a: seq<PackageSpec>, b: seq<PackageSpec>, rest: map<string, PackageSpec>)
    ensures UnusedSpecs(a + b, rest) == UnusedSpecs(a, rest) + UnusedSpecs(b, rest)
    decreases |a|
  {
    if a == [] {
      assert a + b == b;
    } else {
      var head := if a[0] in rest.Values then [a[0]] else [];
      assert a + b == [a[0]] + (a[1..] + b);
      assert a == [a[0]] + a[1..];
      UnusedSpecsCons(a[0], a[1..] + b, rest);
      UnusedSpecsCons(a[0], a[1..], rest);
      UnusedSpecsConcat(a[1..], b, rest);
      assert head + (UnusedSpecs(a[1..], rest) + UnusedSpecs(b, rest)) == (head + UnusedSpecs(a[1..], rest)) + UnusedSpecs(b, rest);
    }
  }

  /** One step of the filter: the first spec is kept exactly when it is still pending. */
  lemma UnusedSpecsCons(x: PackageSpec, tail: seq<PackageSpec>, rest: map<string, PackageSpec>)
    ensures UnusedSpecs([x] + tail, rest) == (if x in rest.Values then [x] else []) + UnusedSpecs(tail, rest)
  {
    var s := [x] + tail;
    assert s[0] == x && s[1..] == tail;
  }

  /** When every requested spec is still pending, all of them are appended, in request order. */
  lemma {:induction false} UnusedSpecsAllPending(specs: seq<PackageSpec>, rest: map<string, PackageSpec>)
    requires forall s :: s in specs ==> s in rest.Values
    ensures UnusedSpecs(specs, rest) == specs
    decreases |specs|
  {
    if specs != [] {
      assert specs[0] in specs;
      assert forall s :: s in specs[1..] ==> s in specs;
      UnusedSpecsAllPending(specs[1..], rest);
      assert [specs[0]] + specs[1..] == specs;
      UnusedSpecsCons(specs[0], specs[1..], rest);
    }
  }

  /**
   * When every requested spec has a ref, `update_manifest_file` fails
   * exactly when `read_manifest_file` fails on the same file, with the
   * same malformed line.
   */
  lemma UpdateFailsOnlyOnMalformed(lines: seq<string>, specs: seq<PackageSpec>)
    requires forall s :: s in specs ==> s.ref.Some?
    ensures UpdateManifest(lines, specs).Ok? <==> ReadEntries(lines, GetSpec).Ok?
    ensures UpdateManifest(lines, specs).Err? ==> UpdateManifest(lines, specs).error == ReadEntries(lines, GetSpec).error
  {
    var pending := PendingSpecs(specs);
    UpdateLinesFailsOnlyOnMalformed(lines, pending);
    var p := UpdateLines(lines, pending);
    if p.Ok? {
      var us := UnusedSpecs(specs, p.value.pending);
      UnusedSpecsRequested(specs, p.value.pending);
      assert forall k :: 0 <= k < |us| ==> us[k] in specs;
    }
  }

  /**
   * A spec that `format_spec` writes as a line `read_manifest_file` reads
   * back: it round-trips through `get_spec`, holds no '#', and its ref is
   * not empty and does not end in whitespace, so the final `rstrip` keeps it.
   */
  predicate Writable(spec: PackageSpec) {
    && RoundTrips(spec)
    && '#' !in spec.name
    && (spec.refPath.Some? ==> '#' !in spec.refPath.value)
    && spec.ref.value != "" && '#' !in spec.ref.value
    && !IsSpace(spec.ref.value[|spec.ref.value| - 1])
  }

  /** The line written for a writable spec reads back as that spec. */
  lemma FormattedLineReadsBack(spec: PackageSpec)
    requires Writable(spec)
    ensures ReadEntries([FormatSpec(spec, "") + "\n"], GetSpec) == Ok([spec])
  {
    var line := FormatSpec(spec, "") + "\n";
    FormattedEntryText(spec);
    GetSpecOfFormat(spec);
    ReadEntriesSingle(line, GetSpec);
  }

  /** The entry text of the written line is the formatted spec. */
  lemma FormattedEntryText(spec: PackageSpec)
    requires Writable(spec)
    ensures EntryText(FormatSpec(spec, "") + "\n") == FormatSpec(spec, "")
  {
    var text := FormatSpec(spec, "");
    var key := MangleSpec(spec);
    assert text == key + " " + spec.ref.value;
    assert '#' !in text + "\n";
    EntryTextMeaning(text + "\n");
    RStripLineBreak(text);
  }

  /** The lines appended for writable specs read back as those specs, in order. */
  lemma {:induction false} FormatNewReadsBack(us: seq<PackageSpec>)
    requires forall k :: 0 <= k < |us| ==> Writable(us[k])
    ensures FormatNew(us).Ok? && ReadEntries(FormatNew(us).value, GetSpec) == Ok(us)
    decreases |us|
  {
    if us != [] {
      FormatNewReadsBack(us[1..]);
      FormattedLineReadsBack(us[0]);
      var line := FormatSpec(us[0], "") + "\n";
      assert FormatNew(us).value == [line] + FormatNew(us[1..]).value;
      ReadEntriesConcat([line], FormatNew(us[1..]).value, GetSpec);
      assert us == [us[0]] + us[1..];
    }
  }

  /** No entry line of the file carries a comment after its '#'. */
  predicate NoEntryComments(lines: seq<string>) {
    forall line :: line in lines && IsEntryLine(line) ==> LineComment(line) == ""
  }

  /** Every pending spec is writable and sits under its own key. */
  predicate WritablePending(pending: map<string, PackageSpec>) {
    KeyedByMangle(pending) && forall k :: k in pending ==> Writable(pending[k])
  }

  /**
   * What the line loop has delivered: each spec read back from the lines
   * it wrote is the pending spec of a key it consumed, and the spec of
   * every consumed key is among them.
   */
  ghost predicate Delivered(vs: seq<PackageSpec>, pending: map<string, PackageSpec>, rest: map<string, PackageSpec>) {
    && (forall v :: v in vs ==> MangleSpec(v) in pending && MangleSpec(v) !in rest && pending[MangleSpec(v)] == v)
    && (forall k :: k in pending && k !in rest ==> pending[k] in vs)
  }

  /**
   * What one turn of the line loop writes reads back as nothing, leaving
   * the pending specs as they were, or as the pending spec of the line's
   * key, which is then consumed.
   */
  lemma UpdateLineReadsBack(orig: string, pending: map<string, PackageSpec>)
    requires UpdateLine(orig, pending).Ok?
    requires WritablePending(pending)
    requires IsEntryLine(orig) ==> LineComment(orig) == ""
    ensures var out, mid := UpdateLine(orig, pending).value.0, UpdateLine(orig, pending).value.1;
      || (mid == pending && ReadEntries(out, GetSpec) == Ok([]))
      || (IsEntryLine(orig) && GetSpec(EntryText(orig)).Ok?
          && var key := MangleSpec(GetSpec(EntryText(orig)).value);
          key in pending && mid == pending - {key} && ReadEntries(out, GetSpec) == Ok([pending[key]]))
  {
    if IsEntryLine(orig) {
      var oldSpec := GetSpec(EntryText(orig)).value;
      var key := MangleSpec(oldSpec);
      if key in pending && oldSpec != pending[key] {
        FormattedLineReadsBack(pending[key]);
      } else if key in pending {
        ReadEntriesSingle(orig, GetSpec);
      }
    } else {
      ReadEntriesSingle(orig, GetSpec);
    }
  }

  /** Delivering one more consumed key keeps the delivered specs keyed apart. */
  lemma DeliveredCons(vs: seq<PackageSpec>, pending: map<string, PackageSpec>, key: string, rest: map<string, PackageSpec>)
    requires key in pending && KeyedByMangle(pending)
    requires Delivered(vs, pending - {key}, rest) && SubMap(rest, pending - {key}) && DistinctKeys(vs)
    ensures Delivered([pending[key]] + vs, pending, rest) && DistinctKeys([pending[key]] + vs)
  {
    var ws := [pending[key]] + vs;
    forall i, j | 0 <= i < j < |ws| ensures MangleSpec(ws[i]) != MangleSpec(ws[j]) {
      assert ws[j] == vs[j - 1];
      if i > 0 {
        assert ws[i] == vs[i - 1];
      }
    }
  }

  /**
   * The lines the loop writes read back without error, one spec per
   * consumed key, each being that key's pending spec.
   */
  lemma {:induction false} UpdateLinesReadsBack(lines: seq<string>, pending: map<string, PackageSpec>)
    requires UpdateLines(lines, pending).Ok?
    requires WritablePending(pending)
    requires NoEntryComments(lines)
    ensures var p := UpdateLines(lines, pending).value; var back := ReadEntries(p.written, GetSpec);
      back.Ok? && DistinctKeys(back.value) && Delivered(back.value, pending, p.pending)
    decreases |lines|
  {
    if lines == [] {
    } else {
      var orig := lines[0];
      UpdateLineReadsBack(orig, pending);
      var out, mid := UpdateLine(orig, pending).value.0, UpdateLine(orig, pending).value.1;
      var p' := UpdateLines(lines[1..], mid);
      assert UpdateLines(lines, pending) == Emitted(out, p');
      UpdateLinesReadsBack(lines[1..], mid);
      var written := p'.value.written;
      var rest := p'.value.pending;
      ReadEntriesConcat(out, written, GetSpec);
      var vs := ReadEntries(written, GetSpec).value;
      if mid == pending && ReadEntries(out, GetSpec) == Ok([]) {
        assert [] + vs == vs;
      } else {
        var key := MangleSpec(GetSpec(EntryText(orig)).value);
        DeliveredCons(vs, pending, key, rest);
      }
    }
  }

  /**
   * The specs delivered by the line loop, followed by the unused ones,
   * are exactly the requested specs.
   */
  lemma DeliveredAll(specs: seq<PackageSpec>, vs: seq<PackageSpec>, rest: map<string, PackageSpec>)
    requires Delivered(vs, PendingSpecs(specs), rest) && SubMap(rest, PendingSpecs(specs))
    ensures (set s | s in vs + UnusedSpecs(specs, rest)) == PendingSpecs(specs).Values
  {
    var pending := PendingSpecs(specs);
    var us := UnusedSpecs(specs, rest);
    UnusedSpecsRequested(specs, rest);
    UnusedSpecsCount(specs, rest);
    forall w | w in pending.Values ensures w in vs + us {
      var k :| k in pending && pending[k] == w;
      if k in rest {
        assert rest[k] == w;
        assert multiset(us)[w] > 0;
      }
    }
    forall w | w in vs + us ensures w in pending.Values {
      if w in us {
        var k :| k in rest && rest[k] == w;
        assert pending[k] == w;
      } else {
        assert pending[MangleSpec(w)] == w;
      }
    }
  }

  /** The lines `update_manifest_file` writes: those of the line loop, then the appended ones. */
  lemma UpdateManifestParts(lines: seq<string>, specs: seq<PackageSpec>)
    requires UpdateLines(lines, PendingSpecs(specs)).Ok?
    requires FormatNew(UnusedSpecs(specs, UpdateLines(lines, PendingSpecs(specs)).value.pending)).Ok?
    ensures var p := UpdateLines(lines, PendingSpecs(specs)).value;
      UpdateManifest(lines, specs) == Ok(p.written + FormatNew(UnusedSpecs(specs, p.pending)).value)
  {
  }

  /**
   * After `update_manifest_file` with writable specs, on lines that
   * `read_manifest_file` accepts and whose entry lines carry no comment,
   * the lines written read back without error, and the specs they declare
   * are exactly the requested ones, the last of each key. This is a law of
   * the list of lines; `ManifestFileLaws` carries it to the file's text.
   */
  lemma UpdateReadsBack(lines: seq<string>, specs: seq<PackageSpec>)
    requires ReadEntries(lines, GetSpec).Ok?
    requires forall s :: s in specs ==> Writable(s)
    requires NoEntryComments(lines)
    ensures UpdateManifest(lines, specs).Ok?
    ensures var back := ReadEntries(UpdateManifest(lines, specs).value, GetSpec);
      back.Ok? && (set s | s in back.value) == PendingSpecs(specs).Values
  {
    var pending := PendingSpecs(specs);
    UpdateFailsOnlyOnMalformed(lines, specs);
    UpdateLinesFailsOnlyOnMalformed(lines, pending);
    UpdateLinesReadsBack(lines, pending);
    var p := UpdateLines(lines, pending).value;
    var us := UnusedSpecs(specs, p.pending);
    UnusedSpecsRequested(specs, p.pending);
    FormatNewReadsBack(us);
    UpdateManifestParts(lines, specs);
    ReadEntriesConcat(p.written, FormatNew(us).value, GetSpec);
    var vs := ReadEntries(p.written, GetSpec).value;
    DeliveredAll(specs, vs, p.pending);
  }

  /** No spec is requested twice. */
  predicate NoDuplicates(specs: seq<PackageSpec>) {
    forall i, j :: 0 <= i < j < |specs| ==> specs[i] != specs[j]
  }

  /** Filtering a list without duplicates keeps it without duplicates. */
  lemma {:induction false} UnusedNoDuplicates(specs: seq<PackageSpec>, rest: map<string, PackageSpec>)
    requires NoDuplicates(specs)
    ensures NoDuplicates(UnusedSpecs(specs, rest))
    decreases |specs|
  {
    if specs != [] {
      var tail := specs[1..];
      assert NoDuplicates(tail) by {
        forall i, j | 0 <= i < j < |tail| ensures tail[i] != tail[j] {
          assert tail[i] == specs[i + 1] && tail[j] == specs[j + 1];
        }
      }
      UnusedNoDuplicates(tail, rest);
      var ut := UnusedSpecs(tail, rest);
      UnusedSpecsRequested(tail, rest);
      assert specs[0] !in tail;
      var us := UnusedSpecs(specs, rest);
      if specs[0] in rest.Values {
        assert us == [specs[0]] + ut;
        forall i, j | 0 <= i < j < |us| ensures us[i] != us[j] {
          assert us[j] == ut[j - 1];
          if i > 0 {
            assert us[i] == ut[i - 1];
          }
        }
      } else {
        assert us == ut;
      }
    }
  }

  /**
   * The unused specs of a request without duplicates are keyed apart,
   * each being the spec still pending under its key.
   */
  lemma UnusedDistinctKeys(specs: seq<PackageSpec>, rest: map<string, PackageSpec>)
    requires NoDuplicates(specs) && KeyedByMangle(rest)
    ensures var us := UnusedSpecs(specs, rest);
      && DistinctKeys(us)
      && forall u :: u in us ==> MangleSpec(u) in rest && rest[MangleSpec(u)] == u
  {
    var us := UnusedSpecs(specs, rest);
    UnusedSpecsRequested(specs, rest);
    UnusedNoDuplicates(specs, rest);
    forall u | u in us ensures MangleSpec(u) in rest && rest[MangleSpec(u)] == u {
      var k :| k in rest && rest[k] == u;
    }
    forall i, j | 0 <= i < j < |us| ensures MangleSpec(us[i]) != MangleSpec(us[j]) {
      assert us[i] in us && us[j] in us;
    }
  }

  /** Two lists keyed apart, with no key in common, are keyed apart together. */
  lemma DistinctKeysConcat(a: seq<PackageSpec>, b: seq<PackageSpec>)
    requires DistinctKeys(a) && DistinctKeys(b)
    requires forall x, y :: x in a && y in b ==> MangleSpec(x) != MangleSpec(y)
    ensures DistinctKeys(a + b)
  {
    var ab := a + b;
    forall i, j | 0 <= i < j < |ab| ensures MangleSpec(ab[i]) != MangleSpec(ab[j]) {
      if j < |a| {
        assert ab[i] == a[i] && ab[j] == a[j];
      } else if i >= |a| {
        assert ab[i] == b[i - |a|] && ab[j] == b[j - |a|];
      } else {
        assert ab[i] in a && ab[j] in b;
      }
    }
  }

  /**
   * Under the conditions of `UpdateReadsBack`, and with no spec requested
   * twice, the lines written declare each key once, with its pending spec.
   */
  lemma UpdateWritesEachKeyOnce(lines: seq<string>, specs: seq<PackageSpec>)
    requires ReadEntries(lines, GetSpec).Ok?
    requires forall s :: s in specs ==> Writable(s)
    requires NoEntryComments(lines)
    requires NoDuplicates(specs)
    ensures UpdateManifest(lines, specs).Ok?
    ensures var back := ReadEntries(UpdateManifest(lines, specs).value, GetSpec);
      && back.Ok? && DistinctKeys(back.value)
      && forall s :: s in back.value ==> MangleSpec(s) in PendingSpecs(specs) && PendingSpecs(specs)[MangleSpec(s)] == s
  {
    var pending := PendingSpecs(specs);
    UpdateFailsOnlyOnMalformed(lines, specs);
    UpdateLinesFailsOnlyOnMalformed(lines, pending);
    UpdateLinesReadsBack(lines, pending);
    var p := UpdateLines(lines, pending).value;
    var us := UnusedSpecs(specs, p.pending);
    UnusedSpecsRequested(specs, p.pending);
    FormatNewReadsBack(us);
    UpdateManifestParts(lines, specs);
    ReadEntriesConcat(p.written, FormatNew(us).value, GetSpec);
    var vs := ReadEntries(p.written, GetSpec).value;
    assert ReadEntries(UpdateManifest(lines, specs).value, GetSpec) == Ok(vs + us);
    UnusedDistinctKeys(specs, p.pending);
    DistinctKeysConcat(vs, us);
  }

  /**
   * Under the conditions of `UpdateReadsBack`, and with no spec requested
   * twice, running the update again on the lines written, with the same
   * specs, writes the same lines.
   */
  lemma UpdateIsIdempotent(lines: seq<string>, specs: seq<PackageSpec>)
    requires ReadEntries(lines, GetSpec).Ok?
    requires forall s :: s in specs ==> Writable(s)
    requires NoEntryComments(lines)
    requires NoDuplicates(specs)
    ensures UpdateManifest(lines, specs).Ok?
    ensures UpdateManifest(UpdateManifest(lines, specs).value, specs) == UpdateManifest(lines, specs)
  {
    var pending := PendingSpecs(specs);
    UpdateReadsBack(lines, specs);
    UpdateWritesEachKeyOnce(lines, specs);
    var out := UpdateManifest(lines, specs).value;
    var back := ReadEntries(out, GetSpec).value;
    UpdateLinesKeepsOwnSpecs(out, back, pending);
    AllConsumed(specs, back);
    NothingUnused(specs);
    UpdateManifestParts(out, specs);
    assert out + [] == out;
  }

  /** When the specs read back are all the pending ones, every key is consumed. */
  lemma AllConsumed(specs: seq<PackageSpec>, back: seq<PackageSpec>)
    requires (set s | s in back) == PendingSpecs(specs).Values
    ensures PendingSpecs(specs) - Keys(back) == map[]
  {
    var pending := PendingSpecs(specs);
    forall k | k in pending ensures k in Keys(back) {
      assert pending[k] in pending.Values;
      assert pending[k] in back;
    }
  }

  // Behaviour of the code that a manifest editor might not expect.

  /** The entry line written for a spec, with no comment. */
  function SpecLine(spec: PackageSpec): string
    requires spec.ref.Some?
  {
    FormatSpec(spec, "") + "\n"
  }

  /** The line written for a writable spec is an entry line that reads back as the spec. */
  lemma SpecLineEntry(spec: PackageSpec)
    requires Writable(spec)
    ensures IsEntryLine(SpecLine(spec)) && GetSpec(EntryText(SpecLine(spec))) == Ok(spec)
  {
    FormattedEntryText(spec);
    GetSpecOfFormat(spec);
  }

  /**
   * An entry whose package is not among the requested specs is removed
   * from the manifest, not kept: updating a one-entry manifest with no
   * specs empties it.
   */
  lemma UpdateDropsUnrequested(spec: PackageSpec)
    requires Writable(spec)
    ensures UpdateManifest([SpecLine(spec)], []) == Ok([])
  {
    SpecLineEntry(spec);
    UpdateLineDropsUnpending(SpecLine(spec), spec, map[]);
    UpdateSingleLine(SpecLine(spec), [], map[], [], map[]);
  }

  /** A one-line manifest whose line leaves nothing pending is updated to that line's output. */
  lemma UpdateSingleLine(orig: string, specs: seq<PackageSpec>, pending: map<string, PackageSpec>, out: seq<string>, rest: map<string, PackageSpec>)
    requires PendingSpecs(specs) == pending
    requires UpdateLine(orig, pending) == Ok((out, rest))
    requires UnusedSpecs(specs, rest) == []
    ensures UpdateManifest([orig], specs) == Ok(out)
  {
    assert [orig][1..] == [];
    assert UpdateLines([], rest) == Ok(Progress([], rest));
    assert UpdateLines([orig], pending) == Emitted(out, UpdateLines([], rest));
    assert out + [] == out;
    assert UpdateLines([orig], pending) == Ok(Progress(out, rest));
    assert FormatNew([]) == Ok([]);
  }

  /** A two-line manifest whose lines leave nothing pending is updated to the two outputs. */
  lemma UpdateTwoLines(a: string, b: string, specs: seq<PackageSpec>, pending: map<string, PackageSpec>, outA: seq<string>, mid: map<string, PackageSpec>, outB: seq<string>, rest: map<string, PackageSpec>)
    requires PendingSpecs(specs) == pending
    requires UpdateLine(a, pending) == Ok((outA, mid))
    requires UpdateLine(b, mid) == Ok((outB, rest))
    requires UnusedSpecs(specs, rest) == []
    ensures UpdateManifest([a, b], specs) == Ok(outA + outB)
  {
    assert [a, b][1..] == [b] && [b][1..] == [];
    assert UpdateLines([], rest) == Ok(Progress([], rest));
    assert UpdateLines([b], mid) == Emitted(outB, UpdateLines([], rest));
    assert outB + [] == outB;
    assert UpdateLines([b], mid) == Ok(Progress(outB, rest));
    assert UpdateLines([a, b], pending) == Emitted(outA, UpdateLines([b], mid));
    assert UpdateLines([a, b], pending) == Ok(Progress(outA + outB, rest));
    assert FormatNew([]) == Ok([]);
    assert outA + outB + [] == outA + outB;
  }

  /** An entry line whose key is not pending is dropped. */
  lemma UpdateLineDropsUnpending(orig: string, spec: PackageSpec, pending: map<string, PackageSpec>)
    requires IsEntryLine(orig) && GetSpec(EntryText(orig)) == Ok(spec)
    requires MangleSpec(spec) !in pending
    ensures UpdateLine(orig, pending) == Ok(([], pending))
  {
  }

  /** Requesting a spec twice makes it the one pending spec. */
  lemma PendingTwice(spec: PackageSpec)
    ensures PendingSpecs([spec, spec]) == map[MangleSpec(spec) := spec]
  {
    assert [spec, spec][..1] == [spec];
    assert [spec][..0] == [];
  }

  /**
   * A spec requested twice is appended twice, and a second update with the
   * same request then drops one of the copies, so the update is not
   * idempotent without `NoDuplicates`.
   */
  lemma UpdateRepeatsDuplicate(spec: PackageSpec)
    requires Writable(spec)
    ensures UpdateManifest([], [spec, spec]) == Ok([SpecLine(spec), SpecLine(spec)])
    ensures UpdateManifest([SpecLine(spec), SpecLine(spec)], [spec, spec]) == Ok([SpecLine(spec)])
  {
    AppendTwice(spec);
    SecondRunDropsCopy(spec);
  }

  lemma AppendTwice(spec: PackageSpec)
    requires Writable(spec)
    ensures UpdateManifest([], [spec, spec]) == Ok([SpecLine(spec), SpecLine(spec)])
  {
    var pending := PendingSpecs([spec, spec]);
    PendingTwice(spec);
    assert pending[MangleSpec(spec)] == spec;
    assert spec in pending.Values;
    UnusedSpecsAllPending([spec, spec], pending);
    FormatNewReadsBack([spec, spec]);
    assert FormatNew([spec, spec]).value == [SpecLine(spec), SpecLine(spec)];
    assert [] + [SpecLine(spec), SpecLine(spec)] == [SpecLine(spec), SpecLine(spec)];
  }

  lemma SecondRunDropsCopy(spec: PackageSpec)
    requires Writable(spec)
    ensures UpdateManifest([SpecLine(spec), SpecLine(spec)], [spec, spec]) == Ok([SpecLine(spec)])
  {
    SpecLineEntry(spec);
    SecondRunSteps(SpecLine(spec), spec);
    PendingTwice(spec);
    NothingUnused([spec, spec]);
    KeepFirstDropSecond(SpecLine(spec), [spec, spec], map[MangleSpec(spec) := spec]);
  }

  /** The first copy of the line of `spec` is kept and consumes its key; the second is then dropped. */
  lemma SecondRunSteps(line: string, spec: PackageSpec)
    requires IsEntryLine(line) && GetSpec(EntryText(line)) == Ok(spec)
    ensures UpdateLine(line, map[MangleSpec(spec) := spec]) == Ok(([line], map[]))
    ensures UpdateLine(line, map[]) == Ok(([], map[]))
  {
    var key := MangleSpec(spec);
    var pending := map[key := spec];
    UpdateLineKeepsOwnSpec(line, spec, pending);
    assert pending - {key} == map[];
    UpdateLineDropsUnpending(line, spec, map[]);
  }

  /** A line kept once and then dropped leaves a two-line manifest with one copy. */
  lemma KeepFirstDropSecond(line: string, specs: seq<PackageSpec>, pending: map<string, PackageSpec>)
    requires PendingSpecs(specs) == pending
    requires UpdateLine(line, pending) == Ok(([line], map[])) && UpdateLine(line, map[]) == Ok(([], map[]))
    requires UnusedSpecs(specs, map[]) == []
    ensures UpdateManifest([line, line], specs) == Ok([line])
  {
    UpdateTwoLines(line, line, specs, pending, [line], map[], [], map[]);
    assert [line] + [] == [line];
  }

  /** An entry line whose spec differs from the pending one is rewritten with the pending spec and its own comment. */
  lemma UpdateLineRewrites(orig: string, spec: PackageSpec, pending: map<string, PackageSpec>)
    requires IsEntryLine(orig) && GetSpec(EntryText(orig)) == Ok(spec)
    requires MangleSpec(spec) in pending && pending[MangleSpec(spec)] != spec && pending[MangleSpec(spec)].ref.Some?
    ensures UpdateLine(orig, pending) ==
      Ok(([FormatSpec(pending[MangleSpec(spec)], LineComment(orig)) + "\n"], pending - {MangleSpec(spec)}))
  {
  }

  /** A comment that survives the cut at '#' and the final `rstrip` unchanged. */
  predicate PlainComment(comment: string) {
    comment != "" && '#' !in comment && !IsSpace(comment[|comment| - 1])
  }

  /** The line of a spec followed by ` #comment`. */
  function CommentedLine(spec: PackageSpec, comment: string): string
    requires spec.ref.Some?
  {
    FormatSpec(spec, "") + " #" + comment + "\n"
  }

  /** The entry text of a commented line is the spec's text, and its comment is the comment. */
  lemma CommentedLineParts(spec: PackageSpec, comment: string)
    requires Writable(spec) && PlainComment(comment)
    ensures EntryText(CommentedLine(spec, comment)) == FormatSpec(spec, "")
    ensures LineComment(CommentedLine(spec, comment)) == comment
  {
    var text := FormatSpec(spec, "");
    assert text == MangleSpec(spec) + " " + spec.ref.value;
    CommentedTextParts(text, comment);
  }

  lemma CommentedTextParts(text: string, comment: string)
    requires text != [] && '#' !in text && !IsSpace(text[|text| - 1]) && PlainComment(comment)
    ensures EntryText(text + " #" + comment + "\n") == text
    ensures LineComment(text + " #" + comment + "\n") == comment
  {
    var orig := text + " #" + comment + "\n";
    assert orig == (text + " ") + ['#'] + (comment + "\n");
    IndexOfAfter(text + " ", '#', comment + "\n");
    assert orig[..|text| + 1] == text + [' '];
    assert orig[|text| + 2..] == comment + "\n";
    EntryTextMeaning(orig);
    assert IsSpace(' ');
    RStripOne(text, ' ');
    LineCommentMeaning(orig);
    RStripLineBreak(comment);
  }

  /** A spec written with a comment but without '#' is a malformed line. */
  lemma RewrittenLineMalformed(spec: PackageSpec, comment: string)
    requires Writable(spec) && PlainComment(comment)
    ensures ReadEntries([FormatSpec(spec, comment) + "\n"], GetSpec) == Err(MalformedLine(FormatSpec(spec, comment)))
  {
    var key, ref := MangleSpec(spec), spec.ref.value;
    var w := FormatSpec(spec, comment);
    assert w == key + " " + (ref + " " + comment);
    assert '#' !in w;
    assert w[|w| - 1] == comment[|comment| - 1];
    assert multiset(w)[' '] >= 2;
    PlainLineMalformed(w);
  }

  /** A line without '#' and trailing whitespace, holding two spaces, is a malformed entry. */
  lemma PlainLineMalformed(w: string)
    requires w != [] && '#' !in w && !IsSpace(w[|w| - 1]) && multiset(w)[' '] >= 2
    ensures ReadEntries([w + "\n"], GetSpec) == Err(MalformedLine(w))
  {
    assert '#' !in w + "\n";
    EntryTextMeaning(w + "\n");
    RStripLineBreak(w);
    ReadEntriesSingle(w + "\n", GetSpec);
  }

  /**
   * A commented entry line whose spec changes is rewritten with its
   * comment but without the '#', so the manifest written no longer reads:
   * `get_spec` finds three tokens on that line. This is why
   * `UpdateReadsBack` and `UpdateIsIdempotent` require `NoEntryComments`.
   */
  lemma UpdateDropsCommentMarker(oldSpec: PackageSpec, newSpec: PackageSpec, comment: string)
    requires Writable(oldSpec) && Writable(newSpec) && PlainComment(comment)
    requires MangleSpec(oldSpec) == MangleSpec(newSpec) && oldSpec != newSpec
    ensures UpdateManifest([CommentedLine(oldSpec, comment)], [newSpec]) == Ok([FormatSpec(newSpec, comment) + "\n"])
    ensures ReadEntries([FormatSpec(newSpec, comment) + "\n"], GetSpec) == Err(MalformedLine(FormatSpec(newSpec, comment)))
  {
    var key := MangleSpec(newSpec);
    var orig := CommentedLine(oldSpec, comment);
    var w := FormatSpec(newSpec, comment) + "\n";
    CommentedLineRewritten(oldSpec, newSpec, comment);
    assert PendingSpecs([newSpec]) == map[key := newSpec] by {
      assert [newSpec][..0] == [];
    }
    NothingUnused([newSpec]);
    UpdateSingleLine(orig, [newSpec], map[key := newSpec], [w], map[]);
    RewrittenLineMalformed(newSpec, comment);
  }

  /** The commented line of the old spec is rewritten with the new spec and the comment, consuming the key. */
  lemma CommentedLineRewritten(oldSpec: PackageSpec, newSpec: PackageSpec, comment: string)
    requires Writable(oldSpec) && Writable(newSpec) && PlainComment(comment)
    requires MangleSpec(oldSpec) == MangleSpec(newSpec) && oldSpec != newSpec
    ensures UpdateLine(CommentedLine(oldSpec, comment), map[MangleSpec(newSpec) := newSpec]) == Ok(([FormatSpec(newSpec, comment) + "\n"], map[]))
  {
    var orig := CommentedLine(oldSpec, comment);
    CommentedLineParts(oldSpec, comment);
    FormattedEntryLine(orig, oldSpec);
    SingletonMap(MangleSpec(newSpec), newSpec);
    RewriteKeepingComment(orig, oldSpec, newSpec, comment, map[MangleSpec(newSpec) := newSpec]);
  }

  /** An entry line of `oldSpec` with comment `comment` is rewritten with `newSpec`, the only pending spec, under the same key. */
  lemma RewriteKeepingComment(orig: string, oldSpec: PackageSpec, newSpec: PackageSpec, comment: string, pending: map<string, PackageSpec>)
    requires IsEntryLine(orig) && GetSpec(EntryText(orig)) == Ok(oldSpec) && LineComment(orig) == comment
    requires MangleSpec(oldSpec) == MangleSpec(newSpec) && oldSpec != newSpec && newSpec.ref.Some?
    requires pending.Keys == {MangleSpec(newSpec)} && pending[MangleSpec(newSpec)] == newSpec
    ensures UpdateLine(orig, pending) == Ok(([FormatSpec(newSpec, comment) + "\n"], map[]))
  {
    RewriteSingleKey(orig, oldSpec, pending);
  }

  /** The keys and the value of a one-entry map. */
  lemma SingletonMap<K, V>(k: K, v: V)
    ensures map[k := v].Keys == {k} && map[k := v][k] == v
  {
  }

  /** A line holding the text of `oldSpec` is an entry line that `get_spec` reads back as `oldSpec`. */
  lemma FormattedEntryLine(orig: string, oldSpec: PackageSpec)
    requires Writable(oldSpec) && EntryText(orig) == FormatSpec(oldSpec, "")
    ensures IsEntryLine(orig) && GetSpec(EntryText(orig)) == Ok(oldSpec)
  {
    GetSpecOfFormat(oldSpec);
  }

  /** With the line's key as the only pending key, and a different spec for it, the line is rewritten and nothing stays pending. */
  lemma RewriteSingleKey(orig: string, oldSpec: PackageSpec, pending: map<string, PackageSpec>)
    requires IsEntryLine(orig) && GetSpec(EntryText(orig)) == Ok(oldSpec)
    requires pending.Keys == {MangleSpec(oldSpec)} && pending[MangleSpec(oldSpec)] != oldSpec && pending[MangleSpec(oldSpec)].ref.Some?
    ensures UpdateLine(orig, pending) == Ok(([FormatSpec(pending[MangleSpec(oldSpec)], LineComment(orig)) + "\n"], map[]))
  {
    var key := MangleSpec(oldSpec);
    UpdateLineRewrites(orig, oldSpec, pending);
    assert pending - {key} == map[];
  }

  /**
   * `out` is `lines` edited entry by entry: every blank or comment-only
   * line is kept, in order, and every entry line is dropped or replaced by
   * exactly one line at its place.
   */
  ghost predicate Edited(lines: seq<string>, out: seq<string>)
    decreases |lines|
  {
    if lines == [] then out == []
    else if !IsEntryLine(lines[0]) then out != [] && out[0] == lines[0] && Edited(lines[1..], out[1..])
    else Edited(lines[1..], out) || (out != [] && Edited(lines[1..], out[1..]))
  }

  /** The line loop edits the file entry by entry, keeping blank and comment-only lines in place. */
  lemma {:induction false} UpdateLinesEdits(lines: seq<string>, pending: map<string, PackageSpec>)
    requires UpdateLines(lines, pending).Ok?
    ensures Edited(lines, UpdateLines(lines, pending).value.written)
    decreases |lines|
  {
    if lines != [] {
      var out, mid := UpdateLine(lines[0], pending).value.0, UpdateLine(lines[0], pending).value.1;
      UpdateLinesEdits(lines[1..], mid);
      var written := UpdateLines(lines[1..], mid).value.written;
      assert UpdateLines(lines, pending).value.written == out + written;
      if out == [] {
        assert [] + written == written;
      } else {
        assert (out + written)[0] == out[0] && (out + written)[1..] == written;
      }
    }
  }

  /**
   * `update_manifest_file` edits the file entry by entry, keeping blank
   * and comment-only lines in place, then appends the lines of the unused
   * specs.
   */
  lemma UpdateKeepsNonEntryLines(lines: seq<string>, specs: seq<PackageSpec>)
    requires UpdateManifest(lines, specs).Ok?
    ensures exists n :: (0 <= n <= |UpdateManifest(lines, specs).value|
      && Edited(lines, UpdateManifest(lines, specs).value[..n])
      && UpdateManifest(lines, specs).value[n..] == FormatNew(UnusedSpecs(specs, UpdateLines(lines, PendingSpecs(specs)).value.pending)).value)
  {
    var p := UpdateLines(lines, PendingSpecs(specs)).value;
    UpdateLinesEdits(lines, PendingSpecs(specs));
    UpdateManifestParts(lines, specs);
    var out := UpdateManifest(lines, specs).value;
    var n := |p.written|;
    assert out[..n] == p.written;
  }
}
