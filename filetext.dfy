/**
 * The text of a file as `file.readlines()` reads it and as
 * `file.writelines(lines)` writes it. `readlines` cuts the text after each
 * line break, so every line but the last ends in "\n"; `writelines` writes
 * the lines one after the other and adds no line break of its own.
 */
module FileText {
  import opened PyText

  /** A line as `readlines` returns it: not empty, and at most one line break, at its end. */
  predicate LineText(line: string) {
    line != [] && '\n' !in line[..|line| - 1]
  }

  /** A line that ends in its line break and holds no other. */
  predicate CompleteLine(line: string) {
    LineText(line) && line[|line| - 1] == '\n'
  }

  /** The text is empty or ends in a line break. */
  predicate EndsInLineBreak(s: string) {
    s == [] || s[|s| - 1] == '\n'
  }

  /** `file.readlines()` of a file holding `s`. */
  function ReadLines(s: string): seq<string>
    decreases |s|
  {
    if s == [] then []
    else if '\n' in s then
      var i := IndexOf(s, '\n');
      [s[..i + 1]] + ReadLines(s[i + 1..])
    else [s]
  }

  /** The text `file.writelines(lines)` writes. */
  function WriteLines(lines: seq<string>): string
    decreases |lines|
  {
    if lines == [] then [] else lines[0] + WriteLines(lines[1..])
  }

  /** Writing the lines read from a text gives back the text. */
  lemma {:induction false} WriteReadLines(s: string)
    ensures WriteLines(ReadLines(s)) == s
    decreases |s|
  {
    if s != [] && '\n' in s {
      var i := IndexOf(s, '\n');
      var tail := ReadLines(s[i + 1..]);
      WriteReadLines(s[i + 1..]);
      assert ([s[..i + 1]] + tail)[1..] == tail;
      assert s[..i + 1] + s[i + 1..] == s;
    }
  }

  /**
   * Every line read is a line of text; every one but the last is complete,
   * and the last is complete too when the text ends in a line break.
   */
  lemma {:induction false} ReadLinesShape(s: string)
    ensures forall k :: 0 <= k < |ReadLines(s)| ==> LineText(ReadLines(s)[k])
    ensures forall k :: 0 <= k < |ReadLines(s)| - 1 ==> CompleteLine(ReadLines(s)[k])
    ensures EndsInLineBreak(s) ==> forall k :: 0 <= k < |ReadLines(s)| ==> CompleteLine(ReadLines(s)[k])
    decreases |s|
  {
    if s != [] && '\n' in s {
      var i := IndexOf(s, '\n');
      var head, rest := s[..i + 1], s[i + 1..];
      ReadLinesShape(rest);
      assert head[..i] == s[..i];
      assert CompleteLine(head);
      var tail := ReadLines(rest);
      var ls := [head] + tail;
      assert ReadLines(s) == ls && ls[0] == head;
      assert rest != [] ==> tail != [];
      forall k | 1 <= k < |ls|
        ensures LineText(ls[k]) && (k < |ls| - 1 ==> CompleteLine(ls[k]))
        ensures EndsInLineBreak(s) ==> CompleteLine(ls[k])
      {
        assert ls[k] == tail[k - 1] && 0 <= k - 1 < |tail|;
        assert LineText(tail[k - 1]);
        assert rest[|rest| - 1] == s[|s| - 1];
      }
    }
  }

  /** Lines that all end in their only line break are read back as written. */
  lemma {:induction false} ReadWriteLines(ls: seq<string>)
    requires forall k :: 0 <= k < |ls| ==> CompleteLine(ls[k])
    ensures ReadLines(WriteLines(ls)) == ls
    decreases |ls|
  {
    if ls != [] {
      var line := ls[0];
      var body := line[..|line| - 1];
      var rest := WriteLines(ls[1..]);
      assert forall k :: 0 <= k < |ls[1..]| ==> ls[1..][k] == ls[k + 1];
      ReadWriteLines(ls[1..]);
      assert line == body + ['\n'];
      assert WriteLines(ls) == body + ['\n'] + rest;
      IndexOfAfter(body, '\n', rest);
      var s := body + ['\n'] + rest;
      assert s[..|body| + 1] == line && s[|body| + 1..] == rest;
    }
  }

  /** A line without a line break followed by a complete line is read as one line. */
  lemma MergedLine(a: string, b: string)
    requires a != [] && '\n' !in a && CompleteLine(b)
    ensures ReadLines(a + b) == [a + b]
  {
    var body := b[..|b| - 1];
    assert b == body + ['\n'];
    assert a + b == (a + body) + ['\n'] + [];
    IndexOfAfter(a + body, '\n', []);
    assert (a + b)[..|a + body| + 1] == a + b;
    assert (a + b)[|a + body| + 1..] == [];
  }
}
