/**
 * The few Python built-ins the repository's string handling relies on,
 * stated over Dafny strings (sequences of characters):
 * `str.isspace`, `str.rstrip()`, `str.strip()`, `str.split(sep)` and
 * `sep.join(parts)` for a one-character separator, `int(s)` for a decimal
 * string, and the format specification `{:02}` for an integer.
 */
module PyText {
  import opened Wrappers

  /** The characters for which Python's `str.isspace()` holds. */
  const Whitespace: set<char> := {
    ' ', '\t', '\n', '\r', '\U{0b}', '\U{0c}', '\U{1c}', '\U{1d}', '\U{1e}', '\U{1f}',
    '\U{85}', '\U{a0}', '\U{1680}', '\U{2000}', '\U{2001}', '\U{2002}', '\U{2003}',
    '\U{2004}', '\U{2005}', '\U{2006}', '\U{2007}', '\U{2008}', '\U{2009}', '\U{200a}',
    '\U{2028}', '\U{2029}', '\U{202f}', '\U{205f}', '\U{3000}'
  }

  /** `c.isspace()`. */
  predicate IsSpace(c: char) {
    c in Whitespace
  }

  /** `s.rstrip()`: the longest prefix of `s` that does not end in whitespace. */
  function RStrip(s: string): (r: string)
    ensures |r| <= |s| && r == s[..|r|]
    ensures r == "" || !IsSpace(r[|r| - 1])
    ensures forall i :: |r| <= i < |s| ==> IsSpace(s[i])
    decreases |s|
  {
    if |s| > 0 && IsSpace(s[|s| - 1]) then RStrip(s[..|s| - 1]) else s
  }

  /** `s.lstrip()`: the longest suffix of `s` that does not start with whitespace. */
  function LStrip(s: string): (r: string)
    ensures |r| <= |s| && r == s[|s| - |r|..]
    ensures r == "" || !IsSpace(r[0])
    ensures forall i :: 0 <= i < |s| - |r| ==> IsSpace(s[i])
    decreases |s|
  {
    if |s| > 0 && IsSpace(s[0]) then LStrip(s[1..]) else s
  }

  /** `s.strip()`: whitespace is removed from both ends, one character at a time. */
  function Strip(s: string): string
    decreases |s|
  {
    if |s| > 0 && IsSpace(s[0]) then Strip(s[1..])
    else if |s| > 0 && IsSpace(s[|s| - 1]) then Strip(s[..|s| - 1])
    else s
  }

  /** `rstrip()` after dropping the first character drops the first character of `rstrip()`. */
  lemma {:induction false} RStripDropFirst(s: string)
    requires |s| > 0
    ensures RStrip(s) == "" ==> RStrip(s[1..]) == ""
    ensures RStrip(s) != "" ==> RStrip(s[1..]) == RStrip(s)[1..]
    decreases |s|
  {
    if IsSpace(s[|s| - 1]) {
      if |s| > 1 {
        RStripDropFirst(s[..|s| - 1]);
        assert s[..|s| - 1][1..] == s[1..][..|s[1..]| - 1];
      }
    }
  }

  /** `s.strip()` is `s.rstrip().lstrip()`. */
  lemma {:induction false} StripMeaning(s: string)
    ensures Strip(s) == LStrip(RStrip(s))
    decreases |s|
  {
    if |s| > 0 && IsSpace(s[0]) {
      StripMeaning(s[1..]);
      RStripDropFirst(s);
    } else if |s| > 0 && IsSpace(s[|s| - 1]) {
      StripMeaning(s[..|s| - 1]);
    }
  }

  /** `s.strip()` keeps only characters of `s`. */
  lemma {:induction false} StripKeepsChars(s: string)
    ensures forall c :: c in Strip(s) ==> c in s
    decreases |s|
  {
    if |s| > 0 && IsSpace(s[0]) {
      StripKeepsChars(s[1..]);
    } else if |s| > 0 && IsSpace(s[|s| - 1]) {
      StripKeepsChars(s[..|s| - 1]);
    }
  }

  /** The index of the first occurrence of `c` in `s` (`s.index(c)`). */
  function IndexOf(s: string, c: char): (i: nat)
    requires c in s
    ensures i < |s| && s[i] == c && c !in s[..i]
  {
    if s[0] == c then 0 else 1 + IndexOf(s[1..], c)
  }

  /**
   * `s.split(c)`: the pieces of `s` between occurrences of `c`, in order;
   * there is always at least one piece, and no piece contains `c`.
   */
  function Split(s: string, c: char): (parts: seq<string>)
    ensures |parts| >= 1
    ensures forall k :: 0 <= k < |parts| ==> c !in parts[k]
    decreases |s|
  {
    if c in s then
      var i := IndexOf(s, c);
      [s[..i]] + Split(s[i + 1..], c)
    else
      [s]
  }

  /** `c.join(parts)` for a one-character separator `c`. */
  function Join(c: char, parts: seq<string>): string
    decreases |parts|
  {
    if |parts| == 0 then ""
    else if |parts| == 1 then parts[0]
    else parts[0] + [c] + Join(c, parts[1..])
  }

  /** Joining two pieces puts one separator between them. */
  lemma JoinTwo(c: char, a: string, b: string)
    ensures Join(c, [a, b]) == a + [c] + b
  {
    assert [a, b][1..] == [b];
  }

  /** Joining three pieces puts one separator between each two. */
  lemma JoinThree(c: char, a: string, b: string, d: string)
    ensures Join(c, [a, b, d]) == a + [c] + b + [c] + d
  {
    assert [a, b, d][1..] == [b, d];
    JoinTwo(c, b, d);
  }

  /** Joining the pieces of a split gives back the string. */
  lemma {:induction false} JoinSplit(s: string, c: char)
    ensures Join(c, Split(s, c)) == s
    decreases |s|
  {
    if c in s {
      var i := IndexOf(s, c);
      var rest := Split(s[i + 1..], c);
      JoinSplit(s[i + 1..], c);
      assert Split(s, c) == [s[..i]] + rest;
      assert |rest| >= 1;
      assert Join(c, [s[..i]] + rest) == s[..i] + [c] + Join(c, rest) by {
        assert ([s[..i]] + rest)[1..] == rest;
      }
      assert s == s[..i] + [c] + s[i + 1..];
    }
  }

  /** Splitting a join gives back the pieces, when no piece contains the separator. */
  lemma {:induction false} SplitJoin(parts: seq<string>, c: char)
    requires |parts| >= 1
    requires forall k :: 0 <= k < |parts| ==> c !in parts[k]
    ensures Split(Join(c, parts), c) == parts
    decreases |parts|
  {
    if |parts| > 1 {
      var s := Join(c, parts);
      var rest := Join(c, parts[1..]);
      assert s == parts[0] + [c] + rest;
      assert s[|parts[0]|] == c;
      assert s[..|parts[0]|] == parts[0];
      assert IndexOf(s, c) == |parts[0]|;
      assert s[|parts[0]| + 1..] == rest;
      SplitJoin(parts[1..], c);
    }
  }

  /** `s.split(c)` has one piece more than `s` has occurrences of `c`. */
  lemma {:induction false} SplitCount(s: string, c: char)
    ensures |Split(s, c)| == multiset(s)[c] + 1
    decreases |s|
  {
    if c in s {
      var i := IndexOf(s, c);
      SplitCount(s[i + 1..], c);
      assert s == s[..i] + [c] + s[i + 1..];
      assert multiset(s) == multiset(s[..i]) + multiset{c} + multiset(s[i + 1..]);
    } else {
      assert multiset(s)[c] == 0;
    }
  }

  /**
   * `c.join(s.split(c)[1:])` is the text after the first `c`: re-joining
   * every piece but the first keeps the later separators.
   */
  lemma JoinRest(s: string, c: char)
    requires c in s
    ensures Join(c, Split(s, c)[1..]) == s[IndexOf(s, c) + 1..]
  {
    var i := IndexOf(s, c);
    var rest := Split(s[i + 1..], c);
    assert Split(s, c) == [s[..i]] + rest;
    assert ([s[..i]] + rest)[1..] == rest;
    JoinSplit(s[i + 1..], c);
  }

  /**
   * Cutting at the first `c`: the first piece is the text before it, the
   * other pieces re-joined are the text after it.
   */
  lemma SplitAtFirst(s: string, c: char)
    requires c in s
    ensures var i, parts := IndexOf(s, c), Split(s, c);
      && parts[0] == s[..i]
      && Join(c, parts[1..]) == s[i + 1..]
      && s == s[..i] + [c] + s[i + 1..]
  {
    SplitFirstPiece(s, c);
    JoinRest(s, c);
    CutAtFirst(s, c);
  }

  lemma SplitFirstPiece(s: string, c: char)
    requires c in s
    ensures Split(s, c)[0] == s[..IndexOf(s, c)]
  {
    var i := IndexOf(s, c);
    assert Split(s, c) == [s[..i]] + Split(s[i + 1..], c);
  }

  lemma CutAtFirst(s: string, c: char)
    requires c in s
    ensures s == s[..IndexOf(s, c)] + [c] + s[IndexOf(s, c) + 1..]
  {
    CutAt(s, IndexOf(s, c));
  }

  lemma CutAt(s: string, i: int)
    requires 0 <= i < |s|
    ensures s == s[..i] + [s[i]] + s[i + 1..]
  {
    assert s[..i] + [s[i]] == s[..i + 1];
    assert s[..i + 1] + s[i + 1..] == s;
  }

  /** The first `c` of `a + [c] + b` is the one after `a`, when `a` holds none. */
  lemma IndexOfAfter(a: string, c: char, b: string)
    requires c !in a
    ensures c in a + [c] + b && IndexOf(a + [c] + b, c) == |a|
    decreases |a|
  {
    if a != [] {
      assert (a + [c] + b)[1..] == a[1..] + [c] + b;
      IndexOfAfter(a[1..], c, b);
    }
  }

  /** Splitting text that starts with a piece free of `c`, then `c`. */
  lemma SplitAfter(a: string, c: char, b: string)
    requires c !in a
    ensures Split(a + [c] + b, c) == [a] + Split(b, c)
  {
    var s := a + [c] + b;
    IndexOfAfter(a, c, b);
    assert s[..|a|] == a && s[|a| + 1..] == b;
  }

  /** Three pieces free of `c`, written with `c` between them, split back into those pieces. */
  lemma SplitThree(x: string, y: string, z: string, c: char)
    requires c !in x && c !in y && c !in z
    ensures Split(x + [c] + y + [c] + z, c) == [x, y, z]
  {
    assert x + [c] + y + [c] + z == x + [c] + (y + [c] + z);
    SplitAfter(y, c, z);
    SplitAfter(x, c, y + [c] + z);
  }

  /** Three pieces free of `c` and then more text, all separated by `c`: the more text splits on its own. */
  lemma SplitThreeThen(x: string, y: string, z: string, c: char, rest: string)
    requires c !in x && c !in y && c !in z
    ensures Split(x + [c] + (y + [c] + (z + [c] + rest)), c) == [x] + ([y] + ([z] + Split(rest, c)))
  {
    SplitAfter(z, c, rest);
    SplitAfter(y, c, z + [c] + rest);
    SplitAfter(x, c, y + [c] + (z + [c] + rest));
  }

  /** A join is at least as long as its first piece plus one separator per further piece. */
  lemma {:induction false} JoinLength(c: char, parts: seq<string>)
    requires |parts| >= 1
    ensures |Join(c, parts)| >= |parts[0]| + |parts| - 1
    decreases |parts|
  {
    if |parts| > 1 {
      JoinLength(c, parts[1..]);
    }
  }

  /** Dropping one trailing whitespace character from text that ends in something else. */
  lemma RStripOne(s: string, c: char)
    requires s != [] && !IsSpace(s[|s| - 1]) && IsSpace(c)
    ensures RStrip(s + [c]) == s
  {
    var r := RStrip(s + [c]);
    assert (s + [c])[|s|] == c;
  }

  /** Dropping a line break from a line that ends in something other than whitespace. */
  lemma RStripLineBreak(s: string)
    requires s != [] && !IsSpace(s[|s| - 1])
    ensures RStrip(s + "\n") == s
  {
    assert IsSpace('\n');
    RStripOne(s, '\n');
  }

  // ---------------------------------------------------------------------
  // Decimal numbers: int(s) and "{:02}".format(n)

  predicate IsDigit(c: char) {
    '0' <= c <= '9'
  }

  function DigitValue(c: char): (v: nat)
    requires IsDigit(c)
    ensures v < 10
  {
    (c as int - '0' as int) as nat
  }

  function DigitChar(d: nat): (c: char)
    requires d < 10
    ensures IsDigit(c) && DigitValue(c) == d
  {
    ('0' as int + d) as char
  }

  predicate AllDigits(s: string) {
    forall i :: 0 <= i < |s| ==> IsDigit(s[i])
  }

  /** The number a string of decimal digits denotes (leading zeros allowed). */
  function DigitsValue(s: string): nat
    requires AllDigits(s)
    decreases |s|
  {
    if s == [] then 0 else DigitsValue(s[..|s| - 1]) * 10 + DigitValue(s[|s| - 1])
  }

  /** `str(n)` for a natural number: its decimal digits, no leading zero. */
  function DecimalString(n: nat): (s: string)
    ensures |s| >= 1 && AllDigits(s)
    ensures n >= 10 ==> s[0] != '0'
    decreases n
  {
    if n < 10 then [DigitChar(n)] else DecimalString(n / 10) + [DigitChar(n % 10)]
  }

  /**
   * The body of a Python integer literal as `int()` accepts it: digits,
   * with single underscores allowed between two digits.
   */
  predicate DigitGroups(s: string) {
    && |s| > 0
    && IsDigit(s[0])
    && IsDigit(s[|s| - 1])
    && (forall i :: 0 <= i < |s| ==> IsDigit(s[i]) || s[i] == '_')
    && NoDoubleUnderscore(s)
  }

  /** No two underscores stand next to each other. */
  predicate NoDoubleUnderscore(s: string)
    decreases |s|
  {
    |s| < 2 || (!(s[0] == '_' && s[1] == '_') && NoDoubleUnderscore(s[1..]))
  }

  /** Digits alone hold no underscore at all. */
  lemma {:induction false} DigitsNoDoubleUnderscore(s: string)
    requires AllDigits(s)
    ensures NoDoubleUnderscore(s)
    decreases |s|
  {
    if |s| >= 2 {
      assert AllDigits(s[1..]) by {
        forall i | 0 <= i < |s[1..]| ensures IsDigit(s[1..][i]) {
          assert s[1..][i] == s[i + 1];
        }
      }
      DigitsNoDoubleUnderscore(s[1..]);
    }
  }

  /** The digits of `s` with every underscore removed. */
  function WithoutUnderscores(s: string): (r: string)
    requires forall i :: 0 <= i < |s| ==> IsDigit(s[i]) || s[i] == '_'
    ensures AllDigits(r)
    ensures AllDigits(s) ==> r == s
    decreases |s|
  {
    if s == [] then ""
    else if s[|s| - 1] == '_' then WithoutUnderscores(s[..|s| - 1])
    else WithoutUnderscores(s[..|s| - 1]) + [s[|s| - 1]]
  }

  /**
   * `int(s)` for base 10: surrounding whitespace is stripped, one optional
   * sign, then digit groups; anything else raises, modelled as `None`.
   */
  function ParseInt(s: string): Option<int> {
    var t := Strip(s);
    var negative := |t| > 0 && t[0] == '-';
    var body := if |t| > 0 && (t[0] == '-' || t[0] == '+') then t[1..] else t;
    if DigitGroups(body) then
      var v: int := DigitsValue(WithoutUnderscores(body));
      Some(if negative then -v else v)
    else
      None
  }

  /** A string without '-' never denotes a negative number. */
  lemma ParseIntNonNegative(s: string)
    requires ParseInt(s).Some? && '-' !in s
    ensures ParseInt(s).value >= 0
  {
    StripKeepsChars(s);
  }

  /** `int("")` raises. */
  lemma ParseIntEmpty()
    ensures ParseInt("").None?
  {
    assert Strip("") == "";
  }

  /** `"{:02}".format(n)`: the decimal form of `n`, zero-padded to two characters. */
  function Format02(n: int): string {
    if n < 0 then "-" + DecimalString(-n)
    else if n < 10 then "0" + DecimalString(n)
    else DecimalString(n)
  }

  lemma {:induction false} DigitsValueOfDecimal(n: nat)
    ensures DigitsValue(DecimalString(n)) == n
    decreases n
  {
    if n >= 10 {
      DigitsValueOfDecimal(n / 10);
      var s := DecimalString(n);
      assert s[..|s| - 1] == DecimalString(n / 10);
    }
  }

  /** A leading zero does not change the value of a digit string. */
  lemma {:induction false} DigitsValueLeadingZero(s: string)
    requires AllDigits(s)
    ensures AllDigits("0" + s) && DigitsValue("0" + s) == DigitsValue(s)
    decreases |s|
  {
    if s != [] {
      var z := "0" + s;
      assert z[..|z| - 1] == "0" + s[..|s| - 1];
      DigitsValueLeadingZero(s[..|s| - 1]);
    }
  }

  /** A string without whitespace is its own `strip()`. */
  lemma StripNoSpace(s: string)
    requires forall i :: 0 <= i < |s| ==> !IsSpace(s[i])
    ensures Strip(s) == s
  {
    assert RStrip(s) == s;
  }

  /** `int(s)` of a non-empty string of digits is the number the digits denote. */
  lemma ParseIntDigits(s: string)
    requires |s| > 0 && AllDigits(s)
    ensures ParseInt(s) == Some(DigitsValue(s) as int)
  {
    assert forall i :: 0 <= i < |s| ==> !IsSpace(s[i]) by {
      forall i | 0 <= i < |s| ensures !IsSpace(s[i]) {
        assert IsDigit(s[i]);
      }
    }
    StripNoSpace(s);
    DigitsNoDoubleUnderscore(s);
    assert DigitGroups(s);
  }

  /** For a natural number, `"{:02}".format(n)` is all digits, at least two of them, and so holds no '-'. */
  lemma Format02Digits(n: nat)
    ensures |Format02(n)| >= 2 && AllDigits(Format02(n)) && '-' !in Format02(n)
  {
  }

  /** For a natural number, `int("{:02}".format(n)) == n`. */
  lemma Format02RoundTrip(n: nat)
    ensures ParseInt(Format02(n)) == Some(n)
  {
    var f := Format02(n);
    DigitsValueOfDecimal(n);
    if n < 10 {
      DigitsValueLeadingZero(DecimalString(n));
    }
    Format02Digits(n);
    ParseIntDigits(f);
  }
}
