/** The quote-balance checker for the bundle's shell script: two flags,
    "inside a double quote" and "inside a single quote", carried across the
    characters of every line in turn, and a report for each line that ends
    inside a double quote. */
module Quotes {
  import opened Text

  datatype Flags = Flags(inDouble: bool, inSingle: bool)

  const Closed: Flags := Flags(false, false)

  /** At most one kind of quote is open. */
  predicate Exclusive(f: Flags) {
    !(f.inDouble && f.inSingle)
  }

  /** When a `"` counts as escaped. The script applies `PrecedingBackslash`:
      the character before it on the line is a backslash. `OddBackslashRun`
      is the shell's own rule: an odd number of backslashes precede it. */
  datatype EscapeRule = PrecedingBackslash | OddBackslashRun

  /** The number of backslashes that end `s`. */
  function TrailingBackslashes(s: string): (n: nat)
    ensures n <= |s|
    ensures n > 0 ==> s[|s| - 1] == '\\'
  {
    if s != [] && s[|s| - 1] == '\\' then TrailingBackslashes(s[..|s| - 1]) + 1 else 0
  }

  predicate Escaped(rule: EscapeRule, line: string, j: nat)
    requires j <= |line|
  {
    match rule
    case PrecedingBackslash => j > 0 && line[j - 1] == '\\'
    case OddBackslashRun => TrailingBackslashes(line[..j]) % 2 == 1
  }

  /** The body of the inner loop at index `j`. */
  function Step(rule: EscapeRule, f: Flags, line: string, j: nat): (g: Flags)
    requires j < |line|
    ensures Exclusive(f) ==> Exclusive(g)
    ensures line[j] != '\'' && line[j] != '"' ==> g == f
    ensures line[j] == '\'' ==> g.inDouble == f.inDouble && (g.inSingle != f.inSingle <==> !f.inDouble)
    ensures line[j] == '"' ==> g.inSingle == f.inSingle
                               && (g.inDouble != f.inDouble <==> !f.inSingle && !Escaped(rule, line, j))
  {
    if line[j] == '\'' && !f.inDouble then
      f.(inSingle := !f.inSingle)
    else if line[j] == '"' && !f.inSingle then
      if Escaped(rule, line, j) then f else f.(inDouble := !f.inDouble)
    else
      f
  }

  /** The flags after the first `k` characters of `line`, starting from `f`. */
  function ScanTo(rule: EscapeRule, f: Flags, line: string, k: nat): (g: Flags)
    requires k <= |line|
    ensures Exclusive(f) ==> Exclusive(g)
  {
    if k == 0 then f else Step(rule, ScanTo(rule, f, line, k - 1), line, k - 1)
  }

  function ScanLine(rule: EscapeRule, f: Flags, line: string): Flags {
    ScanTo(rule, f, line, |line|)
  }

  /** The flags after every line in turn; they are never reset between lines. */
  function ScanLines(rule: EscapeRule, f: Flags, lines: seq<string>): (g: Flags)
    ensures Exclusive(f) ==> Exclusive(g)
  {
    if lines == [] then f
    else ScanLine(rule, ScanLines(rule, f, lines[..|lines| - 1]), lines[|lines| - 1])
  }

  /** The flags after the first `n` lines. */
  function FlagsAfter(rule: EscapeRule, lines: seq<string>, n: nat): Flags
    requires n <= |lines|
  {
    ScanLines(rule, Closed, lines[..n])
  }

  /** `rs` holds line number `n` (1-based) exactly when the double-quote flag
      is set after the last character of line `n`, in increasing order. */
  ghost predicate Describes(rule: EscapeRule, lines: seq<string>, rs: seq<nat>) {
    && (forall k :: 0 <= k < |rs| ==>
          && 1 <= rs[k] <= |lines|
          && FlagsAfter(rule, lines, rs[k]).inDouble)
    && (forall k, l :: 0 <= k < l < |rs| ==> rs[k] < rs[l])
    && (forall n :: 1 <= n <= |lines| && FlagsAfter(rule, lines, n).inDouble ==>
          exists k :: 0 <= k < |rs| && rs[k] == n)
  }

  /** The reports of a whole file, one line at a time. */
  function Reports(rule: EscapeRule, lines: seq<string>): seq<nat> {
    if lines == [] then []
    else
      var prev := Reports(rule, lines[..|lines| - 1]);
      if ScanLines(rule, Closed, lines).inDouble then prev + [|lines|]
      else prev
  }

  /** Every reported line ends inside a double quote. */
  lemma {:induction false} ReportsSound(rule: EscapeRule, lines: seq<string>, k: nat)
    requires k < |Reports(rule, lines)|
    ensures var r := Reports(rule, lines)[k];
      && 1 <= r <= |lines|
      && FlagsAfter(rule, lines, r).inDouble
  {
    var init := lines[..|lines| - 1];
    var prev := Reports(rule, init);
    var r := Reports(rule, lines)[k];
    if k < |prev| {
      ReportsSound(rule, init, k);
      assert r == prev[k];
      assert lines[..r] == init[..r];
    } else {
      assert lines[..|lines|] == lines;
    }
  }

  /** Reports come in increasing line order. */
  lemma {:induction false} ReportsOrdered(rule: EscapeRule, lines: seq<string>, k: nat, l: nat)
    requires k < l < |Reports(rule, lines)|
    ensures Reports(rule, lines)[k] < Reports(rule, lines)[l]
  {
    var init := lines[..|lines| - 1];
    var prev := Reports(rule, init);
    if l < |prev| {
      ReportsOrdered(rule, init, k, l);
    } else {
      ReportsSound(rule, init, k);
    }
  }

  /** Every line that ends inside a double quote is reported. */
  lemma {:induction false} ReportsComplete(rule: EscapeRule, lines: seq<string>, n: nat)
    requires 1 <= n <= |lines|
    requires FlagsAfter(rule, lines, n).inDouble
    ensures exists k :: 0 <= k < |Reports(rule, lines)| && Reports(rule, lines)[k] == n
  {
    var init := lines[..|lines| - 1];
    var prev := Reports(rule, init);
    var rs := Reports(rule, lines);
    if n == |lines| {
      assert lines[..n] == lines;
      assert rs[|rs| - 1] == n;
    } else {
      assert lines[..n] == init[..n];
      ReportsComplete(rule, init, n);
      var k :| 0 <= k < |prev| && prev[k] == n;
      assert rs[k] == prev[k];
    }
  }

  /** Exactly the lines that end inside a double quote are reported, in order. */
  lemma ReportsDescribe(rule: EscapeRule, lines: seq<string>)
    ensures Describes(rule, lines, Reports(rule, lines))
  {
    var rs := Reports(rule, lines);
    forall k | 0 <= k < |rs|
      ensures 1 <= rs[k] <= |lines|
      ensures FlagsAfter(rule, lines, rs[k]).inDouble
    {
      ReportsSound(rule, lines, k);
    }
    forall k, l | 0 <= k < l < |rs|
      ensures rs[k] < rs[l]
    {
      ReportsOrdered(rule, lines, k, l);
    }
    forall n | 1 <= n <= |lines| && FlagsAfter(rule, lines, n).inDouble
      ensures exists k :: 0 <= k < |rs| && rs[k] == n
    {
      ReportsComplete(rule, lines, n);
    }
  }

  /** `check_quotes` on the lines of a file, both flags starting cleared. */
  method CheckQuotes(rule: EscapeRule, lines: seq<string>) returns (reports: seq<nat>)
    ensures reports == Reports(rule, lines)
  {
    var inDouble := false;
    var inSingle := false;
    reports := [];
    var i := 0;
    while i < |lines|
      invariant 0 <= i <= |lines|
      invariant Flags(inDouble, inSingle) == ScanLines(rule, Closed, lines[..i])
      invariant reports == Reports(rule, lines[..i])
    {
      var line := lines[i];
      ghost var start := Flags(inDouble, inSingle);
      var j := 0;
      while j < |line|
        invariant 0 <= j <= |line|
        invariant Flags(inDouble, inSingle) == ScanTo(rule, start, line, j)
      {
        var c := line[j];
        if c == '\'' && !inDouble {
          inSingle := !inSingle;
        } else if c == '"' && !inSingle {
          if !Escaped(rule, line, j) {
            inDouble := !inDouble;
          }
        }
        j := j + 1;
      }
      assert lines[..i + 1][..i] == lines[..i];
      if inDouble {
        reports := reports + [i + 1];
      }
      i := i + 1;
    }
    assert lines[..|lines|] == lines;
  }

  // ---------------------------------------------------------------------------
  // Properties of the scan

  /** Scanning two blocks of lines is scanning the first and carrying its
      flags into the second. */
  lemma {:induction false} ScanLinesAppend(rule: EscapeRule, f: Flags, a: seq<string>, b: seq<string>)
    ensures ScanLines(rule, f, a + b) == ScanLines(rule, ScanLines(rule, f, a), b)
  {
    if b == [] {
      assert a + b == a;
    } else {
      assert (a + b)[..|a + b| - 1] == a + b[..|b| - 1];
      ScanLinesAppend(rule, f, a, b[..|b| - 1]);
    }
  }

  /** A line that ends inside a single quote (and only then is one open) is
      never reported. */
  lemma OpenSingleNotReported(rule: EscapeRule, lines: seq<string>, i: nat)
    requires i < |lines|
    requires FlagsAfter(rule, lines, i + 1).inSingle
    ensures forall k :: 0 <= k < |Reports(rule, lines)| ==> Reports(rule, lines)[k] != i + 1
  {
    ReportsDescribe(rule, lines);
  }

  /** On the lines `echo "a` and `b"`, the double-quote flag
      carries over, so only line 1 is reported. */
  lemma CarriedAcrossLines()
    ensures Reports(PrecedingBackslash, ["echo \"a\n", "b\"\n"]) == [1]
  {
    var lines := ["echo \"a\n", "b\"\n"];
    var l1 := lines[0];
    var l2 := lines[1];
    assert ScanTo(PrecedingBackslash, Closed, l1, 5) == Closed;
    assert ScanTo(PrecedingBackslash, Closed, l1, 6) == Flags(true, false);
    assert ScanTo(PrecedingBackslash, Closed, l1, 7) == Flags(true, false);
    assert ScanTo(PrecedingBackslash, Closed, l1, |l1|) == Flags(true, false);
    assert lines[..1] == [l1];
    assert ScanLines(PrecedingBackslash, Closed, lines[..1]) == Flags(true, false);
    assert ScanTo(PrecedingBackslash, Flags(true, false), l2, |l2|) == Closed;
    assert lines[..2] == lines;
  }

  // ---------------------------------------------------------------------------
  // A backslash pair before a closing quote

  /** The shell's escaping of a string for use between double quotes: each
      backslash and each double quote gets a backslash in front. */
  function EscapeChar(c: char): string {
    if c == '\\' || c == '"' then ['\\', c] else [c]
  }

  function EscapeString(s: string): string {
    if s == [] then [] else EscapeString(s[..|s| - 1]) + EscapeChar(s[|s| - 1])
  }

  /** `"<s escaped>"`: a balanced double-quoted shell word. */
  function Quoted(s: string): string {
    "\"" + EscapeString(s) + "\""
  }

  /** Scanning the first `|a|` characters of `a + b` is scanning `a`. */
  lemma {:induction false} ScanPrefix(rule: EscapeRule, f: Flags, a: string, b: string, k: nat)
    requires k <= |a|
    ensures ScanTo(rule, f, a + b, k) == ScanTo(rule, f, a, k)
  {
    if k > 0 {
      ScanPrefix(rule, f, a, b, k - 1);
      assert (a + b)[..k - 1] == a[..k - 1];
    }
  }

  /** Scanning one more character is one more step. */
  lemma ScanSnoc(rule: EscapeRule, f: Flags, a: string, c: char)
    ensures ScanLine(rule, f, a + [c]) == Step(rule, ScanLine(rule, f, a), a + [c], |a|)
  {
    ScanPrefix(rule, f, a, [c], |a|);
  }

  lemma TrailingSnoc(a: string, c: char)
    ensures TrailingBackslashes(a + [c]) == if c == '\\' then TrailingBackslashes(a) + 1 else 0
  {
    assert (a + [c])[..|a|] == a;
  }

  /** Inside an open double quote, with an even run of backslashes so far,
      the escaped form of one more character keeps the quote open and the
      run even. */
  lemma ScanEscapeChar(q: string, c: char)
    requires ScanLine(OddBackslashRun, Closed, q) == Flags(true, false)
    requires TrailingBackslashes(q) % 2 == 0
    ensures ScanLine(OddBackslashRun, Closed, q + EscapeChar(c)) == Flags(true, false)
    ensures TrailingBackslashes(q + EscapeChar(c)) % 2 == 0
  {
    if c == '\\' || c == '"' {
      var q1 := q + ['\\'];
      ScanSnoc(OddBackslashRun, Closed, q, '\\');
      TrailingSnoc(q, '\\');
      assert q + EscapeChar(c) == q1 + [c];
      ScanSnoc(OddBackslashRun, Closed, q1, c);
      TrailingSnoc(q1, c);
      assert (q1 + [c])[..|q1|] == q1;
    } else {
      ScanSnoc(OddBackslashRun, Closed, q, c);
      TrailingSnoc(q, c);
    }
  }

  /** After the opening quote and the escaped text of `s`, the double quote is
      open, and an even run of backslashes ends the line so far. */
  lemma {:induction false} EscapedPrefixOpen(s: string)
    ensures var p := "\"" + EscapeString(s);
      && ScanLine(OddBackslashRun, Closed, p) == Flags(true, false)
      && TrailingBackslashes(p) % 2 == 0
  {
    if s == [] {
      assert "\"" + EscapeString(s) == [] + ['"'];
      ScanSnoc(OddBackslashRun, Closed, [], '"');
      TrailingSnoc([], '"');
    } else {
      var init := s[..|s| - 1];
      EscapedPrefixOpen(init);
      assert "\"" + EscapeString(s) == ("\"" + EscapeString(init)) + EscapeChar(s[|s| - 1]);
      ScanEscapeChar("\"" + EscapeString(init), s[|s| - 1]);
    }
  }

  /** With the shell's rule, a quoted word leaves both flags cleared. */
  lemma {:induction false} QuotedWordBalanced(s: string)
    ensures ScanLine(OddBackslashRun, Closed, Quoted(s)) == Closed
  {
    var p := "\"" + EscapeString(s);
    EscapedPrefixOpen(s);
    assert Quoted(s) == p + ['"'];
    ScanSnoc(OddBackslashRun, Closed, p, '"');
    assert Quoted(s)[..|p|] == p;
  }

  /** With the script's rule, the quoted word `"\\"` (a single backslash) is
      read as ending inside a double quote, so its line is reported; the
      shell's rule reports nothing. */
  lemma BackslashPairMisread()
    ensures Reports(PrecedingBackslash, [Quoted("\\")]) == [1]
    ensures Reports(OddBackslashRun, [Quoted("\\")]) == []
  {
    var line := Quoted("\\");
    assert EscapeString("\\") == "\\\\" by {
      assert "\\"[..0] == [];
    }
    assert line == "\"\\\\\"";
    assert ScanTo(PrecedingBackslash, Closed, line, 1) == Flags(true, false);
    assert ScanTo(PrecedingBackslash, Closed, line, 3) == Flags(true, false);
    assert ScanLine(PrecedingBackslash, Closed, line) == Flags(true, false);
    assert [line][..1] == [line];
    QuotedWordBalanced("\\");
  }
}
