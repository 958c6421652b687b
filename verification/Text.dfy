/** Python's `str` operations the modelled code relies on: `strip`, `startswith` and `splitlines`. */
module Text {

  const UPPER := "ABCDEFGHIJKLMNOPQRSTUVWXYZ"
  const LOWER := "abcdefghijklmnopqrstuvwxyz"
  const DIGITS := "0123456789"

  lemma InOrder()
    ensures |UPPER| == |LOWER| == 26 && |DIGITS| == 10
    ensures forall i :: 0 <= i < 26 ==> UPPER[i] as int == 'A' as int + i
    ensures forall i :: 0 <= i < 26 ==> LOWER[i] as int == 'a' as int + i
    ensures forall i :: 0 <= i < 10 ==> DIGITS[i] as int == '0' as int + i
  {
  }

  /** `str.isspace` for one character. */
  predicate IsSpace(c: char) {
    var n := c as int;
    || 0x09 <= n <= 0x0D
    || 0x1C <= n <= 0x20
    || n == 0x85 || n == 0xA0 || n == 0x1680
    || 0x2000 <= n <= 0x200A
    || n == 0x2028 || n == 0x2029 || n == 0x202F || n == 0x205F || n == 0x3000
  }

  /** The characters `str.splitlines` ends a line at. Every one of them is also a space. */
  predicate IsSeparator(c: char) {
    var n := c as int;
    || 0x0A <= n <= 0x0D
    || 0x1C <= n <= 0x1E
    || n == 0x85 || n == 0x2028 || n == 0x2029
  }

  /** `str.splitlines` ends a line at these ten. */
  lemma SeparatorsAre(c: char)
    ensures IsSeparator(c) <==> c in "\n\U{0B}\U{0C}\r\U{1C}\U{1D}\U{1E}\U{85}\U{2028}\U{2029}"
  {
  }

  /** And `str.isspace` is true of these. */
  lemma SpacesAre(c: char)
    ensures IsSpace(c) <==>
            || c in "\t\n\U{0B}\U{0C}\r \U{1C}\U{1D}\U{1E}\U{1F}\U{85}\U{A0}\U{1680}"
            || c in "\U{2000}\U{2001}\U{2002}\U{2003}\U{2004}\U{2005}\U{2006}\U{2007}\U{2008}\U{2009}\U{200A}"
            || c in "\U{2028}\U{2029}\U{202F}\U{205F}\U{3000}"
  {
  }

  /** A separator other than the two a quoted value spells out. */
  predicate IsExoticSeparator(c: char) {
    IsSeparator(c) && c != '\n' && c != '\r'
  }

  predicate SeparatorFree(s: string) {
    forall i :: 0 <= i < |s| ==> !IsSeparator(s[i])
  }

  predicate ExoticFree(s: string) {
    forall i :: 0 <= i < |s| ==> !IsExoticSeparator(s[i])
  }

  predicate StartsWith(s: string, prefix: string) {
    |prefix| <= |s| && s[..|prefix|] == prefix
  }

  // ---- strip ----------------------------------------------------------------------------

  /** How many leading characters are spaces. */
  function LeadingSpaces(s: string): (n: nat)
    ensures n <= |s|
    ensures forall i :: 0 <= i < n ==> IsSpace(s[i])
    ensures n < |s| ==> !IsSpace(s[n])
  {
    if |s| == 0 || !IsSpace(s[0]) then 0 else 1 + LeadingSpaces(s[1..])
  }

  /** Where the trailing spaces begin. */
  function TrailingSpaces(s: string): (n: nat)
    ensures n <= |s|
    ensures forall i :: n <= i < |s| ==> IsSpace(s[i])
    ensures n > 0 ==> !IsSpace(s[n - 1])
  {
    if |s| == 0 || !IsSpace(s[|s| - 1]) then |s| else TrailingSpaces(s[..|s| - 1])
  }

  function StripLeft(s: string): string {
    s[LeadingSpaces(s)..]
  }

  function StripRight(s: string): string {
    s[..TrailingSpaces(s)]
  }

  function Strip(s: string): string {
    StripRight(StripLeft(s))
  }

  predicate Trimmed(s: string) {
    s == "" || (!IsSpace(s[0]) && !IsSpace(s[|s| - 1]))
  }

  lemma StripTrims(s: string)
    ensures Trimmed(Strip(s))
    ensures Strip(s) == s <==> Trimmed(s)
    ensures forall c :: c in Strip(s) ==> c in s
  {
  }

  /** What lies between leading and trailing spaces is the stripped string. */
  lemma StripBetween(s: string, i: nat, j: nat)
    requires i <= j <= |s|
    requires forall k :: 0 <= k < i || j <= k < |s| ==> IsSpace(s[k])
    requires Trimmed(s[i..j])
    ensures Strip(s) == s[i..j]
  {
    var l := StripLeft(s);
    if i == j {
      assert LeadingSpaces(s) == |s|;
    } else {
      assert s[i..j][0] == s[i] && s[i..j][j - i - 1] == s[j - 1];
      assert LeadingSpaces(s) == i;
      assert TrailingSpaces(l) == j - i;
    }
  }

  lemma {:induction false} StripDropsLeading(s: string, n: nat)
    requires n <= |s|
    requires forall k :: 0 <= k < n ==> IsSpace(s[k])
    ensures Strip(s[n..]) == Strip(s)
  {
    if n == 0 {
      assert s[0..] == s;
    } else {
      StripDropsLeading(s[1..], n - 1);
      assert s[1..][n - 1..] == s[n..];
      assert StripLeft(s) == StripLeft(s[1..]);
    }
  }

  // ---- splitlines -----------------------------------------------------------------------

  /** Where the first line of `s` ends. */
  function LineEnd(s: string): (n: nat)
    ensures n <= |s|
  {
    if |s| == 0 || IsSeparator(s[0]) then 0 else 1 + LineEnd(s[1..])
  }

  lemma {:induction false} LineEndIsFirst(s: string)
    ensures SeparatorFree(s[..LineEnd(s)])
    ensures LineEnd(s) < |s| ==> IsSeparator(s[LineEnd(s)])
  {
    if s != "" && !IsSeparator(s[0]) {
      LineEndIsFirst(s[1..]);
      assert forall i :: 1 <= i < LineEnd(s) ==> s[..LineEnd(s)][i] == s[1..][..LineEnd(s) - 1][i - 1];
    }
  }

  function SplitLines(s: string): seq<string>
    decreases |s|
  {
    if |s| == 0 then []
    else
      var n := LineEnd(s);
      if n == |s| then [s]
      else
        var skip := if s[n] == '\r' && n + 1 < |s| && s[n + 1] == '\n' then 2 else 1;
        [s[..n]] + SplitLines(s[n + skip..])
  }

  /** `"\n".join(lines) + "\n"`, for at least one line. */
  function Terminated(lines: seq<string>): string {
    if |lines| == 0 then "" else lines[0] + "\n" + Terminated(lines[1..])
  }

  lemma {:induction false} LinesSeparatorFree(s: string)
    ensures forall i :: 0 <= i < |SplitLines(s)| ==> SeparatorFree(SplitLines(s)[i])
    decreases |s|
  {
    var n := LineEnd(s);
    LineEndIsFirst(s);
    if n == |s| {
      assert s[..n] == s;
    } else {
      LinesSeparatorFree(s[n + 1..]);
      if n + 1 < |s| {
        LinesSeparatorFree(s[n + 2..]);
      }
    }
  }

  lemma {:induction false} LineEndOf(line: string, rest: string)
    requires SeparatorFree(line)
    requires rest == "" || IsSeparator(rest[0])
    ensures LineEnd(line + rest) == |line|
  {
    if line == "" {
      assert line + rest == rest;
    } else {
      assert (line + rest)[0] == line[0] && (line + rest)[1..] == line[1..] + rest;
      LineEndOf(line[1..], rest);
    }
  }

  /** One line break: a carriage return and a line feed together, or one separator by itself. */
  ghost predicate IsBreak(mark: string, rest: string) {
    mark == "\r\n" || (|mark| == 1 && IsSeparator(mark[0]) && !(mark == "\r" && rest != "" && rest[0] == '\n'))
  }

  /** A text is cut at its first break, and at its end, where no empty line is left. */
  lemma SplitAtBreak(line: string, mark: string, rest: string)
    requires SeparatorFree(line) && IsBreak(mark, rest)
    ensures SplitLines(line + (mark + rest)) == [line] + SplitLines(rest)
    ensures SplitLines(line) == if line == "" then [] else [line]
  {
    var s, after := line + (mark + rest), mark + rest;
    LineEndOf(line, after);
    assert after[0] == mark[0] && s[..|line|] == line && s[|line|..] == after;
    assert after[1..] == mark[1..] + rest && (|mark| == 2 ==> after[1] == '\n');
    assert s[|line| + |mark|..] == rest;
    assert line + "" == line;
    LineEndOf(line, "");
  }

  /** Lines that hold no separator come back from the text they were written to. */
  lemma {:induction false} SplitTerminated(lines: seq<string>, rest: string)
    requires forall i :: 0 <= i < |lines| ==> SeparatorFree(lines[i])
    ensures SplitLines(Terminated(lines) + rest) == lines + SplitLines(rest)
  {
    if lines == [] {
      NoLines(rest);
    } else {
      SplitTerminated(lines[1..], rest);
      OneLineMore(lines, rest);
    }
  }

  lemma NoLines(rest: string)
    ensures SplitLines(Terminated([]) + rest) == [] + SplitLines(rest)
  {
    EmptyPrefix(rest);
    EmptyPrefix(SplitLines(rest));
  }

  lemma EmptyPrefix<T>(xs: seq<T>)
    ensures [] + xs == xs
  {
  }

  lemma OneLineMore(lines: seq<string>, rest: string)
    requires lines != [] && SeparatorFree(lines[0])
    requires SplitLines(Terminated(lines[1..]) + rest) == lines[1..] + SplitLines(rest)
    ensures SplitLines(Terminated(lines) + rest) == lines + SplitLines(rest)
  {
    var line, after := lines[0], Terminated(lines[1..]) + rest;
    TerminatedFirst(lines, rest);
    SplitAtBreak(line, "\n", after);
    FirstAndRest(lines, SplitLines(rest));
  }

  lemma FirstAndRest<T>(xs: seq<T>, ys: seq<T>)
    requires xs != []
    ensures [xs[0]] + (xs[1..] + ys) == xs + ys
  {
  }

  lemma TerminatedFirst(lines: seq<string>, rest: string)
    requires lines != []
    ensures Terminated(lines) + rest == lines[0] + ("\n" + (Terminated(lines[1..]) + rest))
  {
  }

  lemma {:induction false} TerminatedConcat(a: seq<string>, b: seq<string>)
    ensures Terminated(a + b) == Terminated(a) + Terminated(b)
  {
    if a == [] {
      assert a + b == b;
    } else {
      TerminatedConcat(a[1..], b);
      TailOfConcat(a, b);
      Regroup(a[0] + "\n", Terminated(a[1..]), Terminated(b));
    }
  }

  lemma TailOfConcat<T>(a: seq<T>, b: seq<T>)
    requires a != []
    ensures (a + b)[0] == a[0] && (a + b)[1..] == a[1..] + b
  {
  }

  lemma Regroup(a: string, b: string, c: string)
    ensures a + (b + c) == (a + b) + c
  {
  }

}
