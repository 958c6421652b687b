/** SQL's LIKE: what a pattern matches, and which patterns are read letter for letter. */
module LikePatterns {

  /** LIKE with its escape character. A pattern that ends in that character matches nothing. */
  predicate Like(pattern: string, s: string)
    decreases |pattern| + |s|
  {
    if |pattern| == 0 then |s| == 0
    else if pattern[0] == '%' then Like(pattern[1..], s) || (s != "" && Like(pattern, s[1..]))
    else if pattern[0] == '_' then s != "" && Like(pattern[1..], s[1..])
    else if pattern[0] == '\\' then |pattern| > 1 && s != "" && s[0] == pattern[1] && Like(pattern[2..], s[1..])
    else s != "" && s[0] == pattern[0] && Like(pattern[1..], s[1..])
  }

  /** No wildcard but the one for a single character. */
  predicate Plain(s: string) {
    forall i :: 0 <= i < |s| ==> s[i] != '%' && s[i] != '\\'
  }

  /** A text LIKE reads as itself. */
  predicate Literal(s: string) {
    Plain(s) && forall i :: 0 <= i < |s| ==> s[i] != '_'
  }

  /** The pattern ends in an escape character that escapes nothing. */
  predicate Dangling(pattern: string) {
    if |pattern| == 0 then false
    else if pattern[0] == '\\' then |pattern| == 1 || Dangling(pattern[2..])
    else Dangling(pattern[1..])
  }

  /** Letter for letter, `_` standing for any. */
  predicate Fits(pattern: string, s: string) {
    |pattern| == |s| && forall i :: 0 <= i < |s| ==> pattern[i] == '_' || pattern[i] == s[i]
  }

  lemma {:induction false} LikeLiteral(literal: string, pattern: string, s: string)
    requires Literal(literal)
    ensures Like(literal + pattern, s) <==> literal <= s && Like(pattern, s[|literal|..])
  {
    if literal == "" {
      assert literal + pattern == pattern && s[0..] == s;
    } else {
      assert (literal + pattern)[1..] == literal[1..] + pattern;
      if s != "" {
        LikeLiteral(literal[1..], pattern, s[1..]);
        assert literal == [literal[0]] + literal[1..] && s == [s[0]] + s[1..];
        assert literal[1..] <= s[1..] ==> s[1..][|literal| - 1..] == s[|literal|..];
      }
    }
  }

  lemma {:induction false} LikePlain(pattern: string, s: string)
    requires Plain(pattern)
    ensures Like(pattern, s) <==> Fits(pattern, s)
  {
    if pattern != "" && s != "" {
      LikePlain(pattern[1..], s[1..]);
      assert forall i :: 1 <= i < |pattern| ==> pattern[i] == pattern[1..][i - 1];
      assert forall i :: 1 <= i < |s| ==> s[i] == s[1..][i - 1];
    }
  }

  lemma {:induction false} DanglingMatchesNothing(pattern: string, s: string)
    requires Dangling(pattern)
    ensures !Like(pattern, s)
    decreases |pattern| + |s|
  {
    if pattern[0] == '%' {
      DanglingMatchesNothing(pattern[1..], s);
    }
    if s != "" {
      if pattern[0] == '%' {
        DanglingMatchesNothing(pattern, s[1..]);
      } else if pattern[0] != '\\' {
        DanglingMatchesNothing(pattern[1..], s[1..]);
      } else if |pattern| > 1 {
        DanglingMatchesNothing(pattern[2..], s[1..]);
      }
    }
  }

  /** `%` may stand for any part of the text before the rest. */
  lemma {:induction false} LikeAny(pattern: string, s: string)
    ensures Like("%" + pattern, s) <==> exists i :: 0 <= i <= |s| && Like(pattern, s[i..])
    decreases |s|
  {
    assert ("%" + pattern)[1..] == pattern && s[0..] == s;
    if s != "" {
      LikeAny(pattern, s[1..]);
      forall i | 1 <= i <= |s| ensures s[i..] == s[1..][i - 1..] {
      }
      if i :| 0 <= i <= |s| - 1 && Like(pattern, s[1..][i..]) {
        assert s[1..][i..] == s[i + 1..];
      }
    }
  }

  // ---- letter for letter ----------------------------------------------------------------

  lemma LiteralFits(pattern: string, s: string)
    requires Literal(pattern)
    ensures Fits(pattern, s) <==> s == pattern
  {
  }

  lemma FitsBehindColon(subject: string, s: string)
    requires s != ""
    ensures Fits(":" + subject, s) <==> s[0] == ':' && Fits(subject, s[1..])
  {
    var p := ":" + subject;
    assert forall i :: 1 <= i < |p| ==> p[i] == subject[i - 1];
    assert forall i :: 1 <= i < |s| ==> s[i] == s[1..][i - 1];
  }

  lemma FitsSuffix(pattern: string, s: string, n: nat)
    requires Fits(pattern, s) && n <= |s|
    ensures Fits(pattern[|s| - n..], s[|s| - n..])
  {
  }

  // ---- the shortest match ---------------------------------------------------------------

  /** The shortest text the pattern matches: nothing for each `%`, and every escape dropped. */
  function Shortest(pattern: string): string
    requires !Dangling(pattern)
  {
    if |pattern| == 0 then ""
    else if pattern[0] == '%' then Shortest(pattern[1..])
    else if pattern[0] == '\\' then [pattern[1]] + Shortest(pattern[2..])
    else [pattern[0]] + Shortest(pattern[1..])
  }

  lemma {:induction false} ShortestMatches(pattern: string)
    requires !Dangling(pattern)
    ensures Like(pattern, Shortest(pattern))
    ensures |Shortest(pattern)| <= |pattern|
    ensures |Shortest(pattern)| == |pattern| ==> Plain(pattern)
  {
    if pattern != "" {
      ShortestMatches(if pattern[0] == '\\' then pattern[2..] else pattern[1..]);
      assert pattern == [pattern[0]] + pattern[1..];
    }
  }
}
