/** When a merge conserves every total: exactly for which two names no table loses any. */
module CounterLosses {
  import opened LikePatterns
  import opened MemberCounters
  import opened SingleRows

  ghost predicate Conserved(rows: Table, order: seq<Key>, subject: string, username: string,
                            scope: Scope, period: string)
    requires ReadsMatches(order, rows, subject)
  {
    Total(MoveAll(rows, rows, order, subject, username), scope, period) == Total(rows, scope, period)
  }

  /** A merge conserves every total of every table exactly when its two names never lose. */
  lemma ConservesExactlyWhen(subject: string, username: string)
    ensures NeverLoses(subject, username) <==>
            forall rows, order, scope, period :: ReadsMatches(order, rows, subject) ==>
              Conserved(rows, order, subject, username, scope, period)
  {
    if NeverLoses(subject, username) {
      forall rows, order, scope, period | ReadsMatches(order, rows, subject)
        ensures Conserved(rows, order, subject, username, scope, period)
      {
        MergeConserves(rows, order, subject, username, scope, period);
      }
    } else {
      var rows, order, scope := SomeTableLoses(subject, username, "");
      assert ReadsMatches(order, rows, subject) && !Conserved(rows, order, subject, username, scope, "");
    }
  }

  /** In any period there is a table that loses counters: a row that matches the pattern with less than
      it is cut by, a row merged into itself, or one merged into another the query has read. */
  lemma SomeTableLoses(subject: string, username: string, period: string)
    returns (rows: Table, order: seq<Key>, scope: Scope)
    requires !NeverLoses(subject, username)
    ensures ReadsMatches(order, rows, subject) && !Conserved(rows, order, subject, username, scope, period)
  {
    if !Plain(subject) {
      rows, order, scope := CutTooFar(subject, username, period);
    } else if |subject| == |username| {
      var k := MemberKey("s", username, period);
      rows, order, scope := map[k := ONE], [k], MembersOf("s");
      MergedIntoItself(subject, username, period);
    } else {
      var slug := RereadSlug(subject, username);
      var k1 := MemberKey(slug, subject, period);
      var k2 := Merged(k1, subject, username);
      KeyOf(slug, subject, subject, period);
      MemberKeyScope(slug, subject, period);
      rows, order, scope := map[k1 := ONE, k2 := ONE], [k1, k2], MembersOf("s");
      LostUpdate(k1, k2, subject, username);
    }
  }

  lemma MemberKeyScope(slug: string, subject: string, period: string)
    requires slug == "s" || (|slug| > 1 && slug[0] == 's' && slug[1] == ':')
    ensures ScopeOf(MemberKey(slug, subject, period).scope) == MembersOf("s")
  {
    var scope := MEMBER + slug + ":" + subject;
    assert scope == MEMBER + (slug + ":" + subject);
    var tail := scope[|MEMBER|..];
    assert tail[0] == 's' && tail[1] == ':';
    assert UpToColon(tail[1..]) == "";
  }

  lemma MergedIntoItself(subject: string, username: string, period: string)
    requires Plain(subject) && |subject| == |username| && Overlaps(subject, username)
    ensures var k := MemberKey("s", username, period);
            var rows := map[k := ONE];
            ReadsMatches([k], rows, subject) && !Conserved(rows, [k], subject, username, MembersOf("s"), period)
  {
    var k := MemberKey("s", username, period);
    var rows := map[k := ONE];
    assert (":" + subject)[0..] == ":" + subject && (":" + username)[0..] == ":" + username;
    FitsBehindColon(subject, ":" + username);
    assert (":" + username)[1..] == username;
    KeyOf("s", username, subject, period);
    PlainMatches(k.scope, subject);
    MemberKeyScope("s", username, period);
    OneMove(k, subject, username, k);
    assert Move(rows, k, ONE, k) == map[];
    TotalOfOne(k, MembersOf("s"));
    assert Fiber(map[], (k: Key) => (ScopeOf(k.scope), k.period), (MembersOf("s"), period)) == {};
  }

  /** A slug whose key, once merged, is read as this subject's again. */
  lemma RereadSlug(subject: string, username: string) returns (slug: string)
    requires Overlaps(subject, username) && |subject| != |username|
    ensures slug == "s" || (|slug| > 1 && slug[0] == 's' && slug[1] == ':')
    ensures Selected(MEMBER + slug + ":" + username, subject)
  {
    var p, u := ":" + subject, ":" + username;
    if |p| < |u| {
      slug := "s";
      var m := MEMBER + slug + ":" + username;
      assert m == (MEMBER + slug) + u && m[|m| - |p|..] == u[|u| - |p|..];
      assert p[0..] == p;
    } else {
      var y := p[..|p| - |u|];
      slug := "s" + y;
      var m := MEMBER + slug + ":" + username;
      assert m == (MEMBER + "s") + (y + u) && y[0] == p[0] && m[|m| - |p|..] == y + u;
      assert Fits(p, y + u) by {
        assert forall i :: |y| <= i < |p| ==> p[i] == p[|p| - |u|..][i - |y|];
      }
    }
  }

  lemma LostUpdate(k1: Key, k2: Key, subject: string, username: string)
    requires Plain(subject) && |subject| != |username|
    requires Selected(k1.scope, subject) && Selected(k2.scope, subject)
    requires Merged(k1, subject, username) == k2
    requires ScopeOf(k1.scope) == MembersOf("s")
    ensures var rows := map[k1 := ONE, k2 := ONE];
            && ReadsMatches([k1, k2], rows, subject)
            && !Conserved(rows, [k1, k2], subject, username, MembersOf("s"), k1.period)
  {
    var rows := map[k1 := ONE, k2 := ONE];
    var k3 := Merged(k2, subject, username);
    KeyParts(k1.scope, subject);
    KeyParts(k2.scope, subject);
    assert |k2.scope| - |k1.scope| == |username| - |subject| == |k3.scope| - |k2.scope|;
    PlainMatches(k1.scope, subject);
    PlainMatches(k2.scope, subject);
    SameScope(k1, subject, username);
    SameScope(k2, subject, username);
    SecondMoveIsStale(k1, k2, k3, subject, username);
    TotalOfOne(k3, ScopeOf(k3.scope));
    TotalOfTwo(k1, k2, ScopeOf(k3.scope));
  }

  lemma SecondMoveIsStale(k1: Key, k2: Key, k3: Key, subject: string, username: string)
    requires k1 != k2 && k2 != k3 && k1 != k3
    requires Merged(k1, subject, username) == k2 && Merged(k2, subject, username) == k3
    ensures var rows := map[k1 := ONE, k2 := ONE];
            MoveAll(rows, rows, [k1, k2], subject, username) == map[k3 := ONE]
  {
    var rows := map[k1 := ONE, k2 := ONE];
    assert [k1, k2][..1] == [k1] && [k1][..0] == [];
    assert MoveAll(rows, rows, [k1], subject, username) == Move(rows, k1, ONE, k2);
    assert Move(rows, k1, ONE, k2) == map[k2 := Add(ONE, ONE)];
  }

  lemma TotalOfOne(k: Key, scope: Scope)
    requires ScopeOf(k.scope) == scope
    ensures Total(map[k := ONE], scope, k.period) == ONE
  {
    var rows := map[k := ONE];
    assert Fiber(rows, (k: Key) => (ScopeOf(k.scope), k.period), (scope, k.period)) == {k};
    SumWithout(rows, {k}, k);
    assert {k} - {k} == {};
  }

  lemma TotalOfTwo(a: Key, b: Key, scope: Scope)
    requires a != b && ScopeOf(a.scope) == scope && ScopeOf(b.scope) == scope && a.period == b.period
    ensures Total(map[a := ONE, b := ONE], scope, a.period) == Add(ONE, ONE)
  {
    var rows := map[a := ONE, b := ONE];
    assert Fiber(rows, (k: Key) => (ScopeOf(k.scope), k.period), (scope, a.period)) == {a, b};
    SumWithout(rows, {a, b}, a);
    assert {a, b} - {a} == {b};
    SumWithout(rows, {b}, b);
    assert {b} - {b} == {};
  }

  function Esses(n: nat): (s: string)
    ensures |s| == n && forall i :: 0 <= i < n ==> s[i] == 's'
  {
    seq(n, i => 's')
  }

  /** A key whose slug is as long as the pattern is longer than what it matches here. */
  function ShortKey(subject: string, period: string): Key
    requires !Dangling(subject) && |Shortest(subject)| <= |subject|
  {
    MemberKey(Esses(|subject| - |Shortest(subject)|), Shortest(subject), period)
  }

  /** A pattern that matches less than its own length takes the slug for part of the subject. */
  lemma ShortKeyIsCut(subject: string, username: string, period: string)
    requires !Dangling(subject) && !Plain(subject)
    ensures |Shortest(subject)| < |subject|
    ensures var k := ShortKey(subject, period);
            && Like(Pattern(subject), k.scope)
            && ScopeOf(k.scope) == MembersOf(Esses(|subject| - |Shortest(subject)|))
            && ScopeOf(Merged(k, subject, username).scope) == MembersOf("")
  {
    ShortestMatches(subject);
    var t, q := Shortest(subject), Esses(|subject| - |Shortest(subject)|);
    hide Like, Pattern, Shortest, Dangling, Plain, ScopeOf, Merged;
    ShortKeySelected(q, t, subject);
    KeyPieces(q, t, |subject|);
    ShortKeyScopes(q, t, subject, username, period);
  }

  lemma ShortKeySelected(q: string, t: string, subject: string)
    requires Like(subject, t) && |subject| == |q| + |t| && |q| > 0 && q[0] == 's'
    ensures Like(Pattern(subject), MEMBER + q + ":" + t)
  {
    hide Like, Pattern;
    var scope := MEMBER + q + ":" + t;
    KeyPieces(q, t, |subject|);
    PatternMatches(scope, subject);
    assert PartsAt(scope, subject, |MEMBER| + |q|);
  }

  lemma ShortKeyScopes(q: string, t: string, subject: string, username: string, period: string)
    requires ':' !in q && |subject| == |q| + |t| && |q| > 0 && q[0] == 's'
    ensures ScopeOf(MEMBER + q + ":" + t) == MembersOf(q)
    ensures ScopeOf(Merged(MemberKey(q, t, period), subject, username).scope) == MembersOf("")
  {
    var scope := MEMBER + q + ":" + t;
    KeyPieces(q, t, |subject|);
    UpToColonBefore(q, t);
    assert Slug(scope, subject) == "";
    assert (MEMBER + "" + ":" + username)[|MEMBER|..] == ":" + username;
  }

  lemma KeyPieces(q: string, t: string, n: nat)
    requires n == |q| + |t| && |q| > 0 && q[0] == 's'
    ensures var scope := MEMBER + q + ":" + t;
            && MEMBER <= scope && scope[|MEMBER|..] == q + (":" + t)
            && scope[|MEMBER| + |q|] == ':' && scope[|MEMBER| + |q| + 1..] == t
            && scope[|scope| - n - 1] == 's' && |scope| - n - 1 == |MEMBER|
  {
  }

  lemma {:induction false} UpToColonBefore(s: string, rest: string)
    requires ':' !in s
    ensures UpToColon(s + (":" + rest)) == s
  {
    if s == "" {
      assert s + (":" + rest) == ":" + rest;
    } else {
      assert (s + (":" + rest))[1..] == s[1..] + (":" + rest);
      UpToColonBefore(s[1..], rest);
    }
  }

  lemma CutTooFar(subject: string, username: string, period: string)
    returns (rows: Table, order: seq<Key>, scope: Scope)
    requires !Dangling(subject) && !Plain(subject)
    ensures ReadsMatches(order, rows, subject) && !Conserved(rows, order, subject, username, scope, period)
  {
    ShortKeyIsCut(subject, username, period);
    var k := ShortKey(subject, period);
    var to := Merged(k, subject, username);
    rows, order, scope := map[k := ONE], [k], ScopeOf(k.scope);
    assert Esses(|subject| - |Shortest(subject)|) != "";
    hide Like, Pattern, Merged, ScopeOf;
    OneMove(k, subject, username, to);
    assert Move(rows, k, ONE, to) == map[to := ONE];
    TotalOfOne(k, scope);
    assert Fiber(map[to := ONE], (k: Key) => (ScopeOf(k.scope), k.period), (scope, period)) == {};
  }
}
