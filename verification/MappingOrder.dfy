/** Whether the order in which the mapping is read decides where counters end. */
module MappingOrder {
  import opened CounterOwners
  import opened LikePatterns
  import opened MemberCounters
  import opened SingleRows
  import opened Wrappers

  type Mapping = seq<(string, string)>

  predicate Reorders(m: Mapping, mapping: Mapping) {
    multiset(m) == multiset(mapping)
  }

  /** Whatever the table and however mapping and rows are read, the upgrade ends in one table. */
  ghost predicate OneOutcome(mapping: Mapping) {
    forall before, m, m', after, after' ::
      Reorders(m, mapping) && Reorders(m', mapping) && UpgradesTo(before, m, after) && UpgradesTo(before, m', after')
      ==> after == after'
  }

  /** Every order of the mapping takes each key to the same place. */
  ghost predicate ResolvesAlike(mapping: Mapping) {
    forall m, m', k :: Reorders(m, mapping) && Reorders(m', mapping) ==> Resolve(m, k) == Resolve(m', k)
  }

  // ---- tables and keys ------------------------------------------------------------------

  lemma ReordersNeverLose(m: Mapping, mapping: Mapping)
    requires Reorders(m, mapping) && forall i :: 0 <= i < |mapping| ==> NeverLoses(mapping[i].0, mapping[i].1)
    ensures forall i :: 0 <= i < |m| ==> NeverLoses(m[i].0, m[i].1)
  {
    forall i | 0 <= i < |m| ensures NeverLoses(m[i].0, m[i].1) {
      assert m[i] in multiset(m);
    }
  }

  lemma SameGrouping(before: Table, f: Key -> Key, g: Key -> Key, after: Table, after': Table)
    requires IsGrouping(after, before, f) && IsGrouping(after', before, g)
    requires forall k :: f(k) == g(k)
    ensures after == after'
  {
    forall a ensures Fiber(before, f, a) == Fiber(before, g, a) {
    }
    assert after.Keys == after'.Keys;
  }

  /** A table of one row ends as one row, where the mapping takes its key. */
  lemma {:induction false} OneRowRuns(k: Key, m: Mapping)
    requires forall i :: 0 <= i < |m| ==> NeverLoses(m[i].0, m[i].1)
    ensures UpgradesTo(map[k := ONE], m, map[Resolve(m, k) := ONE])
    decreases |m|
  {
    if m != [] {
      var rest, last := m[..|m| - 1], m[|m| - 1];
      OneRowRuns(k, rest);
      var was, now := Resolve(rest, k), Resolve(m, k);
      OneRowMerges(was, last.0, last.1);
      if Like(Pattern(last.0), was.scope) {
        MergedStays(last, was);
        assert now != was && Move(map[was := ONE], was, ONE, now) == map[now := ONE];
      }
      hide Like, Pattern, Merges, Merged, NeverLoses, Resolve;
      assert Merges(map[was := ONE], last.0, last.1, map[now := ONE]);
    }
  }

  /** Where no pair of names loses, the order decides nothing for any table exactly when it decides
      nothing for any key. */
  lemma OneOutcomeExactlyWhen(mapping: Mapping)
    requires forall i :: 0 <= i < |mapping| ==> NeverLoses(mapping[i].0, mapping[i].1)
    ensures OneOutcome(mapping) <==> ResolvesAlike(mapping)
  {
    hide Resolve, UpgradesTo, NeverLoses, IsGrouping;
    if ResolvesAlike(mapping) {
      forall before, m, m', after, after' | Reorders(m, mapping) && Reorders(m', mapping)
                                            && UpgradesTo(before, m, after) && UpgradesTo(before, m', after')
        ensures after == after'
      {
        ReordersNeverLose(m, mapping);
        ReordersNeverLose(m', mapping);
        UpgradeGroups(before, m, after);
        UpgradeGroups(before, m', after');
        SameGrouping(before, Resolver(m), Resolver(m'), after, after');
      }
    }
    if OneOutcome(mapping) {
      forall m, m', k | Reorders(m, mapping) && Reorders(m', mapping) ensures Resolve(m, k) == Resolve(m', k) {
        ReordersNeverLose(m, mapping);
        ReordersNeverLose(m', mapping);
        OneRowRuns(k, m);
        OneRowRuns(k, m');
        var one, other := map[Resolve(m, k) := ONE], map[Resolve(m', k) := ONE];
        assert one == other;
        assert Resolve(m, k) in other;
      }
    }
  }

  // ---- names that are not read again ----------------------------------------------------

  /** Every key both subjects select is merged to the same place. */
  ghost predicate MergesAlike(x: (string, string), y: (string, string)) {
    forall k: Key :: Like(Pattern(x.0), k.scope) && Like(Pattern(y.0), k.scope) ==>
      Merged(k, x.0, x.1) == Merged(k, y.0, y.1)
  }

  /** Where no name is read again, the order decides nothing exactly when any two subjects that select one
      key merge it to one place. */
  lemma SettledOrderIrrelevantExactlyWhen(mapping: Mapping)
    requires Settled(mapping)
    ensures OneOutcome(mapping) <==> forall x, y :: x in mapping && y in mapping ==> MergesAlike(x, y)
  {
    SettledNeverLoses(mapping);
    OneOutcomeExactlyWhen(mapping);
    hide OneOutcome, Like, Pattern, Settled, NeverLoses, Resolve, Merged, MergesAlike;
    if forall x, y :: x in mapping && y in mapping ==> MergesAlike(x, y) {
      forall m, m', k | Reorders(m, mapping) && Reorders(m', mapping) ensures Resolve(m, k) == Resolve(m', k) {
        TakersAlike(mapping, m, m', k);
      }
    }
    if ResolvesAlike(mapping) {
      forall x, y | x in mapping && y in mapping ensures MergesAlike(x, y) {
        FirstReadTakes(mapping, x, y);
      }
    }
  }

  lemma ReordersSettled(m: Mapping, mapping: Mapping)
    requires Reorders(m, mapping) && Settled(mapping)
    ensures Settled(m)
  {
    hide Plain, Overlaps;
    forall i | 0 <= i < |m| ensures exists j :: 0 <= j < |mapping| && mapping[j] == m[i] {
      assert m[i] in multiset(m) && m[i] in mapping;
    }
  }

  lemma SomeTaker(m: Mapping, k: Key)
    ensures FirstTaker(m, k).Some? <==> exists x :: x in m && Like(Pattern(x.0), k.scope)
  {
    hide Like, Pattern, FirstTaker;
    var taker := FirstTaker(m, k);
    if taker.Some? {
      assert m[taker.value] in m;
    }
  }

  lemma TakersAlike(mapping: Mapping, m: Mapping, m': Mapping, k: Key)
    requires Settled(mapping) && Reorders(m, mapping) && Reorders(m', mapping)
    requires forall x, y :: x in mapping && y in mapping ==> MergesAlike(x, y)
    ensures Resolve(m, k) == Resolve(m', k)
  {
    hide Like, Pattern, Settled, Resolve, Merged, FirstTaker, Reorders;
    ReordersSettled(m, mapping);
    ReordersSettled(m', mapping);
    FirstSubjectTakes(m, |m|, k);
    FirstSubjectTakes(m', |m'|, k);
    assert m[..|m|] == m && m'[..|m'|] == m';
    InBoth(m, m', mapping);
    SomeTaker(m, k);
    SomeTaker(m', k);
    var i, j := FirstTaker(m, k), FirstTaker(m', k);
    if i.Some? && j.Some? {
      assert MergesAlike(m[i.value], m'[j.value]);
    }
  }

  lemma InBoth(m: Mapping, m': Mapping, mapping: Mapping)
    requires Reorders(m, mapping) && Reorders(m', mapping)
    ensures forall x :: x in m <==> x in mapping
    ensures forall x :: x in m' <==> x in mapping
  {
    assert forall x :: x in m <==> x in multiset(m);
    assert forall x :: x in m' <==> x in multiset(m');
    assert forall x :: x in mapping <==> x in multiset(mapping);
  }

  function Without(m: Mapping, i: nat): Mapping
    requires i < |m|
  {
    m[..i] + m[i + 1..]
  }

  lemma PutFirst(m: Mapping, i: nat)
    requires i < |m|
    ensures Reorders([m[i]] + Without(m, i), m)
  {
    assert m == m[..i] + [m[i]] + m[i + 1..];
  }

  lemma FirstReadTakes(mapping: Mapping, x: (string, string), y: (string, string))
    requires Settled(mapping) && ResolvesAlike(mapping) && x in mapping && y in mapping
    ensures MergesAlike(x, y)
  {
    hide Like, Pattern, Settled, Resolve, Merged, Reorders, Without;
    var i :| 0 <= i < |mapping| && mapping[i] == x;
    var j :| 0 <= j < |mapping| && mapping[j] == y;
    var m, m' := [x] + Without(mapping, i), [y] + Without(mapping, j);
    PutFirst(mapping, i);
    PutFirst(mapping, j);
    ReordersSettled(m, mapping);
    ReordersSettled(m', mapping);
    forall k: Key | Like(Pattern(x.0), k.scope) && Like(Pattern(y.0), k.scope)
      ensures Merged(k, x.0, x.1) == Merged(k, y.0, y.1)
    {
      FirstTakes(m, k);
      FirstTakes(m', k);
    }
  }

  lemma FirstTakes(m: Mapping, k: Key)
    requires Settled(m) && m != [] && Like(Pattern(m[0].0), k.scope)
    ensures Resolve(m, k) == Merged(k, m[0].0, m[0].1)
  {
    hide Like, Pattern, Settled, Resolve, Merged, FirstTaker;
    FirstSubjectTakes(m, |m|, k);
    assert m[..|m|] == m;
  }

  // ---- two patterns on one key ----------------------------------------------------------

  predicate Unifies(p: string, q: string) {
    |p| == |q| && forall i :: 0 <= i < |p| ==> p[i] == '_' || q[i] == '_' || p[i] == q[i]
  }

  function Underscores(n: nat): (s: string)
    ensures |s| == n && forall i :: 0 <= i < n ==> s[i] == '_'
  {
    seq(n, i => '_')
  }

  /** Some key ends as both patterns do, the colons before them included. */
  predicate Clash(a: string, b: string) {
    if |a| >= |b| then Unifies(":" + a, Underscores(|a| - |b|) + (":" + b))
    else Unifies(Underscores(|b| - |a|) + (":" + a), ":" + b)
  }

  /** A text both fit. */
  function Meet(p: string, q: string): (s: string)
    requires Unifies(p, q)
    ensures |s| == |p| && Fits(p, s) && Fits(q, s)
  {
    seq(|p|, i requires 0 <= i < |p| => if p[i] == '_' then q[i] else p[i])
  }

  lemma ClashExactlyWhen(a: string, b: string)
    ensures Clash(a, b) <==> exists scope :: Selected(scope, a) && Selected(scope, b)
  {
    if |a| >= |b| {
      LongerClash(a, b);
    } else {
      LongerClash(b, a);
      UnifiesBothWays(":" + b, Underscores(|b| - |a|) + (":" + a));
    }
  }

  lemma UnifiesBothWays(p: string, q: string)
    ensures Unifies(p, q) <==> Unifies(q, p)
  {
  }

  lemma LongerClash(a: string, b: string)
    requires |a| >= |b|
    ensures Unifies(":" + a, Underscores(|a| - |b|) + (":" + b)) <==>
            exists scope :: Selected(scope, a) && Selected(scope, b)
  {
    var p, q := ":" + a, Underscores(|a| - |b|) + (":" + b);
    hide Unifies, Selected, Meet;
    if Unifies(p, q) {
      MeetSelected(a, b);
      assert Selected(MEMBER + Meet(p, q), a);
    }
    if scope :| Selected(scope, a) && Selected(scope, b) {
      SelectedUnify(scope, a, b);
    }
  }

  lemma MeetSelected(a: string, b: string)
    requires |a| >= |b| && Unifies(":" + a, Underscores(|a| - |b|) + (":" + b))
    ensures var scope := MEMBER + Meet(":" + a, Underscores(|a| - |b|) + (":" + b));
            Selected(scope, a) && Selected(scope, b)
  {
    var t := Meet(":" + a, Underscores(|a| - |b|) + (":" + b));
    hide Fits, Meet, Unifies;
    var scope := MEMBER + t;
    assert scope[|scope| - |a| - 1..] == t;
    PaddedFits(":" + b, |a| - |b|, t);
    SuffixSlice(scope, |a| + 1, |b| + 1);
  }

  lemma SelectedUnify(scope: string, a: string, b: string)
    requires |a| >= |b| && Selected(scope, a) && Selected(scope, b)
    ensures Unifies(":" + a, Underscores(|a| - |b|) + (":" + b))
  {
    var t := scope[|scope| - |a| - 1..];
    hide Fits, Unifies;
    SuffixSlice(scope, |a| + 1, |b| + 1);
    PaddedFits(":" + b, |a| - |b|, t);
    BothFit(":" + a, Underscores(|a| - |b|) + (":" + b), t);
  }

  lemma PaddedFits(pattern: string, n: nat, s: string)
    requires |s| == n + |pattern|
    ensures Fits(Underscores(n) + pattern, s) <==> Fits(pattern, s[n..])
  {
    var padded := Underscores(n) + pattern;
    assert forall i :: n <= i < |s| ==> padded[i] == pattern[i - n] && s[i] == s[n..][i - n];
  }

  lemma BothFit(p: string, q: string, s: string)
    requires Fits(p, s) && Fits(q, s)
    ensures Unifies(p, q)
  {
  }

  /** With names free of colons, two subjects merge what both select to one place exactly when they select
      no key in common, or are equally long and mapped to one name. */
  lemma AlikeExactlyWhen(x: (string, string), y: (string, string))
    requires Plain(x.0) && Plain(y.0) && ':' !in x.1 && ':' !in y.1
    ensures MergesAlike(x, y) <==> !Clash(x.0, y.0) || (|x.0| == |y.0| && x.1 == y.1)
  {
    ClashExactlyWhen(x.0, y.0);
    hide Clash;
    forall k: Key
      ensures Like(Pattern(x.0), k.scope) <==> Selected(k.scope, x.0)
      ensures Like(Pattern(y.0), k.scope) <==> Selected(k.scope, y.0)
      ensures Selected(k.scope, x.0) && Selected(k.scope, y.0) ==>
                (Merged(k, x.0, x.1) == Merged(k, y.0, y.1) <==> |x.0| == |y.0| && x.1 == y.1)
    {
      PlainMatches(k.scope, x.0);
      PlainMatches(k.scope, y.0);
      if Selected(k.scope, x.0) && Selected(k.scope, y.0) {
        MergedAlikeExactlyWhen(k, x, y);
      }
    }
    hide Like, Pattern, Selected, Merged;
    if scope :| Selected(scope, x.0) && Selected(scope, y.0) {
      assert Selected(Key(scope, "").scope, x.0) && Selected(Key(scope, "").scope, y.0);
    }
  }

  lemma MergedAlikeExactlyWhen(k: Key, x: (string, string), y: (string, string))
    requires Selected(k.scope, x.0) && Selected(k.scope, y.0) && ':' !in x.1 && ':' !in y.1
    ensures Merged(k, x.0, x.1) == Merged(k, y.0, y.1) <==> |x.0| == |y.0| && x.1 == y.1
  {
    var a, b := MEMBER + Slug(k.scope, x.0), MEMBER + Slug(k.scope, y.0);
    assert |a| - |b| == |y.0| - |x.0|;
    LastColon(a, x.1, b, y.1);
    assert |x.0| == |y.0| ==> a == b;
  }

  lemma LastColon(a: string, u: string, b: string, v: string)
    requires ':' !in u && ':' !in v
    ensures a + ":" + u == b + ":" + v <==> a == b && u == v
  {
    var s, t := a + ":" + u, b + ":" + v;
    if s == t {
      assert s[|a|] == ':' && t[|b|] == ':';
      assert forall i :: |a| < i < |s| ==> s[i] in u;
      assert forall i :: |b| < i < |t| ==> t[i] in v;
      assert |a| == |b|;
      assert s[..|a|] == a && t[..|b|] == b && s[|a| + 1..] == u && t[|b| + 1..] == v;
    }
  }

  // ---- names free of colons and wildcards -----------------------------------------------

  /** What the query that reads the mapping returns where names hold neither colons nor wildcards: each
      subject once, and none mapped to itself. */
  predicate Named(mapping: Mapping) {
    && (forall x :: x in mapping ==> Literal(x.0) && ':' !in x.0 && ':' !in x.1 && x.0 != x.1)
    && (forall i, j :: 0 <= i < j < |mapping| ==> mapping[i].0 != mapping[j].0)
  }

  lemma OverlapIsEquality(subject: string, username: string)
    requires Literal(subject) && ':' !in subject && ':' !in username
    ensures Overlaps(subject, username) <==> subject == username
  {
    var p, u := ":" + subject, ":" + username;
    var n := if |p| <= |u| then |p| else |u|;
    var x, y := p[|p| - n..], u[|u| - n..];
    assert p[1..] == subject && u[1..] == username;
    assert forall i :: 1 <= i < |u| ==> u[i] in username;
    assert forall i :: 1 <= i < |p| ==> p[i] in subject;
    if Fits(x, y) {
      LiteralFits(x, y);
      assert x[0] == p[|p| - n] && y[0] == u[|u| - n];
      assert |p| == |u|;
    }
  }

  /** Names free of colons and wildcards: the order of the mapping decides nothing for any table exactly
      when no name is itself a mapped subject. */
  lemma OrderIrrelevantExactlyWhen(mapping: Mapping)
    requires Named(mapping)
    ensures OneOutcome(mapping) <==> forall x, y :: x in mapping && y in mapping ==> x.1 != y.0
  {
    hide OneOutcome, Overlaps;
    forall i, j | 0 <= i < |mapping| && 0 <= j < |mapping|
      ensures Overlaps(mapping[i].0, mapping[j].1) <==> mapping[i].0 == mapping[j].1
    {
      assert mapping[i] in mapping && mapping[j] in mapping;
      OverlapIsEquality(mapping[i].0, mapping[j].1);
    }
    forall i | 0 <= i < |mapping| ensures NeverLoses(mapping[i].0, mapping[i].1) {
      assert mapping[i] in mapping;
    }
    if forall x, y :: x in mapping && y in mapping ==> x.1 != y.0 {
      NoChain(mapping);
    } else {
      var x, y :| x in mapping && y in mapping && x.1 == y.0;
      OneOutcomeExactlyWhen(mapping);
      ChainDependsOnOrder(mapping, x, y);
    }
  }

  lemma NoChain(mapping: Mapping)
    requires Named(mapping) && forall x, y :: x in mapping && y in mapping ==> x.1 != y.0
    requires forall i, j :: 0 <= i < |mapping| && 0 <= j < |mapping| ==>
               (Overlaps(mapping[i].0, mapping[j].1) <==> mapping[i].0 == mapping[j].1)
    ensures OneOutcome(mapping)
  {
    hide OneOutcome, Overlaps;
    assert Settled(mapping) by {
      forall i, j | 0 <= i < |mapping| && 0 <= j < |mapping| ensures !Overlaps(mapping[j].0, mapping[i].1) {
        assert mapping[i] in mapping && mapping[j] in mapping;
      }
      forall i | 0 <= i < |mapping| ensures Plain(mapping[i].0) {
        assert mapping[i] in mapping;
      }
    }
    SettledOrderIrrelevantExactlyWhen(mapping);
    forall x, y | x in mapping && y in mapping ensures MergesAlike(x, y) {
      SubjectsApart(mapping, x, y);
    }
  }

  lemma SubjectsApart(mapping: Mapping, x: (string, string), y: (string, string))
    requires Named(mapping) && x in mapping && y in mapping
    ensures MergesAlike(x, y)
  {
    AlikeExactlyWhen(x, y);
    LiteralClash(x.0, y.0);
    var i :| 0 <= i < |mapping| && mapping[i] == x;
    var j :| 0 <= j < |mapping| && mapping[j] == y;
    hide Clash, MergesAlike, Literal;
    if x.0 == y.0 {
      assert i == j;
    }
  }

  lemma LiteralClash(a: string, b: string)
    requires Literal(a) && Literal(b) && ':' !in a && ':' !in b
    ensures Clash(a, b) ==> a == b
  {
    if |a| >= |b| {
      LongerLiteralClash(a, b);
    } else {
      UnifiesBothWays(":" + b, Underscores(|b| - |a|) + (":" + a));
      LongerLiteralClash(b, a);
    }
  }

  lemma LongerLiteralClash(a: string, b: string)
    requires Literal(a) && Literal(b) && ':' !in a && |a| >= |b|
    ensures Unifies(":" + a, Underscores(|a| - |b|) + (":" + b)) ==> a == b
  {
    var p, d := ":" + a, |a| - |b|;
    var q := Underscores(d) + (":" + b);
    assert q[d] == ':' && forall i :: 1 <= i < |p| ==> p[i] in a && p[i] == a[i - 1];
    assert d == 0 ==> q[1..] == b && forall i :: 1 <= i < |q| ==> q[i] == b[i - 1];
    if Unifies(p, q) {
      assert p[d] == q[d];
      assert forall i :: 1 <= i < |p| ==> p[i] == q[i];
      assert p[1..] == a;
    }
  }

  /** The mapping without two of its entries. */
  function Between(m: Mapping, a: nat, b: nat): Mapping
    requires a < b < |m|
  {
    Without(Without(m, b), a)
  }

  lemma PutAround(m: Mapping, a: nat, b: nat)
    requires a < b < |m|
    ensures Reorders([m[a]] + Between(m, a, b) + [m[b]], m)
    ensures Reorders([m[b]] + Between(m, a, b) + [m[a]], m)
  {
    WithoutCounts(m, b);
    WithoutCounts(Without(m, b), a);
    WithoutAt(m, b, a);
    hide Without;
  }

  lemma WithoutCounts(m: Mapping, i: nat)
    requires i < |m|
    ensures |Without(m, i)| == |m| - 1 && multiset(m) == multiset(Without(m, i)) + multiset{m[i]}
  {
    assert m == m[..i] + [m[i]] + m[i + 1..];
  }

  lemma WithoutAt(m: Mapping, i: nat, n: nat)
    requires i < |m| && n < |m| - 1
    ensures Without(m, i)[n] == m[if n < i then n else n + 1]
  {
  }

  lemma RestApart(m: Mapping, a: nat, b: nat)
    requires Named(m) && a < b < |m|
    ensures forall z :: z in Between(m, a, b) ==>
              Literal(z.0) && ':' !in z.0 && z.0 != m[a].0 && z.0 != m[b].0
  {
    hide Literal, Without;
    WithoutCounts(m, b);
    WithoutCounts(Without(m, b), a);
    forall z | z in Between(m, a, b) ensures Literal(z.0) && ':' !in z.0 && z.0 != m[a].0 && z.0 != m[b].0 {
      var n :| 0 <= n < |Between(m, a, b)| && Between(m, a, b)[n] == z;
      WithoutAt(Without(m, b), a, n);
      var l := if n < a then n else n + 1;
      WithoutAt(m, b, l);
      assert z in m;
    }
  }

  /** A name that is a mapped subject, anywhere in the mapping: read one way the row goes on to the last
      name, read the other way it stays under the first. */
  lemma ChainDependsOnOrder(mapping: Mapping, x: (string, string), y: (string, string))
    requires Named(mapping) && x in mapping && y in mapping && x.1 == y.0
    ensures !ResolvesAlike(mapping)
  {
    hide Reorders, Resolve, Literal;
    var i :| 0 <= i < |mapping| && mapping[i] == x;
    var j :| 0 <= j < |mapping| && mapping[j] == y;
    var a, b := if i < j then i else j, if i < j then j else i;
    var rest := Between(mapping, a, b);
    PutAround(mapping, a, b);
    RestApart(mapping, a, b);
    hide Between, Named;
    TwoEnds(x, rest, y);
  }

  /** The two ends of a chain, read in either order around the rest of the mapping. */
  lemma TwoEnds(x: (string, string), rest: Mapping, y: (string, string))
    requires Literal(x.0) && Literal(y.0) && ':' !in x.0 && ':' !in y.0
    requires x.1 == y.0 && x.0 != x.1 && y.0 != y.1
    requires forall z :: z in rest ==> Literal(z.0) && ':' !in z.0 && z.0 != x.0 && z.0 != y.0
    ensures var k := MemberKey("s", x.0, "");
            Resolve([x] + rest + [y], k) != Resolve([y] + rest + [x], k)
  {
    hide Resolve, Literal;
    var k := MemberKey("s", x.0, "");
    ChainWalks(k, x, rest, y);
    StayWalks(k, x, rest, y);
    SameKeyExactlyWhen("s", "", y.0, y.1, "");
    assert "" + y.0 == y.0 && "" + y.1 == y.1;
  }

  lemma {:induction false} ResolveConcat(m: Mapping, n: Mapping, k: Key)
    ensures Resolve(m + n, k) == Resolve(n, Resolve(m, k))
    decreases |n|
  {
    if n == [] {
      assert m + n == m;
    } else {
      assert (m + n)[..|m + n| - 1] == m + n[..|n| - 1];
      ResolveConcat(m, n[..|n| - 1], k);
    }
  }

  lemma ResolveOne(x: (string, string), k: Key)
    ensures Resolve([x], k) == MergedTo(x, k)
  {
    var one := [x];
    assert one[..|one| - 1] == [] && Resolve(one[..|one| - 1], k) == k;
  }

  /** One person's row stays under another's subject, and moves under its own. */
  lemma NameMergedTo(person: string, x: (string, string))
    requires Literal(x.0) && ':' !in x.0 && ':' !in person
    ensures MergedTo(x, MemberKey("s", person, ""))
            == MemberKey("s", if person == x.0 then x.1 else person, "")
  {
    SelectsWhomItTakes("s", person, x.0, "");
    ReadAsItself(x.0, person);
    if person == x.0 {
      LiteralFits(x.0, person);
      assert person[|person| - |x.0|..] == person;
      MergedKey("s", person, x.0, x.1, "");
      assert person[..0] + x.1 == x.1;
    }
    hide Like, Pattern, Merged;
  }

  lemma {:induction false} NameStays(person: string, m: Mapping)
    requires ':' !in person && forall x :: x in m ==> Literal(x.0) && ':' !in x.0 && x.0 != person
    ensures Resolve(m, MemberKey("s", person, "")) == MemberKey("s", person, "")
    decreases |m|
  {
    if m != [] {
      NameStays(person, m[..|m| - 1]);
      assert m[|m| - 1] in m;
      NameMergedTo(person, m[|m| - 1]);
      hide MergedTo;
    }
  }

  lemma ChainWalks(k: Key, x: (string, string), rest: Mapping, y: (string, string))
    requires k == MemberKey("s", x.0, "") && x.1 == y.0 && Literal(x.0) && Literal(y.0) && ':' !in x.0 && ':' !in y.0
    requires forall z :: z in rest ==> Literal(z.0) && ':' !in z.0 && z.0 != y.0
    ensures Resolve([x] + rest + [y], k) == MemberKey("s", y.1, "")
  {
    hide Resolve, MergedTo, MemberKey;
    ResolveConcat([x] + rest, [y], k);
    ResolveConcat([x], rest, k);
    ResolveOne(x, k);
    NameMergedTo(x.0, x);
    NameStays(y.0, rest);
    ResolveOne(y, MemberKey("s", y.0, ""));
    NameMergedTo(y.0, y);
  }

  lemma StayWalks(k: Key, x: (string, string), rest: Mapping, y: (string, string))
    requires k == MemberKey("s", x.0, "") && x.1 == y.0 && x.0 != y.0
    requires Literal(x.0) && Literal(y.0) && ':' !in x.0 && ':' !in y.0
    requires forall z :: z in rest ==> Literal(z.0) && ':' !in z.0 && z.0 != x.0
    ensures Resolve([y] + rest + [x], k) == MemberKey("s", y.0, "")
  {
    hide Resolve, MergedTo, MemberKey;
    ResolveConcat([y] + rest, [x], k);
    ResolveConcat([y], rest, k);
    ResolveOne(y, k);
    NameMergedTo(x.0, y);
    NameStays(x.0, rest);
    ResolveOne(x, k);
    NameMergedTo(x.0, x);
  }

  /** So two runs over such a mapping end alike, whichever order each read it in. */
  lemma MappingOrderIrrelevant(mapping: Mapping, mapping': Mapping, before: Table, after: Table, after': Table)
    requires Named(mapping) && (forall x, y :: x in mapping && y in mapping ==> x.1 != y.0)
    requires Reorders(mapping', mapping) && UpgradesTo(before, mapping, after) && UpgradesTo(before, mapping', after')
    ensures after == after'
  {
    OrderIrrelevantExactlyWhen(mapping);
    assert Reorders(mapping, mapping);
    hide UpgradesTo, Named;
  }
}
