/** Folding subject-keyed usage counters into name-keyed ones: the nested merge loop of migration 0032. */
module MemberCounters {
  import opened LikePatterns
  import opened Wrappers

  datatype Counters = Counters(tokens: int, requests: int, costNanos: int, unpriced: int)

  function Add(a: Counters, b: Counters): Counters {
    Counters(a.tokens + b.tokens, a.requests + b.requests, a.costNanos + b.costNanos, a.unpriced + b.unpriced)
  }

  /** The primary key of `budget_usage`. */
  datatype Key = Key(scope: string, period: string)

  type Table = map<Key, Counters>

  const MEMBER := "member:"

  // ---- the query ------------------------------------------------------------------------

  function Pattern(subject: string): string {
    "member:%:" + subject
  }

  /** A colon at which the key parts into what LIKE reads over and what it reads as the subject. */
  predicate PartsAt(scope: string, subject: string, i: int) {
    MEMBER <= scope && |MEMBER| <= i < |scope| && scope[i] == ':' && Like(subject, scope[i + 1..])
  }

  /** Whatever the subject holds, the query selects a member key exactly when what follows one of its
      colons is LIKE the subject. */
  lemma PatternMatches(scope: string, subject: string)
    ensures Like(Pattern(subject), scope) <==> exists i :: PartsAt(scope, subject, i)
  {
    assert Pattern(subject) == MEMBER + ("%" + (":" + subject));
    LikeLiteral(MEMBER, "%" + (":" + subject), scope);
    if MEMBER <= scope {
      var tail := scope[|MEMBER|..];
      LikeAny(":" + subject, tail);
      forall j | 0 <= j <= |tail|
        ensures Like(":" + subject, tail[j..]) <==> PartsAt(scope, subject, |MEMBER| + j)
      {
        ColonThen(subject, tail[j..]);
        assert tail[j..] == scope[|MEMBER| + j..];
        assert j < |tail| ==> tail[j..][1..] == scope[|MEMBER| + j + 1..];
      }
      hide Like;
      forall i | PartsAt(scope, subject, i) ensures Like(":" + subject, tail[i - |MEMBER|..]) {
      }
    }
  }

  lemma ColonThen(subject: string, s: string)
    ensures Like(":" + subject, s) <==> s != "" && s[0] == ':' && Like(subject, s[1..])
  {
    assert (":" + subject)[1..] == subject;
  }

  /** A member key whose last letters fit the subject, behind a colon. */
  predicate Selected(scope: string, subject: string) {
    && |scope| >= |MEMBER| + 1 + |subject|
    && scope[..|MEMBER|] == MEMBER
    && Fits(":" + subject, scope[|scope| - |subject| - 1..])
  }

  /** For a subject with no wildcard but `_` these are the rows the query selects. */
  lemma PlainMatches(scope: string, subject: string)
    requires Plain(subject)
    ensures Like(Pattern(subject), scope) <==> Selected(scope, subject)
  {
    PatternMatches(scope, subject);
    hide Like, Plain;
    if i :| PartsAt(scope, subject, i) {
      LikePlain(subject, scope[i + 1..]);
      FitsBehindColon(subject, scope[i..]);
      assert i == |scope| - |subject| - 1;
    }
    if Selected(scope, subject) {
      var i := |scope| - |subject| - 1;
      FitsBehindColon(subject, scope[i..]);
      LikePlain(subject, scope[i + 1..]);
      assert PartsAt(scope, subject, i);
    }
  }

  // ---- one merge ------------------------------------------------------------------------

  /** `scope[len("member:") : -(len(subject) + 1)]`. */
  function Slug(scope: string, subject: string): string {
    var end := |scope| - (|subject| + 1);
    if |MEMBER| <= end then scope[|MEMBER|..end] else ""
  }

  function Merged(k: Key, subject: string, username: string): Key {
    Key(MEMBER + Slug(k.scope, subject) + ":" + username, k.period)
  }

  /** Upsert the row's counters under its new key, then delete the row. */
  function Move(rows: Table, k: Key, counters: Counters, to: Key): Table {
    rows[to := if to in rows then Add(rows[to], counters) else counters] - {k}
  }

  /** The rows of a snapshot moved one after another, in the order they were read. */
  function MoveAll(rows: Table, snapshot: Table, order: seq<Key>, subject: string, username: string): Table
    requires forall k :: k in order ==> k in snapshot
  {
    if |order| == 0 then rows
    else
      var last := order[|order| - 1];
      Move(MoveAll(rows, snapshot, order[..|order| - 1], subject, username), last, snapshot[last],
           Merged(last, subject, username))
  }

  lemma OneMoreMoved(rows: Table, snapshot: Table, order: seq<Key>, n: nat, subject: string, username: string)
    requires 0 < n <= |order| && forall k :: k in order ==> k in snapshot
    ensures MoveAll(rows, snapshot, order[..n], subject, username)
            == Move(MoveAll(rows, snapshot, order[..n - 1], subject, username), order[n - 1], snapshot[order[n - 1]],
                    Merged(order[n - 1], subject, username))
  {
    assert order[..n][..n - 1] == order[..n - 1];
  }

  /** `order` reads every row the query selects, once. */
  ghost predicate ReadsMatches(order: seq<Key>, rows: Table, subject: string) {
    && (forall k :: k in order <==> k in rows && Like(Pattern(subject), k.scope))
    && (forall i, j :: 0 <= i < j < |order| ==> order[i] != order[j])
  }

  /** One subject's rows read in some order and moved. */
  ghost predicate MergesTo(before: Table, subject: string, username: string, order: seq<Key>, after: Table) {
    ReadsMatches(order, before, subject) && after == MoveAll(before, before, order, subject, username)
  }

  ghost predicate Merges(before: Table, subject: string, username: string, after: Table) {
    exists order :: MergesTo(before, subject, username, order, after)
  }

  /** The whole mapping, one subject after another, may leave this table. */
  ghost predicate UpgradesTo(before: Table, mapping: seq<(string, string)>, after: Table) {
    if |mapping| == 0 then after == before
    else
      var last := mapping[|mapping| - 1];
      exists mid :: UpgradesTo(before, mapping[..|mapping| - 1], mid) && Merges(mid, last.0, last.1, after)
  }

  lemma OneMoreSubject(before: Table, mapping: seq<(string, string)>, i: nat, mid: Table, after: Table)
    requires i < |mapping| && UpgradesTo(before, mapping[..i], mid)
    requires Merges(mid, mapping[i].0, mapping[i].1, after)
    ensures UpgradesTo(before, mapping[..i + 1], after)
  {
    var now := mapping[..i + 1];
    assert now[..|now| - 1] == mapping[..i] && now[|now| - 1] == mapping[i];
    hide Merges;
  }

  // ---- sums over a table ----------------------------------------------------------------

  /** One of the four counters. */
  datatype Counter = Tokens | Requests | CostNanos | Unpriced

  function Of(counters: Counters, c: Counter): int {
    match c
    case Tokens => counters.tokens
    case Requests => counters.requests
    case CostNanos => counters.costNanos
    case Unpriced => counters.unpriced
  }

  /** One counter of these rows, added up. */
  ghost function SumOf(rows: Table, keys: set<Key>, c: Counter): int
    requires keys <= rows.Keys
  {
    if keys == {} then 0
    else
      var k :| k in keys;
      Of(rows[k], c) + SumOf(rows, keys - {k}, c)
  }

  /** Each of the four, added up by itself. */
  ghost function Sum(rows: Table, keys: set<Key>): Counters
    requires keys <= rows.Keys
  {
    Counters(SumOf(rows, keys, Tokens), SumOf(rows, keys, Requests),
             SumOf(rows, keys, CostNanos), SumOf(rows, keys, Unpriced))
  }

  lemma {:induction false} SumOfWithout(rows: Table, keys: set<Key>, k: Key, c: Counter)
    requires keys <= rows.Keys && k in keys
    ensures SumOf(rows, keys, c) == Of(rows[k], c) + SumOf(rows, keys - {k}, c)
    decreases keys
  {
    var x :| x in keys && SumOf(rows, keys, c) == Of(rows[x], c) + SumOf(rows, keys - {x}, c);
    if x != k {
      SumOfWithout(rows, keys - {x}, k, c);
      assert keys - {x} - {k} == keys - {k} - {x};
      SumOfWithout(rows, keys - {k}, x, c);
    }
  }

  lemma SumWithout(rows: Table, keys: set<Key>, k: Key)
    requires keys <= rows.Keys && k in keys
    ensures Sum(rows, keys) == Add(rows[k], Sum(rows, keys - {k}))
  {
    forall c: Counter ensures SumOf(rows, keys, c) == Of(rows[k], c) + SumOf(rows, keys - {k}, c) {
      SumOfWithout(rows, keys, k, c);
    }
    hide SumOf;
  }

  lemma {:induction false} SumSame(rows: Table, rows': Table, keys: set<Key>)
    requires keys <= rows.Keys && keys <= rows'.Keys
    requires forall k :: k in keys ==> rows[k] == rows'[k]
    ensures Sum(rows, keys) == Sum(rows', keys)
    decreases keys
  {
    if keys != {} {
      var k :| k in keys;
      SumSame(rows, rows', keys - {k});
      SumWithout(rows, keys, k);
      SumWithout(rows', keys, k);
    }
  }

  /** The keys `f` sends to `a`. */
  ghost function Fiber<T(!new)>(rows: Table, f: Key -> T, a: T): set<Key> {
    set k | k in rows && f(k) == a
  }

  /** One move: the row is gone, each of the target's four counters is what it was, if anything, plus the
      row's, and every other row is as it was. */
  lemma MoveAdds(rows: Table, k: Key, to: Key, c: Counter)
    requires k in rows && to != k
    ensures var rows' := Move(rows, k, rows[k], to);
            && rows'.Keys == rows.Keys - {k} + {to}
            && Of(rows'[to], c) == (if to in rows then Of(rows[to], c) else 0) + Of(rows[k], c)
            && forall x :: x in rows && x != k && x != to ==> rows'[x] == rows[x]
  {
  }

  /** Moving a row to a key of the same class leaves every class's sum as it was. */
  lemma MoveConserves<T(!new)>(rows: Table, k: Key, to: Key, f: Key -> T, a: T)
    requires k in rows && to != k && f(to) == f(k)
    ensures var rows' := Move(rows, k, rows[k], to);
            Sum(rows', Fiber(rows', f, a)) == Sum(rows, Fiber(rows, f, a))
            && (Fiber(rows', f, a) == {} <==> Fiber(rows, f, a) == {})
  {
    var rows' := Move(rows, k, rows[k], to);
    var olds, news := Fiber(rows, f, a), Fiber(rows', f, a);
    if f(k) != a {
      assert olds == news;
      SumSame(rows, rows', olds);
    } else {
      var rest := olds - {k} - {to};
      assert news == rest + {to} && news - {to} == rest;
      SumWithout(rows', news, to);
      SumWithout(rows, olds, k);
      SumSame(rows, rows', rest);
      if to in rows {
        SumWithout(rows, olds - {k}, to);
      } else {
        assert olds - {k} == rest;
      }
    }
  }

  // ---- conservation ---------------------------------------------------------------------

  function UpToColon(s: string): string {
    if |s| == 0 || s[0] == ':' then "" else [s[0]] + UpToColon(s[1..])
  }

  /** Whose spend a key is: a use case's members, or the key itself. */
  datatype Scope = MembersOf(slug: string) | Itself(scope: string)

  function ScopeOf(scope: string): Scope {
    if MEMBER <= scope then MembersOf(UpToColon(scope[|MEMBER|..])) else Itself(scope)
  }

  ghost function Total(rows: Table, scope: Scope, period: string): Counters {
    Sum(rows, Fiber(rows, (k: Key) => (ScopeOf(k.scope), k.period), (scope, period)))
  }

  /** No row is merged into a row the same query has read. */
  ghost predicate NoneReread(order: seq<Key>, subject: string, username: string) {
    forall i, j :: 0 <= i < |order| && 0 <= j < |order| ==> Merged(order[i], subject, username) != order[j]
  }

  /** No row is merged into another use case. */
  ghost predicate KeepsScopes(order: seq<Key>, subject: string, username: string) {
    forall i :: 0 <= i < |order| ==> ScopeOf(Merged(order[i], subject, username).scope) == ScopeOf(order[i].scope)
  }

  /** As far as both reach, the name ends as the subject's pattern does, the colons before them included. */
  predicate Overlaps(subject: string, username: string) {
    var p, u := ":" + subject, ":" + username;
    var n := if |p| <= |u| then |p| else |u|;
    Fits(p[|p| - n..], u[|u| - n..])
  }

  /** The subject has no wildcard but `_` and its pattern does not fit the end of the name, or it
      selects nothing at all. */
  predicate NeverLoses(subject: string, username: string) {
    Dangling(subject) || (Plain(subject) && !Overlaps(subject, username))
  }

  lemma {:induction false} UpToColonOfPrefix(s: string, a: string, b: string)
    ensures UpToColon(s + (":" + a)) == UpToColon(s + (":" + b))
  {
    if s == "" {
      assert s + (":" + a) == ":" + a && s + (":" + b) == ":" + b;
    } else if s[0] != ':' {
      assert (s + (":" + a))[1..] == s[1..] + (":" + a) && (s + (":" + b))[1..] == s[1..] + (":" + b);
      UpToColonOfPrefix(s[1..], a, b);
    }
  }

  lemma KeyParts(scope: string, subject: string)
    requires Selected(scope, subject)
    ensures scope == MEMBER + Slug(scope, subject) + ":" + scope[|scope| - |subject|..]
  {
    var end := |scope| - (|subject| + 1);
    FitsBehindColon(subject, scope[end..]);
    assert scope == scope[..|MEMBER|] + scope[|MEMBER|..end] + ([scope[end]] + scope[end + 1..]);
  }

  /** Whatever the subject, the split takes off as many letters as a colon and it are long, from what
      follows the prefix, and leaves nothing where there are not so many. */
  lemma SplitOff(scope: string, subject: string)
    requires MEMBER <= scope
    ensures var slug, rest := Slug(scope, subject), scope[|MEMBER|..];
            slug <= rest && (if |subject| < |rest| then |slug| + 1 + |subject| == |rest| else slug == "")
  {
    var end := |scope| - (|subject| + 1);
    if |MEMBER| <= end {
      assert scope[|MEMBER|..end] == scope[|MEMBER|..][..end - |MEMBER|];
    }
  }

  /** A row the query selects for a subject with no wildcard but `_` stays in its use case. */
  lemma SameScope(k: Key, subject: string, username: string)
    requires Selected(k.scope, subject)
    ensures ScopeOf(Merged(k, subject, username).scope) == ScopeOf(k.scope)
  {
    var s, tail := Slug(k.scope, subject), k.scope[|k.scope| - |subject|..];
    KeyParts(k.scope, subject);
    assert k.scope[|MEMBER|..] == s + (":" + tail);
    assert Merged(k, subject, username).scope[|MEMBER|..] == s + (":" + username);
    UpToColonOfPrefix(s, tail, username);
  }

  predicate EndsWith(s: string, tail: string) {
    |tail| <= |s| && s[|s| - |tail|..] == tail
  }

  lemma SelectedOverlaps(scope: string, subject: string, username: string)
    requires Selected(scope, subject) && EndsWith(scope, ":" + username)
    ensures Overlaps(subject, username)
  {
    var p, u := ":" + subject, ":" + username;
    var n := if |p| <= |u| then |p| else |u|;
    hide Fits, Selected, EndsWith;
    SelectedSuffix(scope, subject, n);
    EndsWithSuffix(scope, u, n);
  }

  lemma SelectedSuffix(scope: string, subject: string, n: nat)
    requires Selected(scope, subject) && n <= |subject| + 1
    ensures Fits((":" + subject)[|subject| + 1 - n..], scope[|scope| - n..])
  {
    FitsSuffix(":" + subject, scope[|scope| - |subject| - 1..], n);
    SuffixSlice(scope, |subject| + 1, n);
  }

  lemma EndsWithSuffix(s: string, tail: string, n: nat)
    requires EndsWith(s, tail) && n <= |tail|
    ensures |tail| <= |s| && tail[|tail| - n..] == s[|s| - n..]
  {
    SuffixSlice(s, |tail|, n);
  }

  lemma SuffixSlice(s: string, outer: nat, inner: nat)
    requires inner <= outer <= |s|
    ensures s[|s| - outer..][outer - inner..] == s[|s| - inner..]
  {
  }

  /** A merged key is not selected for a subject whose pattern does not fit the end of the name. */
  lemma MergedIsNotSelected(k: Key, subject: string, username: string, other: string)
    requires !Overlaps(other, username)
    ensures !Selected(Merged(k, subject, username).scope, other)
  {
    var m := Merged(k, subject, username).scope;
    assert m == (MEMBER + Slug(k.scope, subject)) + (":" + username);
    if Selected(m, other) {
      SelectedOverlaps(m, other, username);
    }
  }

  lemma NeverLosesIsHarmless(rows: Table, order: seq<Key>, subject: string, username: string)
    requires ReadsMatches(order, rows, subject) && NeverLoses(subject, username)
    ensures NoneReread(order, subject, username) && KeepsScopes(order, subject, username)
  {
    forall i | 0 <= i < |order|
      ensures ScopeOf(Merged(order[i], subject, username).scope) == ScopeOf(order[i].scope)
      ensures Merged(order[i], subject, username) !in order
    {
      var k := order[i];
      assert k in order;
      if Dangling(subject) {
        NothingSelected(k.scope, subject);
      } else {
        PlainMatches(k.scope, subject);
        PlainMatches(Merged(k, subject, username).scope, subject);
        SameScope(k, subject, username);
        MergedIsNotSelected(k, subject, username, subject);
      }
    }
  }

  lemma NothingSelected(scope: string, subject: string)
    requires Dangling(subject)
    ensures !Like(Pattern(subject), scope)
  {
    PatternMatches(scope, subject);
    if i :| PartsAt(scope, subject, i) {
      DanglingMatchesNothing(subject, scope[i + 1..]);
    }
  }

  /** While a subject's rows are moved, the rows still to move are as they were read. */
  lemma {:induction false} UnmovedRowsAreCurrent(rows: Table, order: seq<Key>, n: nat,
                                                 subject: string, username: string)
    requires ReadsMatches(order, rows, subject) && NoneReread(order, subject, username) && n <= |order|
    ensures var now := MoveAll(rows, rows, order[..n], subject, username);
            forall j :: n <= j < |order| ==> order[j] in now && now[order[j]] == rows[order[j]]
    decreases n
  {
    if n == 0 {
      forall j | 0 <= j < |order| ensures order[j] in rows {
        assert order[j] in order;
      }
    } else {
      UnmovedRowsAreCurrent(rows, order, n - 1, subject, username);
      OneMoreMoved(rows, rows, order, n, subject, username);
    }
  }

  /** Whatever the subject holds, every step conserves every total of every use case and period, so
      long as no row is merged into one the query has read or into another use case. */
  lemma {:induction false} EveryStepConserves(rows: Table, order: seq<Key>, n: nat, subject: string, username: string,
                                              scope: Scope, period: string)
    requires ReadsMatches(order, rows, subject) && n <= |order|
    requires NoneReread(order, subject, username) && KeepsScopes(order, subject, username)
    ensures Total(MoveAll(rows, rows, order[..n], subject, username), scope, period) == Total(rows, scope, period)
    decreases n
  {
    if n > 0 {
      EveryStepConserves(rows, order, n - 1, subject, username, scope, period);
      UnmovedRowsAreCurrent(rows, order, n - 1, subject, username);
      var k := order[n - 1];
      var now := MoveAll(rows, rows, order[..n - 1], subject, username);
      assert k in order && Merged(k, subject, username) != k;
      OneMoreMoved(rows, rows, order, n, subject, username);
      var f := (k: Key) => (ScopeOf(k.scope), k.period);
      MoveConserves(now, k, Merged(k, subject, username), f, (scope, period));
    }
  }

  lemma MergeConserves(rows: Table, order: seq<Key>, subject: string, username: string, scope: Scope, period: string)
    requires ReadsMatches(order, rows, subject) && NeverLoses(subject, username)
    ensures Total(MoveAll(rows, rows, order, subject, username), scope, period) == Total(rows, scope, period)
  {
    NeverLosesIsHarmless(rows, order, subject, username);
    EveryStepConserves(rows, order, |order|, subject, username, scope, period);
    assert order[..|order|] == order;
  }

  /** So does the whole upgrade, whatever the order of the mapping. */
  lemma {:induction false} UpgradeConserves(before: Table, mapping: seq<(string, string)>, after: Table,
                                            scope: Scope, period: string)
    requires UpgradesTo(before, mapping, after)
    requires forall i :: 0 <= i < |mapping| ==> NeverLoses(mapping[i].0, mapping[i].1)
    ensures Total(after, scope, period) == Total(before, scope, period)
    decreases |mapping|
  {
    if mapping != [] {
      var rest, last := mapping[..|mapping| - 1], mapping[|mapping| - 1];
      var mid :| UpgradesTo(before, rest, mid) && Merges(mid, last.0, last.1, after);
      var order :| MergesTo(mid, last.0, last.1, order, after);
      UpgradeConserves(before, rest, mid, scope, period);
      MergeConserves(mid, order, last.0, last.1, scope, period);
    }
  }

  // ---- grouping -------------------------------------------------------------------------

  /** Where one subject's merge leaves a key. */
  function MergedTo(pair: (string, string), k: Key): Key {
    if Like(Pattern(pair.0), k.scope) then Merged(k, pair.0, pair.1) else k
  }

  /** Where the whole mapping leaves a key, one subject after another. */
  function Resolve(mapping: seq<(string, string)>, k: Key): Key {
    if |mapping| == 0 then k
    else MergedTo(mapping[|mapping| - 1], Resolve(mapping[..|mapping| - 1], k))
  }

  function Merger(pair: (string, string)): Key -> Key {
    (k: Key) => MergedTo(pair, k)
  }

  function Resolver(mapping: seq<(string, string)>): Key -> Key {
    (k: Key) => Resolve(mapping, k)
  }

  /** `after` holds under each key the sum of the rows of `before` that `f` sends there, and nothing else. */
  ghost predicate IsGrouping(after: Table, before: Table, f: Key -> Key) {
    forall a :: (a in after <==> Fiber(before, f, a) != {}) &&
                (a in after ==> after[a] == Sum(before, Fiber(before, f, a)))
  }

  ghost predicate SameGroups(rows: Table, before: Table, f: Key -> Key) {
    forall a :: Sum(rows, Fiber(rows, f, a)) == Sum(before, Fiber(before, f, a)) &&
                (Fiber(rows, f, a) == {} <==> Fiber(before, f, a) == {})
  }

  /** A merged row is not selected again. */
  lemma MergedStays(pair: (string, string), k: Key)
    requires NeverLoses(pair.0, pair.1) && Like(Pattern(pair.0), k.scope)
    ensures !Like(Pattern(pair.0), Merged(k, pair.0, pair.1).scope)
  {
    if Dangling(pair.0) {
      NothingSelected(k.scope, pair.0);
    } else {
      MergedIsNotSelected(k, pair.0, pair.1, pair.0);
      PlainMatches(Merged(k, pair.0, pair.1).scope, pair.0);
    }
  }

  /** After `n` rows of one subject are moved every group is as it was, and what is left of that
      subject is what is still to move. */
  lemma {:induction false} StepsGroup(rows: Table, pair: (string, string), order: seq<Key>, n: nat)
    requires ReadsMatches(order, rows, pair.0) && NeverLoses(pair.0, pair.1) && n <= |order|
    ensures var now := MoveAll(rows, rows, order[..n], pair.0, pair.1);
            && SameGroups(now, rows, Merger(pair))
            && forall k :: k in now ==> (k in rows && k !in order[..n]) || MergedTo(pair, k) == k
    decreases n
  {
    hide NeverLoses, Like, Pattern, Merged, Selected;
    if n > 0 {
      StepsGroup(rows, pair, order, n - 1);
      NeverLosesIsHarmless(rows, order, pair.0, pair.1);
      UnmovedRowsAreCurrent(rows, order, n - 1, pair.0, pair.1);
      var k := order[n - 1];
      assert k in order && order[..n] == order[..n - 1] + [k];
      OneMoreMoved(rows, rows, order, n, pair.0, pair.1);
      MergedStays(pair, k);
      OneMoveGroups(MoveAll(rows, rows, order[..n - 1], pair.0, pair.1), rows, pair, k);
      hide MoveAll, ReadsMatches, SameGroups, Merger, KeepsScopes, NoneReread;
    }
  }

  lemma OneMoveGroups(now: Table, rows: Table, pair: (string, string), k: Key)
    requires SameGroups(now, rows, Merger(pair)) && k in now
    requires Like(Pattern(pair.0), k.scope) && !Like(Pattern(pair.0), Merged(k, pair.0, pair.1).scope)
    ensures SameGroups(Move(now, k, now[k], Merged(k, pair.0, pair.1)), rows, Merger(pair))
  {
    var to, f := Merged(k, pair.0, pair.1), Merger(pair);
    assert to != k && f(to) == f(k);
    var next := Move(now, k, now[k], to);
    forall a
      ensures Sum(next, Fiber(next, f, a)) == Sum(rows, Fiber(rows, f, a)) &&
              (Fiber(next, f, a) == {} <==> Fiber(rows, f, a) == {})
    {
      MoveConserves(now, k, to, f, a);
    }
  }

  /** A table whose keys `f` leaves alone is its own grouping. */
  lemma Grouped(after: Table, before: Table, f: Key -> Key)
    requires SameGroups(after, before, f) && forall k :: k in after ==> f(k) == k
    ensures IsGrouping(after, before, f)
  {
    forall a
      ensures a in after <==> Fiber(before, f, a) != {}
      ensures a in after ==> after[a] == Sum(before, Fiber(before, f, a))
    {
      if a in after {
        assert Fiber(after, f, a) == {a};
        SumWithout(after, {a}, a);
        assert {a} - {a} == {};
      } else {
        assert Fiber(after, f, a) == {};
      }
    }
  }

  lemma MergeGroups(rows: Table, pair: (string, string), order: seq<Key>)
    requires ReadsMatches(order, rows, pair.0) && NeverLoses(pair.0, pair.1)
    ensures IsGrouping(MoveAll(rows, rows, order, pair.0, pair.1), rows, Merger(pair))
  {
    StepsGroup(rows, pair, order, |order|);
    assert order[..|order|] == order;
    Grouped(MoveAll(rows, rows, order, pair.0, pair.1), rows, Merger(pair));
  }

  lemma {:induction false} SumUnion(rows: Table, a: set<Key>, b: set<Key>)
    requires a <= rows.Keys && b <= rows.Keys && a !! b
    ensures Sum(rows, a + b) == Add(Sum(rows, a), Sum(rows, b))
    decreases a
  {
    if a == {} {
      assert a + b == b;
    } else {
      var k :| k in a;
      SumWithout(rows, a, k);
      SumWithout(rows, a + b, k);
      assert a + b - {k} == (a - {k}) + b;
      SumUnion(rows, a - {k}, b);
    }
  }

  /** The rows `f` sends to one of these keys. */
  ghost function Sent(rows: Table, f: Key -> Key, keys: set<Key>): set<Key> {
    set k | k in rows && f(k) in keys
  }

  lemma {:induction false} SumOfSums(before: Table, mid: Table, f: Key -> Key, keys: set<Key>)
    requires IsGrouping(mid, before, f) && keys <= mid.Keys
    ensures Sum(mid, keys) == Sum(before, Sent(before, f, keys))
    decreases keys
  {
    if keys == {} {
      assert Sent(before, f, keys) == {};
    } else {
      var k :| k in keys;
      var rest := Sent(before, f, keys - {k});
      SumOfSums(before, mid, f, keys - {k});
      SumWithout(mid, keys, k);
      assert Sent(before, f, keys) == Fiber(before, f, k) + rest;
      SumUnion(before, Fiber(before, f, k), rest);
    }
  }

  /** A grouping of a grouping is one grouping. */
  lemma GroupingsCompose(before: Table, mid: Table, after: Table, f: Key -> Key, g: Key -> Key, h: Key -> Key)
    requires IsGrouping(mid, before, f) && IsGrouping(after, mid, g)
    requires forall k :: h(k) == g(f(k))
    ensures IsGrouping(after, before, h)
  {
    forall a
      ensures a in after <==> Fiber(before, h, a) != {}
      ensures a in after ==> after[a] == Sum(before, Fiber(before, h, a))
    {
      ComposedFiber(before, mid, f, g, h, a);
      SumOfSums(before, mid, f, Fiber(mid, g, a));
    }
  }

  lemma ComposedFiber(before: Table, mid: Table, f: Key -> Key, g: Key -> Key, h: Key -> Key, a: Key)
    requires IsGrouping(mid, before, f)
    requires forall k :: h(k) == g(f(k))
    ensures Fiber(before, h, a) == Sent(before, f, Fiber(mid, g, a))
    ensures Fiber(before, h, a) == {} <==> Fiber(mid, g, a) == {}
  {
    hide Sum;
    forall k | k in before ensures f(k) in mid {
      assert k in Fiber(before, f, f(k));
    }
    if Fiber(mid, g, a) != {} {
      var m :| m in Fiber(mid, g, a);
      assert m in mid && Fiber(before, f, m) != {};
      var k :| k in Fiber(before, f, m);
      assert k in Fiber(before, h, a);
    }
  }

  /** Where no pair of names loses, the whole upgrade leaves the original rows added up under the keys the
      mapping takes them to. */
  lemma {:induction false} UpgradeGroups(before: Table, mapping: seq<(string, string)>, after: Table)
    requires UpgradesTo(before, mapping, after)
    requires forall i :: 0 <= i < |mapping| ==> NeverLoses(mapping[i].0, mapping[i].1)
    ensures IsGrouping(after, before, Resolver(mapping))
    decreases |mapping|
  {
    if mapping == [] {
      Grouped(after, before, Resolver(mapping));
    } else {
      var rest, last := mapping[..|mapping| - 1], mapping[|mapping| - 1];
      var mid :| UpgradesTo(before, rest, mid) && Merges(mid, last.0, last.1, after);
      var order :| MergesTo(mid, last.0, last.1, order, after);
      UpgradeGroups(before, rest, mid);
      MergeGroups(mid, last, order);
      hide IsGrouping, UpgradesTo, Merges, MergesTo;
      GroupingsCompose(before, mid, after, Resolver(rest), Merger(last), Resolver(mapping));
    }
  }

  // ---- mappings whose names are not read again ------------------------------------------

  /** No subject has a wildcard but `_`, and no subject's pattern fits the end of any name. */
  predicate Settled(mapping: seq<(string, string)>) {
    && (forall i :: 0 <= i < |mapping| ==> Plain(mapping[i].0))
    && (forall i, j :: 0 <= i < |mapping| && 0 <= j < |mapping| ==> !Overlaps(mapping[j].0, mapping[i].1))
  }

  /** The first subject that selects the key. */
  function FirstTaker(mapping: seq<(string, string)>, k: Key): (r: Option<nat>)
    ensures r.Some? ==> r.value < |mapping| && Like(Pattern(mapping[r.value].0), k.scope)
    ensures forall j :: 0 <= j < (if r.Some? then r.value else |mapping|) ==> !Like(Pattern(mapping[j].0), k.scope)
  {
    if |mapping| == 0 then None
    else
      var earlier := FirstTaker(mapping[..|mapping| - 1], k);
      if earlier.Some? then earlier
      else if Like(Pattern(mapping[|mapping| - 1].0), k.scope) then Some(|mapping| - 1)
      else None
  }

  /** A settled mapping moves a key once at most: the first subject that selects it takes it. */
  lemma {:induction false} FirstSubjectTakes(mapping: seq<(string, string)>, n: nat, k: Key)
    requires Settled(mapping) && n <= |mapping|
    ensures Resolve(mapping[..n], k) ==
            match FirstTaker(mapping[..n], k)
            case None => k
            case Some(i) => Merged(k, mapping[i].0, mapping[i].1)
    decreases n
  {
    hide Like, Pattern, Settled, Merged;
    if n > 0 {
      FirstSubjectTakes(mapping, n - 1, k);
      OneMorePair(mapping, n, k);
      hide FirstTaker, Resolve;
      var earlier := FirstTaker(mapping[..n - 1], k);
      if earlier.Some? {
        NotTakenAgain(mapping, earlier.value, n - 1, k);
      }
    }
  }

  lemma OneMorePair(mapping: seq<(string, string)>, n: nat, k: Key)
    requires 0 < n <= |mapping|
    ensures Resolve(mapping[..n], k) == MergedTo(mapping[n - 1], Resolve(mapping[..n - 1], k))
    ensures FirstTaker(mapping[..n], k) ==
            if FirstTaker(mapping[..n - 1], k).Some? then FirstTaker(mapping[..n - 1], k)
            else if Like(Pattern(mapping[n - 1].0), k.scope) then Some(n - 1)
            else None
  {
    hide Like, Pattern, Merged;
    var now := mapping[..n];
    assert now[..|now| - 1] == mapping[..n - 1] && now[|now| - 1] == mapping[n - 1];
  }

  lemma NotTakenAgain(mapping: seq<(string, string)>, i: nat, j: nat, k: Key)
    requires Settled(mapping) && i < |mapping| && j < |mapping|
    ensures !Like(Pattern(mapping[j].0), Merged(k, mapping[i].0, mapping[i].1).scope)
  {
    MergedIsNotSelected(k, mapping[i].0, mapping[i].1, mapping[j].0);
    PlainMatches(Merged(k, mapping[i].0, mapping[i].1).scope, mapping[j].0);
  }

  /** Nothing is left where a mapped subject would select it. */
  lemma NothingLeftBehind(mapping: seq<(string, string)>, k: Key, j: nat)
    requires Settled(mapping) && j < |mapping|
    ensures !Like(Pattern(mapping[j].0), Resolve(mapping, k).scope)
  {
    FirstSubjectTakes(mapping, |mapping|, k);
    assert mapping[..|mapping|] == mapping;
    var taker := FirstTaker(mapping, k);
    if taker.Some? {
      NotTakenAgain(mapping, taker.value, j, k);
    }
    hide Like, Pattern, Settled, Merged, Resolve;
  }

  lemma SettledNeverLoses(mapping: seq<(string, string)>)
    requires Settled(mapping)
    ensures forall i :: 0 <= i < |mapping| ==> NeverLoses(mapping[i].0, mapping[i].1)
  {
    hide Plain, Overlaps;
  }

  lemma NothingSelectedIsLeft(before: Table, mapping: seq<(string, string)>, after: Table)
    requires Settled(mapping) && IsGrouping(after, before, Resolver(mapping))
    ensures forall k, i :: k in after && 0 <= i < |mapping| ==> !Like(Pattern(mapping[i].0), k.scope)
  {
    hide Like, Pattern, Settled, Resolve, Sum;
    forall k, i | k in after && 0 <= i < |mapping| ensures !Like(Pattern(mapping[i].0), k.scope) {
      var was :| was in Fiber(before, Resolver(mapping), k);
      NothingLeftBehind(mapping, was, i);
    }
  }

  // ---- the migration --------------------------------------------------------------------

  class BudgetUsage {
    var rows: Table

    /** The inner loop: every counter of one subject, in whatever order the query returns them. */
    method MergeSubject(subject: string, username: string) returns (ghost order: seq<Key>)
      modifies this
      ensures ReadsMatches(order, old(rows), subject)
      ensures rows == MoveAll(old(rows), old(rows), order, subject, username)
    {
      var snapshot := rows;
      var todo := set k | k in snapshot && Like(Pattern(subject), k.scope);
      ghost var matches := todo;
      order := [];
      while todo != {}
        invariant todo <= matches
        invariant forall k :: k in order <==> k in matches && k !in todo
        invariant forall i, j :: 0 <= i < j < |order| ==> order[i] != order[j]
        invariant rows == MoveAll(snapshot, snapshot, order, subject, username)
      {
        var k :| k in todo;
        rows := Move(rows, k, snapshot[k], Merged(k, subject, username));
        assert (order + [k])[..|order|] == order;
        order, todo := order + [k], todo - {k};
      }
    }

    /** The outer loop, over the observed mapping of subjects to names. */
    method Upgrade(mapping: seq<(string, string)>)
      modifies this
      ensures UpgradesTo(old(rows), mapping, rows)
      ensures (forall i :: 0 <= i < |mapping| ==> NeverLoses(mapping[i].0, mapping[i].1)) ==>
                && IsGrouping(rows, old(rows), Resolver(mapping))
                && forall u, p :: Total(rows, u, p) == Total(old(rows), u, p)
      ensures Settled(mapping) ==>
                && IsGrouping(rows, old(rows), Resolver(mapping))
                && forall k, i :: k in rows && 0 <= i < |mapping| ==> !Like(Pattern(mapping[i].0), k.scope)
    {
      for i := 0 to |mapping|
        invariant UpgradesTo(old(rows), mapping[..i], rows)
      {
        ghost var before := rows;
        var (subject, username) := mapping[i];
        ghost var order := MergeSubject(subject, username);
        assert MergesTo(before, subject, username, order, rows);
        OneMoreSubject(old(rows), mapping, i, before, rows);
      }
      assert mapping[..|mapping|] == mapping;
      hide UpgradesTo, IsGrouping, Like, Pattern, NeverLoses, Settled;
      if forall i :: 0 <= i < |mapping| ==> NeverLoses(mapping[i].0, mapping[i].1) {
        UpgradeGroups(old(rows), mapping, rows);
        forall u, p ensures Total(rows, u, p) == Total(old(rows), u, p) {
          UpgradeConserves(old(rows), mapping, rows, u, p);
        }
      }
      if Settled(mapping) {
        SettledNeverLoses(mapping);
        UpgradeGroups(old(rows), mapping, rows);
        NothingSelectedIsLeft(old(rows), mapping, rows);
      }
    }
  }
}
