/** Whose counters a subject's merge takes, and where they end. */
module CounterOwners {
  import opened LikePatterns
  import opened MemberCounters
  import opened SingleRows

  /** The person is LIKE the subject, or is so behind a colon of their own. */
  predicate Takes(subject: string, person: string) {
    Like(subject, person) || exists i :: 0 <= i < |person| && person[i] == ':' && Like(subject, person[i + 1..])
  }

  /** In a use case, whose slug holds no colon, the query selects the rows of exactly the persons the
      subject takes, whatever the subject and the person hold. */
  lemma SelectsWhomItTakes(slug: string, person: string, subject: string, period: string)
    requires ':' !in slug
    ensures Like(Pattern(subject), MemberKey(slug, person, period).scope) <==> Takes(subject, person)
  {
    var scope, at := MemberKey(slug, person, period).scope, |MEMBER| + |slug|;
    PatternMatches(scope, subject);
    hide Like, Pattern, PartsAt;
    if i :| PartsAt(scope, subject, i) {
      PartsOfAPerson(slug, person, subject, i);
      assert i != at ==> person[i - at - 1] == ':' && Like(subject, person[(i - at - 1) + 1..]);
    }
    if Like(subject, person) {
      PartsOfAPerson(slug, person, subject, at);
    }
    if i :| 0 <= i < |person| && person[i] == ':' && Like(subject, person[i + 1..]) {
      PartsOfAPerson(slug, person, subject, at + 1 + i);
      assert PartsAt(scope, subject, at + 1 + i);
    }
  }

  /** The key parts behind its slug, and at the colons of the person. */
  lemma PartsOfAPerson(slug: string, person: string, subject: string, i: int)
    requires ':' !in slug
    ensures var at := |MEMBER| + |slug|;
            PartsAt(MEMBER + slug + ":" + person, subject, i) <==>
            if i == at then Like(subject, person)
            else at < i <= at + |person| && person[i - at - 1] == ':' && Like(subject, person[i - at..])
  {
    hide Like;
    KeyPieces(slug, person);
    if |MEMBER| + |slug| < i <= |MEMBER| + |slug| + |person| {
      BehindTheColon(slug, person, i);
    }
  }

  lemma KeyPieces(slug: string, person: string)
    requires ':' !in slug
    ensures var scope := MEMBER + slug + ":" + person;
            && MEMBER <= scope && scope[|MEMBER| + |slug|] == ':' && scope[|MEMBER| + |slug| + 1..] == person
            && forall i :: |MEMBER| <= i < |MEMBER| + |slug| ==> scope[i] != ':'
  {
    var scope := MEMBER + slug + ":" + person;
    assert forall i :: |MEMBER| <= i < |MEMBER| + |slug| ==> scope[i] in slug;
  }

  lemma BehindTheColon(slug: string, person: string, i: nat)
    requires |MEMBER| + |slug| < i < |MEMBER| + |slug| + 1 + |person|
    ensures var scope, j := MEMBER + slug + ":" + person, i - |MEMBER| - |slug| - 1;
            scope[i] == person[j] && scope[i + 1..] == person[j + 1..]
  {
  }

  /** No subject selects its own rows and no others: whoever is known under an issuer, a colon and what
      the subject matches is taken for it. */
  lemma NeverOnlyItsOwn(subject: string, slug: string)
    requires ':' !in slug
    ensures exists person :: !(Like(Pattern(subject), MemberKey(slug, person, "").scope) <==> person == subject)
  {
    var person := subject;
    if !Dangling(subject) {
      var t := Shortest(subject);
      ShortestMatches(subject);
      person := if subject == "f:" + t then "g:" + t else "f:" + t;
      assert person[1] == ':' && person[2..] == t && person != subject;
      assert Takes(subject, person);
    } else if Takes(subject, subject) {
      DanglingTakesNobody(subject, subject);
    }
    SelectsWhomItTakes(slug, person, subject, "");
  }

  lemma DanglingTakesNobody(subject: string, person: string)
    requires Dangling(subject)
    ensures !Takes(subject, person)
  {
    DanglingMatchesNothing(subject, person);
    forall i | 0 <= i < |person| && person[i] == ':' ensures !Like(subject, person[i + 1..]) {
      DanglingMatchesNothing(subject, person[i + 1..]);
    }
  }

  /** Among persons whose names hold no colon a subject takes its own rows and no others exactly when it
      holds no wildcard and no escape, or a colon, in which case it takes nobody's there. */
  lemma OnlyItsOwnExactlyWhen(subject: string)
    ensures (forall slug, person :: ':' !in slug && ':' !in person ==>
               (Like(Pattern(subject), MemberKey(slug, person, "").scope) <==> person == subject))
            <==> Literal(subject) || ':' in subject
  {
    forall slug, person | ':' !in slug && ':' !in person
      ensures Like(Pattern(subject), MemberKey(slug, person, "").scope) <==> Like(subject, person)
    {
      SelectsWhomItTakes(slug, person, subject, "");
    }
    if Literal(subject) || ':' in subject {
      forall person | ':' !in person ensures Like(subject, person) <==> person == subject {
        ReadAsItself(subject, person);
      }
    } else {
      var person := Misread(subject);
      assert !(Like(Pattern(subject), MemberKey("", person, "").scope) <==> person == subject);
    }
  }

  lemma ReadAsItself(subject: string, person: string)
    requires (Literal(subject) || ':' in subject) && ':' !in person
    ensures Like(subject, person) <==> person == subject
  {
    if Literal(subject) {
      LikePlain(subject, person);
      LiteralFits(subject, person);
    } else if Like(subject, person) {
      ColonNeeded(subject, person);
    }
  }

  lemma {:induction false} ColonNeeded(pattern: string, s: string)
    requires ':' in pattern && Like(pattern, s)
    ensures ':' in s
    decreases |pattern| + |s|
  {
    assert pattern == [pattern[0]] + pattern[1..];
    if pattern[0] == '%' {
      if Like(pattern[1..], s) {
        ColonNeeded(pattern[1..], s);
      } else {
        ColonNeeded(pattern, s[1..]);
      }
    } else if pattern[0] == '\\' {
      assert pattern == [pattern[0], pattern[1]] + pattern[2..];
      if pattern[1] != ':' {
        ColonNeeded(pattern[2..], s[1..]);
      }
    } else if pattern[0] != ':' {
      ColonNeeded(pattern[1..], s[1..]);
    }
  }

  /** A person without a colon whom a subject with a wildcard or an escape takes for itself, or itself
      when it matches nothing. */
  lemma Misread(subject: string) returns (person: string)
    requires !Literal(subject) && ':' !in subject
    ensures ':' !in person && !(Like(subject, person) <==> person == subject)
  {
    if Dangling(subject) {
      person := subject;
      DanglingMatchesNothing(subject, subject);
    } else if Plain(subject) {
      var i :| 0 <= i < |subject| && subject[i] == '_';
      person := subject[i := 'a'];
      LikePlain(subject, person);
    } else {
      person := Shortest(subject);
      ShortestMatches(subject);
      ShortestLetters(subject);
    }
  }

  lemma {:induction false} ShortestLetters(pattern: string)
    requires !Dangling(pattern)
    ensures forall c :: c in Shortest(pattern) ==> c in pattern
  {
    if pattern != "" {
      ShortestLetters(if pattern[0] == '\\' then pattern[2..] else pattern[1..]);
    }
  }

  // ---- where the counters end -----------------------------------------------------------

  /** With no wildcard but `_`: the person, or the person behind a colon, fits the subject. */
  predicate TailFits(subject: string, person: string) {
    && |subject| <= |person| && Fits(subject, person[|person| - |subject|..])
    && (|person| == |subject| || person[|person| - |subject| - 1] == ':')
  }

  lemma PlainTakes(subject: string, person: string)
    requires Plain(subject)
    ensures Takes(subject, person) <==> TailFits(subject, person)
  {
    hide Like, Plain;
    LikePlain(subject, person);
    assert |person| == |subject| ==> person[|person| - |subject|..] == person;
    if i :| 0 <= i < |person| && person[i] == ':' && Like(subject, person[i + 1..]) {
      LikePlain(subject, person[i + 1..]);
      assert i == |person| - |subject| - 1;
    }
    if TailFits(subject, person) && |person| > |subject| {
      var i := |person| - |subject| - 1;
      LikePlain(subject, person[i + 1..]);
    }
  }

  /** The row of a person taken is selected, and what is cut out as its slug runs up to the colon the
      subject was found behind. */
  lemma CutAtTheSubject(slug: string, person: string, subject: string, period: string)
    requires TailFits(subject, person)
    ensures Selected(MemberKey(slug, person, period).scope, subject)
    ensures Slug(MemberKey(slug, person, period).scope, subject) ==
            if |person| == |subject| then slug else slug + ":" + person[..|person| - |subject| - 1]
  {
    var n := |person| - |subject|;
    if n == 0 {
      assert person[n..] == person;
      KeyOf(slug, person, subject, period);
    } else {
      var front := slug + ":" + person[..n - 1];
      assert person == person[..n - 1] + (":" + person[n..]);
      assert MEMBER + slug + ":" + person == MEMBER + front + ":" + person[n..];
      KeyOf(front, person[n..], subject, period);
    }
  }

  /** The split that is to recover the slug does so exactly when the person is no longer than the subject. */
  lemma SplitExactlyWhen(slug: string, person: string, subject: string, period: string)
    requires TailFits(subject, person)
    ensures Slug(MemberKey(slug, person, period).scope, subject) == slug <==> |person| == |subject|
  {
    CutAtTheSubject(slug, person, subject, period);
  }

  /** The row of a person taken has one outcome: what they are known by before the subject, colon
      included, followed by the mapped name. It is lost when that is their own key. */
  lemma TakenSpendMoves(slug: string, person: string, subject: string, username: string, period: string)
    requires Plain(subject) && TailFits(subject, person)
    ensures var k, n := MemberKey(slug, person, period), |person| - |subject|;
            forall after :: Merges(map[k := ONE], subject, username, after) <==>
              after == if person[n..] == username then map[]
                       else map[MemberKey(slug, person[..n] + username, period) := ONE]
  {
    var k, n := MemberKey(slug, person, period), |person| - |subject|;
    var to := MemberKey(slug, person[..n] + username, period);
    CutAtTheSubject(slug, person, subject, period);
    PlainMatches(k.scope, subject);
    OneRowMerges(k, subject, username);
    MergedKey(slug, person, subject, username, period);
    hide Like, Pattern, Merges, Merged, Selected, TailFits, Plain;
    assert person == person[..n] + person[n..];
    SameKeyExactlyWhen(slug, person[..n], person[n..], username, period);
    assert Move(map[k := ONE], k, ONE, to) == if person[n..] == username then map[] else map[to := ONE];
  }

  lemma MergedKey(slug: string, person: string, subject: string, username: string, period: string)
    requires TailFits(subject, person)
    ensures Merged(MemberKey(slug, person, period), subject, username)
            == MemberKey(slug, person[..|person| - |subject|] + username, period)
  {
    var n := |person| - |subject|;
    CutAtTheSubject(slug, person, subject, period);
    hide Slug, TailFits;
    if n > 0 {
      assert person[..n] == person[..n - 1] + ":";
      Regrouped(slug, person[..n - 1], username);
    } else {
      assert person[..n] + username == username;
    }
  }

  lemma Regrouped(slug: string, front: string, username: string)
    ensures MEMBER + (slug + ":" + front) + ":" + username == MEMBER + slug + ":" + (front + ":" + username)
  {
  }

  lemma SameKeyExactlyWhen(slug: string, front: string, a: string, b: string, period: string)
    ensures MemberKey(slug, front + a, period) == MemberKey(slug, front + b, period) <==> a == b
  {
    var x, y := MEMBER + slug + ":" + (front + a), MEMBER + slug + ":" + (front + b);
    var n := |MEMBER + slug + ":" + front|;
    assert x[n..] == a && y[n..] == b;
  }
}
