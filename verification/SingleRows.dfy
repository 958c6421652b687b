/** Tables of one row, and what one merge makes of them. */
module SingleRows {
  import opened LikePatterns
  import opened MemberCounters

  const ONE := Counters(1, 1, 1, 1)

  function MemberKey(slug: string, subject: string, period: string): Key {
    Key(MEMBER + slug + ":" + subject, period)
  }

  /** A person whose name fits the subject is selected, and what is cut out is the slug. */
  lemma KeyOf(slug: string, person: string, subject: string, period: string)
    requires Fits(subject, person)
    ensures Selected(MemberKey(slug, person, period).scope, subject)
    ensures Slug(MemberKey(slug, person, period).scope, subject) == slug
  {
    var scope := MEMBER + slug + ":" + person;
    assert scope == MEMBER + (slug + ":" + person) && scope == (MEMBER + slug) + (":" + person);
    assert scope[|scope| - |subject| - 1..] == ":" + person;
    FitsBehindColon(subject, ":" + person);
    assert (":" + person)[1..] == person;
    assert scope[|MEMBER|..|scope| - (|subject| + 1)] == slug;
  }

  lemma OneMove(k: Key, subject: string, username: string, to: Key)
    requires Merged(k, subject, username) == to
    ensures MoveAll(map[k := ONE], map[k := ONE], [k], subject, username) == Move(map[k := ONE], k, ONE, to)
  {
    assert [k][..0] == [];
  }

  lemma NothingElse(order: seq<Key>, k: Key)
    requires forall x :: x in order ==> x == k
    requires forall i, j :: 0 <= i < j < |order| ==> order[i] != order[j]
    ensures order == if k in order then [k] else []
  {
    forall i | 0 <= i < |order| ensures order[i] == k {
      assert order[i] in order;
    }
    if |order| > 1 {
      FirstTwoDiffer(order);
    } else if |order| == 1 {
      assert order == [k];
    }
  }

  lemma FirstTwoDiffer(order: seq<Key>)
    requires |order| > 1 && forall i, j :: 0 <= i < j < |order| ==> order[i] != order[j]
    ensures order[0] != order[1]
  {
  }

  /** A table of one row has one outcome. */
  lemma OneRowMerges(k: Key, subject: string, username: string)
    ensures var rows := map[k := ONE];
            forall after :: Merges(rows, subject, username, after) <==>
              after == if Like(Pattern(subject), k.scope) then Move(rows, k, ONE, Merged(k, subject, username))
                       else rows
  {
    var rows := map[k := ONE];
    var only := if Like(Pattern(subject), k.scope) then [k] else [];
    OneMove(k, subject, username, Merged(k, subject, username));
    assert ReadsMatches(only, rows, subject);
    assert MergesTo(rows, subject, username, only, MoveAll(rows, rows, only, subject, username));
    forall order: seq<Key> | ReadsMatches(order, rows, subject) ensures order == only {
      forall x | x in order ensures x == k {
      }
      NothingElse(order, k);
    }
  }
}
