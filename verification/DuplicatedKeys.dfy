/** The keys an environment file defines more than once, and how that reading of the file relates
    to the one that builds the dictionary. */
module DuplicatedKeys {
  import opened EnvFile
  import opened EnvGrammar
  import opened Text
  import opened Wrappers

  /** `key` is set on line `first` and again on line `again`, both counted from one. */
  datatype Duplicate = Duplicate(key: string, first: nat, again: nat)

  /** The key a line sets, by the reading that strips the line first. */
  function KeyAt(line: string): Option<string> {
    var stripped := Strip(line);
    if |stripped| == 0 || stripped[0] == '#' || '=' !in stripped then None
    else Some(Strip(stripped[..EqualsAt(stripped)]))
  }

  function Keys(lines: seq<string>): (keys: seq<Option<string>>)
    ensures |keys| == |lines|
    ensures forall i :: 0 <= i < |lines| ==> keys[i] == KeyAt(lines[i])
  {
    seq(|lines|, i requires 0 <= i < |lines| => KeyAt(lines[i]))
  }

  /** The number of the last line that sets each key. */
  function LastSeen(keys: seq<Option<string>>): map<string, nat> {
    if |keys| == 0 then map[]
    else
      var before := LastSeen(keys[..|keys| - 1]);
      match keys[|keys| - 1]
      case None => before
      case Some(key) => before[key := |keys|]
  }

  function Repeats(keys: seq<Option<string>>): seq<Duplicate> {
    if |keys| == 0 then []
    else
      var before := keys[..|keys| - 1];
      match keys[|keys| - 1]
      case None => Repeats(before)
      case Some(key) =>
        if key in LastSeen(before) then Repeats(before) + [Duplicate(key, LastSeen(before)[key], |keys|)]
        else Repeats(before)
  }

  /** One line more: its key is reported if it was seen, and is now seen on this line. */
  lemma OneMoreKey(keys: seq<Option<string>>, i: nat)
    requires i < |keys|
    ensures LastSeen(keys[..i + 1]) ==
            if keys[i].None? then LastSeen(keys[..i]) else LastSeen(keys[..i])[keys[i].value := i + 1]
    ensures Repeats(keys[..i + 1]) ==
            if keys[i].None? || keys[i].value !in LastSeen(keys[..i]) then Repeats(keys[..i])
            else Repeats(keys[..i]) + [Duplicate(keys[i].value, LastSeen(keys[..i])[keys[i].value], i + 1)]
  {
    var now := keys[..i + 1];
    assert now[..|now| - 1] == keys[..i];
  }

  lemma NoKeys(keys: seq<Option<string>>)
    requires |keys| == 0
    ensures LastSeen(keys) == map[] && Repeats(keys) == []
  {
  }

  method FindDuplicatedKeys(text: string) returns (found: seq<Duplicate>)
    ensures found == Repeats(Keys(SplitLines(text)))
  {
    var lines := SplitLines(text);
    ghost var keys := Keys(lines);
    var seen: map<string, nat> := map[];
    found := [];
    NoKeys(keys[..0]);
    hide LastSeen, Repeats, Strip, SplitLines;
    for i := 0 to |lines|
      invariant seen == LastSeen(keys[..i]) && found == Repeats(keys[..i])
    {
      OneMoreKey(keys, i);
      var stripped := Strip(lines[i]);
      if |stripped| == 0 || stripped[0] == '#' || '=' !in stripped {
        continue;
      }
      var key := Strip(stripped[..EqualsAt(stripped)]);
      if key in seen {
        found := found + [Duplicate(key, seen[key], i + 1)];
      }
      seen := seen[key := i + 1];
    }
    assert keys[..|lines|] == keys;
  }

  // ---- what is reported -----------------------------------------------------------------

  /** How many lines set a key. */
  function Definitions(keys: seq<Option<string>>): nat {
    if |keys| == 0 then 0
    else Definitions(keys[..|keys| - 1]) + if keys[|keys| - 1].Some? then 1 else 0
  }

  ghost function DistinctKeys(keys: seq<Option<string>>): set<string> {
    set o | o in keys && o.Some? :: o.value
  }

  /** Line `first` and line `again` set the same key, and no line between them does. */
  ghost predicate Consecutive(keys: seq<Option<string>>, d: Duplicate) {
    && 1 <= d.first < d.again <= |keys|
    && keys[d.first - 1] == Some(d.key) && keys[d.again - 1] == Some(d.key)
    && forall j :: d.first <= j < d.again - 1 ==> keys[j] != Some(d.key)
  }

  /** Line `n` sets the key and no later line does. */
  ghost predicate LastSetAt(keys: seq<Option<string>>, key: string, n: nat) {
    1 <= n <= |keys| && keys[n - 1] == Some(key) && forall j :: n <= j < |keys| ==> keys[j] != Some(key)
  }

  lemma StillLast(keys: seq<Option<string>>, key: string, n: nat)
    requires keys != [] && keys[|keys| - 1] != Some(key)
    requires LastSetAt(keys[..|keys| - 1], key, n)
    ensures LastSetAt(keys, key, n)
  {
    forall j | n <= j < |keys| ensures keys[j] != Some(key) {
      assert j < |keys| - 1 ==> keys[..|keys| - 1][j] == keys[j];
    }
  }

  lemma {:induction false} LastSeenIsLast(keys: seq<Option<string>>)
    ensures LastSeen(keys).Keys == DistinctKeys(keys)
    ensures forall k :: k in LastSeen(keys) ==> LastSetAt(keys, k, LastSeen(keys)[k])
  {
    if keys != [] {
      var before, last := keys[..|keys| - 1], keys[|keys| - 1];
      LastSeenIsLast(before);
      OneMoreDistinct(keys);
      hide LastSetAt, DistinctKeys;
      forall k | k in LastSeen(keys) ensures LastSetAt(keys, k, LastSeen(keys)[k]) {
        if last == Some(k) {
          LastHere(keys, k);
        } else {
          StillLast(keys, k, LastSeen(before)[k]);
        }
      }
    }
  }

  lemma LastHere(keys: seq<Option<string>>, key: string)
    requires keys != [] && keys[|keys| - 1] == Some(key)
    ensures LastSetAt(keys, key, |keys|)
  {
  }

  lemma OneMoreDistinct(keys: seq<Option<string>>)
    requires keys != []
    ensures var last := keys[|keys| - 1];
            DistinctKeys(keys) == DistinctKeys(keys[..|keys| - 1]) + (if last.Some? then {last.value} else {})
  {
    assert keys == keys[..|keys| - 1] + [keys[|keys| - 1]];
  }

  /** As many reports as there are definitions beyond the first of each key. */
  lemma {:induction false} DuplicatesCounted(keys: seq<Option<string>>)
    ensures |Repeats(keys)| + |DistinctKeys(keys)| == Definitions(keys)
  {
    if keys == [] {
      assert DistinctKeys(keys) == {};
    } else {
      var before, last := keys[..|keys| - 1], keys[|keys| - 1];
      DuplicatesCounted(before);
      LastSeenIsLast(before);
      OneMoreDistinct(keys);
      hide LastSeen, DistinctKeys, LastSetAt;
      if last.Some? && last.value in DistinctKeys(before) {
        assert DistinctKeys(keys) == DistinctKeys(before);
      }
    }
  }

  /** Each report names two consecutive definitions of its key, and every such pair is reported. */
  lemma {:induction false} DuplicatesAreConsecutive(keys: seq<Option<string>>)
    ensures forall d :: d in Repeats(keys) <==> Consecutive(keys, d)
  {
    if keys != [] {
      var before, last := keys[..|keys| - 1], keys[|keys| - 1];
      DuplicatesAreConsecutive(before);
      LastSeenIsLast(before);
      forall d ensures d in Repeats(keys) <==> Consecutive(keys, d) {
        ConsecutiveStep(keys, d);
      }
    }
  }

  lemma ConsecutiveStep(keys: seq<Option<string>>, d: Duplicate)
    requires keys != []
    requires d in Repeats(keys[..|keys| - 1]) <==> Consecutive(keys[..|keys| - 1], d)
    ensures d in Repeats(keys) <==> Consecutive(keys, d)
  {
    var before := keys[..|keys| - 1];
    if d.again == |keys| {
      ConsecutiveWithLast(keys, d);
    } else {
      assert d in Repeats(keys) <==> d in Repeats(before);
      assert forall j :: 0 <= j < |before| ==> keys[j] == before[j];
    }
  }

  /** What the last line adds to the reports. */
  lemma ReportedLast(keys: seq<Option<string>>, d: Duplicate)
    requires keys != [] && d.again == |keys|
    requires d in Repeats(keys[..|keys| - 1]) ==> d.again < |keys|
    ensures var seen := LastSeen(keys[..|keys| - 1]);
            d in Repeats(keys) <==>
            keys[|keys| - 1] == Some(d.key) && d.key in seen && seen[d.key] == d.first
  {
    hide LastSeen;
  }

  lemma ConsecutiveWithLast(keys: seq<Option<string>>, d: Duplicate)
    requires keys != [] && d.again == |keys|
    requires d in Repeats(keys[..|keys| - 1]) <==> Consecutive(keys[..|keys| - 1], d)
    ensures d in Repeats(keys) <==> Consecutive(keys, d)
  {
    var before, last := keys[..|keys| - 1], keys[|keys| - 1];
    var seen := LastSeen(before);
    LastSeenIsLast(before);
    ReportedLast(keys, d);
    ConsecutiveIsLastSet(keys, d);
    hide LastSeen, Repeats, Consecutive;
    if last == Some(d.key) && LastSetAt(before, d.key, d.first) {
      assert before[d.first - 1] == Some(d.key);
      assert d.key in DistinctKeys(before);
      OneLastSet(before, d.key, d.first, seen[d.key]);
    }
  }

  lemma ConsecutiveIsLastSet(keys: seq<Option<string>>, d: Duplicate)
    requires keys != [] && d.again == |keys|
    ensures Consecutive(keys, d) <==>
            keys[|keys| - 1] == Some(d.key) && LastSetAt(keys[..|keys| - 1], d.key, d.first)
  {
    var before := keys[..|keys| - 1];
    assert forall j :: 0 <= j < |before| ==> keys[j] == before[j];
  }

  lemma OneLastSet(keys: seq<Option<string>>, key: string, m: nat, n: nat)
    requires LastSetAt(keys, key, m) && LastSetAt(keys, key, n)
    ensures m == n
  {
    NotSetAfter(keys, key, m, n);
    NotSetAfter(keys, key, n, m);
  }

  lemma NotSetAfter(keys: seq<Option<string>>, key: string, m: nat, n: nat)
    requires LastSetAt(keys, key, m) && 1 <= n <= |keys| && keys[n - 1] == Some(key)
    ensures n <= m
  {
  }

  /** Nothing is reported exactly when no key is set on two lines. */
  lemma NothingRepeated(keys: seq<Option<string>>)
    ensures Repeats(keys) == [] <==>
            forall i, j :: 0 <= i < j < |keys| && keys[i].Some? ==> keys[i] != keys[j]
  {
    DuplicatesAreConsecutive(keys);
    hide Repeats;
    if Repeats(keys) != [] {
      var d := Repeats(keys)[0];
      assert d in Repeats(keys) && Consecutive(keys, d);
      assert keys[d.first - 1] == keys[d.again - 1];
    }
    forall i, j | 0 <= i < j < |keys| && keys[i].Some? && keys[i] == keys[j] ensures Repeats(keys) != [] {
      SecondDefinitionReported(keys, i, j);
    }
  }

  lemma SecondDefinitionReported(keys: seq<Option<string>>, i: nat, j: nat)
    requires i < j < |keys| && keys[i].Some? && keys[i] == keys[j]
    ensures Repeats(keys) != []
  {
    hide Repeats;
    var d := Duplicate(keys[j].value, NearestBefore(keys, i, j) + 1, j + 1);
    assert Consecutive(keys, d);
    DuplicatesAreConsecutive(keys);
  }

  /** The last line before `j` that sets the key line `j` sets. */
  function NearestBefore(keys: seq<Option<string>>, i: nat, j: nat): (n: nat)
    requires i < j < |keys| && keys[i] == keys[j]
    ensures i <= n < j && keys[n] == keys[j]
    ensures forall k :: n < k < j ==> keys[k] != keys[j]
    decreases j
  {
    LastOf(keys, keys[j], j)
  }

  function LastOf(keys: seq<Option<string>>, key: Option<string>, end: nat): (n: nat)
    requires end <= |keys| && key in keys[..end]
    ensures n < end && keys[n] == key
    ensures forall k :: n < k < end ==> keys[k] != key
  {
    if keys[end - 1] == key then end - 1 else LastOf(keys, key, end - 1)
  }

  // ---- the two readings of a line -------------------------------------------------------

  lemma StripOfPrefix(line: string, stripped: string, at: nat)
    requires stripped == Strip(line)
    requires LeadingSpaces(line) <= at <= LeadingSpaces(line) + |stripped|
    ensures at <= |line|
    ensures Strip(stripped[..at - LeadingSpaces(line)]) == Strip(line[..at])
  {
    PrefixOfStrip(line, stripped, at);
    StripDropsLeading(line[..at], LeadingSpaces(line));
  }

  lemma PrefixOfStrip(line: string, stripped: string, at: nat)
    requires stripped == Strip(line)
    requires LeadingSpaces(line) <= at <= LeadingSpaces(line) + |stripped|
    ensures at <= |line|
    ensures stripped[..at - LeadingSpaces(line)] == line[..at][LeadingSpaces(line)..]
  {
    SliceOfSlice(line, LeadingSpaces(line), LeadingSpaces(line) + |stripped|, at);
  }

  lemma SliceOfSlice(s: string, from: nat, to: nat, at: nat)
    requires from <= at <= to <= |s|
    ensures s[from..][..to - from][..at - from] == s[..at][from..]
  {
  }

  lemma StripIsSlice(line: string)
    ensures var a := LeadingSpaces(line);
            && a + |Strip(line)| <= |line|
            && Strip(line) == line[a..a + |Strip(line)|]
            && forall i :: a + |Strip(line)| <= i < |line| ==> IsSpace(line[i])
  {
    var a, left := LeadingSpaces(line), StripLeft(line);
    var t := TrailingSpaces(left);
    hide LeadingSpaces, TrailingSpaces;
    SliceOfSlice(line, a, |line|, |line|);
    assert left[..t] == line[a..a + t];
    assert forall i :: t <= i < |left| ==> left[i] == line[a + i];
  }

  /** The dictionary's reader sees every line the duplicate check sees, under the same name; beyond
      those it only takes lines whose first ink is a `#` behind leading spaces. */
  lemma TwoReadings(line: string)
    ensures KeyAt(line) == if IsDefinition(line) && (DefinedName(line) == "" || DefinedName(line)[0] != '#')
                           then Some(DefinedName(line)) else None
  {
    var a, stripped, at := LeadingSpaces(line), Strip(line), EqualsAt(line);
    StripIsSlice(line);
    hide Strip, EqualsAt, LeadingSpaces;
    if at < |line| {
      assert a <= at < a + |stripped| by {
        assert !IsSpace('=');
      }
      assert stripped[at - a] == '=';
      assert EqualsAt(stripped) == at - a by {
        assert forall i :: 0 <= i < at - a ==> stripped[i] == line[a + i];
      }
      StripOfPrefix(line, stripped, at);
      assert KeyAt(line).Some? ==> KeyAt(line).value == Strip(line[..at]);
      HeadOfStrip(line, at);
    } else {
      assert '=' !in stripped by {
        assert forall c :: c in stripped ==> c in line;
      }
    }
  }

  /** A name that begins with a `#` is one whose line has it as its first ink. */
  lemma HeadOfStrip(line: string, at: nat)
    requires at < |line| && line[at] == '='
    ensures (Strip(line) != "" && Strip(line)[0] == '#' && LeadingSpaces(line) < at)
            <==> (Strip(line[..at]) != "" && Strip(line[..at])[0] == '#')
  {
    var a := LeadingSpaces(line);
    if a < at {
      assert LeadingSpaces(line[..at]) == a by {
        LeadingIs(line[..at], a);
      }
    } else {
      LeadingIs(line[..at], at);
    }
  }

  lemma LeadingIs(s: string, n: nat)
    requires n <= |s|
    requires forall i :: 0 <= i < n ==> IsSpace(s[i])
    requires n < |s| ==> !IsSpace(s[n])
    ensures LeadingSpaces(s) == n
  {
  }

  /** No two lines define one name. */
  ghost predicate DefinedOnce(lines: seq<string>) {
    forall i, j :: 0 <= i < j < |lines| && IsDefinition(lines[i]) && IsDefinition(lines[j]) ==>
      DefinedName(lines[i]) != DefinedName(lines[j])
  }

  /** No two lines define one name that starts with a `#`. */
  ghost predicate HashedOnce(lines: seq<string>) {
    forall i, j :: 0 <= i < j < |lines| && IsDefinition(lines[i]) && IsDefinition(lines[j])
                   && DefinedName(lines[i]) != "" && DefinedName(lines[i])[0] == '#' ==>
      DefinedName(lines[i]) != DefinedName(lines[j])
  }

  /** Silence, where no name that starts with a `#` is defined twice, means that every name is defined
      once, and only then. */
  lemma SilenceMeansDefinedOnce(lines: seq<string>)
    ensures Repeats(Keys(lines)) == [] && HashedOnce(lines) <==> DefinedOnce(lines)
  {
    var keys := Keys(lines);
    NothingRepeated(keys);
    hide Repeats, KeyAt, PairsOf, DefinedName, EqualsAt;
    forall i | 0 <= i < |lines|
      ensures keys[i] == if IsDefinition(lines[i]) && (DefinedName(lines[i]) == "" || DefinedName(lines[i])[0] != '#')
                         then Some(DefinedName(lines[i])) else None
    {
      TwoReadings(lines[i]);
    }
    if DefinedOnce(lines) {
      forall i, j | 0 <= i < j < |lines| && keys[i].Some? ensures keys[i] != keys[j] {
      }
    }
    if Repeats(keys) == [] && HashedOnce(lines) {
      forall i, j | 0 <= i < j < |lines| && IsDefinition(lines[i]) && IsDefinition(lines[j])
        ensures DefinedName(lines[i]) != DefinedName(lines[j])
      {
        assert keys[i].Some? ==> keys[i] != keys[j];
      }
    }
  }

  lemma SpacedComment(value: string)
    ensures IsDefinition(" #A=" + value) && KeyAt(" #A=" + value) == None
    ensures DefinedName(" #A=" + value) == "#A" && DefinedValue(" #A=" + value) == ReadEnvValue(value)
  {
    var line := " #A=" + value;
    assert line[0] == ' ' && line[1] == '#' && line[2] == 'A' && line[3] == '=';
    assert EqualsAt(line) == 3;
    assert line[..3][1..3] == "#A";
    StripBetween(line[..3], 1, 3);
    assert line[4..] == value;
    TwoReadings(line);
  }

  /** The two readings part on a commented line behind a space: the second value is taken and the
      duplicate check says nothing. */
  lemma SpacedCommentIsReadAndNotChecked(first: string, second: string)
    ensures Repeats(Keys([" #A=" + first, " #A=" + second])) == []
    ensures PairsOf([" #A=" + first, " #A=" + second]) == map["#A" := ReadEnvValue(second)]
  {
    var x, y := " #A=" + first, " #A=" + second;
    SpacedComment(first);
    SpacedComment(second);
    hide Repeats, KeyAt, IsDefinition, DefinedName, DefinedValue, ReadEnvValue, EqualsAt;
    PairsStep([], x);
    PairsStep([x], y);
    assert [] + [x] == [x] && [x] + [y] == [x, y];
    assert Repeats(Keys([x, y])) == [] by {
      NothingRepeated(Keys([x, y]));
    }
  }
}
