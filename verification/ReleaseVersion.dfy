/** Release tags: one spelling for each version, compared by number. */
module ReleaseVersion {
  import opened Decimal
  import Text
  import opened Wrappers

  datatype Version = Version(major: nat, minor: nat, patch: nat)

  datatype VersionError = UnknownPart(part: string)

  const FIRST := Version(0, 1, 0)

  predicate IsPart(part: string) {
    part == "major" || part == "minor" || part == "patch"
  }

  /** Tuple comparison. */
  predicate Less(a: Version, b: Version) {
    || a.major < b.major
    || (a.major == b.major && a.minor < b.minor)
    || (a.major == b.major && a.minor == b.minor && a.patch < b.patch)
  }

  function Render(v: Version): string {
    "v" + Print(v.major) + "." + Print(v.minor) + "." + Print(v.patch)
  }

  /** Where the first dot stands, or the length. */
  function Dot(s: string): (n: nat)
    ensures n <= |s|
    ensures forall i :: 0 <= i < n ==> s[i] != '.'
    ensures n < |s| ==> s[n] == '.'
  {
    if |s| == 0 || s[0] == '.' then 0 else 1 + Dot(s[1..])
  }

  /** Three numerals with dots between, and nothing else. */
  function ParseTriple(first: string): Option<Version> {
    var d := Dot(first);
    if d == |first| then None
    else
      var second := first[d + 1..];
      var e := Dot(second);
      if e == |second| then None
      else
        var third := second[e + 1..];
        if IsNumeral(first[..d]) && IsNumeral(second[..e]) && IsNumeral(third)
        then Some(Version(Value(first[..d]), Value(second[..e]), Value(third)))
        else None
  }

  /** The triple a release tag names. */
  function Parse(tag: string): Option<Version> {
    var t := Text.Strip(tag);
    if |t| == 0 || t[0] != 'v' then None else ParseTriple(t[1..])
  }

  function Parsed(tags: seq<string>): (found: seq<Option<Version>>)
    ensures |found| == |tags| && forall i :: 0 <= i < |tags| ==> found[i] == Parse(tags[i])
  {
    seq(|tags|, i requires 0 <= i < |tags| => Parse(tags[i]))
  }

  /** `max` of those that are versions, or nothing. */
  function Greatest(found: seq<Option<Version>>): Option<Version> {
    if |found| == 0 then None
    else
      var before, last := Greatest(found[..|found| - 1]), found[|found| - 1];
      if last.None? || (before.Some? && !Less(before.value, last.value)) then before else last
  }

  /** The newest release among the tags, by number. */
  function Latest(tags: seq<string>): Option<Version> {
    Greatest(Parsed(tags))
  }

  function Bump(v: Version, part: string): Result<Version, VersionError> {
    if !IsPart(part) then Err(UnknownPart(part))
    else if part == "major" then Ok(Version(v.major + 1, 0, 0))
    else if part == "minor" then Ok(Version(v.major, v.minor + 1, 0))
    else Ok(Version(v.major, v.minor, v.patch + 1))
  }

  function NextVersion(tags: seq<string>, part: string): Result<Version, VersionError> {
    match Latest(tags)
    case None => if !IsPart(part) then Err(UnknownPart(part)) else Ok(FIRST)
    case Some(current) => Bump(current, part)
  }

  // ---- one spelling ---------------------------------------------------------------------

  lemma DotAfterNumeral(numeral: string, rest: string)
    requires IsNumeral(numeral)
    ensures Dot(numeral) == |numeral|
    ensures Dot(numeral + "." + rest) == |numeral|
    ensures (numeral + "." + rest)[..|numeral|] == numeral && (numeral + "." + rest)[|numeral| + 1..] == rest
  {
    var s := numeral + "." + rest;
    assert forall i :: 0 <= i < |numeral| ==> IsDigit(numeral[i]) && s[i] == numeral[i];
    assert s[|numeral|] == '.';
  }

  /** Digits and dots are not spaces, so a rendered version is trimmed. */
  lemma RenderTrimmed(v: Version)
    ensures Text.Trimmed(Render(v))
  {
    PrintIsNumeral(v.patch);
    var s := Print(v.patch);
    assert Render(v)[|Render(v)| - 1] == s[|s| - 1];
    assert IsDigit(s[|s| - 1]);
  }

  function RenderTriple(v: Version): string {
    Print(v.major) + "." + (Print(v.minor) + "." + Print(v.patch))
  }

  lemma ParseRenderedTriple(v: Version)
    ensures ParseTriple(RenderTriple(v)) == Some(v)
  {
    hide Print, IsNumeral, Value, Dot;
    PrintIsNumeral(v.major);
    PrintIsNumeral(v.minor);
    PrintIsNumeral(v.patch);
    DotAfterNumeral(Print(v.major), Print(v.minor) + "." + Print(v.patch));
    DotAfterNumeral(Print(v.minor), Print(v.patch));
  }

  lemma AroundDot(s: string, d: nat)
    requires d < |s| && s[d] == '.'
    ensures s == s[..d] + "." + s[d + 1..]
  {
  }

  lemma ParsedTripleRenders(s: string)
    requires ParseTriple(s).Some?
    ensures RenderTriple(ParseTriple(s).value) == s
  {
    var d := Dot(s);
    var second := s[d + 1..];
    var e := Dot(second);
    var v := ParseTriple(s).value;
    assert Print(v.major) == s[..d] && Print(v.minor) == second[..e] && Print(v.patch) == second[e + 1..] by {
      PrintOfValue(s[..d]);
      PrintOfValue(second[..e]);
      PrintOfValue(second[e + 1..]);
    }
    AroundDot(s, d);
    AroundDot(second, e);
  }

  lemma RenderIsTriple(v: Version)
    ensures Render(v) == "v" + RenderTriple(v) && Render(v)[1..] == RenderTriple(v)
  {
  }

  lemma RenderingParses(tag: string, v: Version)
    requires Text.Strip(tag) == Render(v)
    ensures Parse(tag) == Some(v)
  {
    RenderIsTriple(v);
    ParseRenderedTriple(v);
  }

  lemma ParsedIsRendering(tag: string)
    requires Parse(tag).Some?
    ensures Text.Strip(tag) == Render(Parse(tag).value)
  {
    var t := Text.Strip(tag);
    ParsedTripleRenders(t[1..]);
    RenderIsTriple(Parse(tag).value);
    assert t == "v" + t[1..];
  }

  /** A tag names a version exactly when, trimmed, it is that version's rendering. */
  lemma OneSpelling(tag: string, v: Version)
    ensures Parse(tag) == Some(v) <==> Text.Strip(tag) == Render(v)
  {
    if Parse(tag) == Some(v) {
      ParsedIsRendering(tag);
    }
    if Text.Strip(tag) == Render(v) {
      RenderingParses(tag, v);
    }
  }

  /** What is rendered is parsed back. */
  lemma ParseRender(v: Version)
    ensures Parse(Render(v)) == Some(v)
  {
    RenderTrimmed(v);
    Text.StripTrims(Render(v));
    RenderingParses(Render(v), v);
  }

  // ---- the next version -----------------------------------------------------------------

  /** The greatest is one of those found and none is greater; there is none if none was found. */
  lemma {:induction false} GreatestOfFound(found: seq<Option<Version>>)
    ensures Greatest(found).Some? ==> Greatest(found) in found
    ensures forall i :: 0 <= i < |found| && found[i].Some? ==>
              Greatest(found).Some? && !Less(Greatest(found).value, found[i].value)
  {
    if found != [] {
      GreatestOfFound(found[..|found| - 1]);
    }
  }

  /** The next version is ahead of every release there is, with everything less significant at zero,
      and no existing tag spells it; it is `v0.1.0` where nothing has been released. Asked for an unknown
      part there is none, released or not. */
  lemma NextIsAhead(tags: seq<string>, part: string)
    ensures NextVersion(tags, part).Ok? <==> IsPart(part)
    ensures IsPart(part) ==>
      var next := NextVersion(tags, part).value;
      && (forall i :: 0 <= i < |tags| ==> Text.Strip(tags[i]) != Render(next))
      && (forall i :: 0 <= i < |tags| && Parse(tags[i]).Some? ==> Less(Parse(tags[i]).value, next))
      && (Latest(tags).Some? ==> (part != "patch" ==> next.patch == 0) && (part == "major" ==> next.minor == 0))
      && ((forall tag :: tag in tags ==> Parse(tag).None?) ==> Render(next) == "v0.1.0")
  {
    GreatestOfFound(Parsed(tags));
    assert Latest(tags).Some? ==> exists i :: 0 <= i < |tags| && Parsed(tags)[i] == Latest(tags);
    assert Render(Version(0, 1, 0)) == "v0.1.0";
    if IsPart(part) {
      var next := NextVersion(tags, part).value;
      forall i | 0 <= i < |tags|
        ensures Text.Strip(tags[i]) != Render(next)
        ensures Parse(tags[i]).Some? ==> Less(Parse(tags[i]).value, next)
      {
        OneSpelling(tags[i], next);
      }
    }
  }

  /** Nothing is skipped: no version of the part's kind lies between the latest and the next. */
  lemma NextIsNearest(current: Version, part: string, between: Version)
    requires IsPart(part) && Less(current, between) && Less(between, Bump(current, part).value)
    ensures part != "patch"
    ensures between.patch > 0 || (part == "major" && between.minor > 0)
  {
  }
}
