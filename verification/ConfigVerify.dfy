/** Comparing a rendered environment file with its source: the file-against-source half of `verify`. */
module ConfigVerify {
  import opened ConfigRender
  import opened DuplicatedKeys
  import opened EnvFile
  import opened Text
  import opened Wrappers

  datatype SourceFile = SourceFile(document: Result<Document, ConfigError>, digest: string)

  datatype Problem =
    | Duplicated(duplicate: Duplicate)
    | SourceChanged
    | Missing(name: string)
    | Edited(name: string, want: string, got: string)
    | Appended(name: string)

  datatype Report =
    | NothingRendered
    | HandMade(duplicates: seq<Duplicate>)
    | Replaced
    | SourceGone(duplicates: seq<Duplicate>, source: string)
    | NoDigestStamp  // the source stamp is there and the digest line is not: an IndexError
    | Unrenderable(error: ConfigError)
    | Compared(problems: seq<Problem>)

  /** The text behind the colon of the first line that starts with `stamp`. */
  function StampIn(lines: seq<string>, stamp: string): Option<string> {
    if |lines| == 0 then None
    else if StartsWith(lines[0], stamp) then Some(Strip(lines[0][|stamp|..]))
    else StampIn(lines[1..], stamp)
  }

  ghost predicate IsFirst(lines: seq<string>, stamp: string, i: nat) {
    i < |lines| && StartsWith(lines[i], stamp) && forall j :: 0 <= j < i ==> !StartsWith(lines[j], stamp)
  }

  /** The first line that starts with the stamp has this behind it, spaces around aside. */
  ghost predicate IsStamped(lines: seq<string>, stamp: string, value: string) {
    exists i: nat :: IsFirst(lines, stamp, i) && value == Strip(lines[i][|stamp|..])
  }

  lemma FirstShifted(lines: seq<string>, stamp: string, i: nat)
    requires lines != [] && !StartsWith(lines[0], stamp)
    ensures IsFirst(lines, stamp, i + 1) <==> IsFirst(lines[1..], stamp, i)
    ensures !IsFirst(lines, stamp, 0)
  {
    hide StartsWith;
    assert i + 1 < |lines| ==> lines[i + 1] == lines[1..][i];
    assert forall j :: 0 < j < i + 1 && j < |lines| ==> lines[j] == lines[1..][j - 1];
    assert forall j :: 0 <= j < i && j < |lines| - 1 ==> lines[1..][j] == lines[j + 1];
  }

  /** That is what the loop over the lines finds. */
  lemma {:induction false} StampExactly(lines: seq<string>, stamp: string, value: string)
    ensures StampIn(lines, stamp) == Some(value) <==> IsStamped(lines, stamp, value)
  {
    if lines != [] {
      if StartsWith(lines[0], stamp) {
        assert IsFirst(lines, stamp, 0);
        assert forall i: nat :: IsFirst(lines, stamp, i) ==> i == 0;
      } else {
        StampExactly(lines[1..], stamp, value);
        forall i: nat ensures IsFirst(lines, stamp, i + 1) <==> IsFirst(lines[1..], stamp, i) {
          FirstShifted(lines, stamp, i);
        }
        FirstShifted(lines, stamp, 0);
        StampShifted(lines, stamp, value);
      }
    }
    hide StartsWith, Strip, IsFirst;
  }

  lemma StampShifted(lines: seq<string>, stamp: string, value: string)
    requires lines != [] && !IsFirst(lines, stamp, 0)
    requires forall i: nat :: IsFirst(lines, stamp, i + 1) <==> IsFirst(lines[1..], stamp, i)
    ensures IsStamped(lines, stamp, value) <==> IsStamped(lines[1..], stamp, value)
  {
    hide Strip;
    if IsStamped(lines, stamp, value) {
      var i: nat :| IsFirst(lines, stamp, i) && value == Strip(lines[i][|stamp|..]);
      assert IsFirst(lines[1..], stamp, i - 1) && lines[1..][i - 1] == lines[i];
    }
    if IsStamped(lines[1..], stamp, value) {
      var i: nat :| IsFirst(lines[1..], stamp, i) && value == Strip(lines[1..][i][|stamp|..]);
      assert IsFirst(lines, stamp, i + 1) && lines[1..][i] == lines[i + 1];
    }
  }

  /** What a comparison takes from the file: its duplicates, its digest stamp and its pairs. */
  datatype Reading = Reading(duplicates: seq<Duplicate>, stamped: Option<string>, present: map<string, string>)

  function ReadingOf(lines: seq<string>): Reading {
    Reading(Repeats(Keys(lines)), StampIn(lines, STAMP_DIGEST), PairsOf(lines))
  }

  /** What the problem list is about, one case per finding. */
  ghost predicate Holds(p: Problem, file: Reading, digest: string, rendered: map<string, string>) {
    match p
    case Duplicated(d) => d in file.duplicates
    case SourceChanged => file.stamped != Some(digest)
    case Missing(n) => n in rendered && n !in file.present
    case Edited(n, want, got) =>
      n in rendered && n in file.present && rendered[n] == want && file.present[n] == got && want != got
    case Appended(n) => n in file.present && n !in rendered
  }

  /** The file is what its source renders to, says so, and says nothing twice. */
  ghost predicate Faithful(file: Reading, digest: string, rendered: map<string, string>) {
    file.stamped == Some(digest) && file.duplicates == [] && file.present == rendered
  }

  /** No finding is possible exactly of a faithful file. */
  lemma SoundAndComplete(file: Reading, digest: string, rendered: map<string, string>)
    ensures (forall p :: !Holds(p, file, digest, rendered)) <==> Faithful(file, digest, rendered)
  {
    if forall p :: !Holds(p, file, digest, rendered) {
      assert !Holds(SourceChanged, file, digest, rendered);
      if file.duplicates != [] {
        assert Holds(Duplicated(file.duplicates[0]), file, digest, rendered);
      }
      forall n ensures n in rendered <==> n in file.present {
        assert !Holds(Missing(n), file, digest, rendered) && !Holds(Appended(n), file, digest, rendered);
      }
      forall n | n in rendered ensures rendered[n] == file.present[n] {
        assert !Holds(Edited(n, rendered[n], file.present[n]), file, digest, rendered);
      }
    }
  }

  function EachDuplicated(duplicates: seq<Duplicate>): seq<Problem> {
    seq(|duplicates|, i requires 0 <= i < |duplicates| => Duplicated(duplicates[i]))
  }

  lemma EachDuplicatedIs(duplicates: seq<Duplicate>)
    ensures forall p :: p in EachDuplicated(duplicates) <==> p.Duplicated? && p.duplicate in duplicates
  {
    forall d | d in duplicates ensures Duplicated(d) in EachDuplicated(duplicates) {
      var i :| 0 <= i < |duplicates| && duplicates[i] == d;
      assert EachDuplicated(duplicates)[i] == Duplicated(d);
    }
  }

  method CompareWithSource(file: Reading, digest: string, rendered: map<string, string>)
    returns (problems: seq<Problem>)
    ensures forall p :: p in problems <==> Holds(p, file, digest, rendered)
  {
    problems := EachDuplicated(file.duplicates);
    EachDuplicatedIs(file.duplicates);
    hide EachDuplicated;
    if file.stamped != Some(digest) {
      problems := problems + [SourceChanged];
    }
    var todo := rendered.Keys;
    while todo != {}
      invariant todo <= rendered.Keys
      invariant forall p :: p in problems <==> Holds(p, file, digest, rendered) && !p.Appended?
                                               && !(p.Missing? && p.name in todo) && !(p.Edited? && p.name in todo)
    {
      var name :| name in todo;
      if name !in file.present {
        problems := problems + [Missing(name)];
      } else if file.present[name] != rendered[name] {
        problems := problems + [Edited(name, rendered[name], file.present[name])];
      }
      todo := todo - {name};
    }
    var extra := file.present.Keys - rendered.Keys;
    while extra != {}
      invariant extra <= file.present.Keys - rendered.Keys
      invariant forall p :: p in problems <==> Holds(p, file, digest, rendered) && !(p.Appended? && p.name in extra)
    {
      var name :| name in extra;
      problems := problems + [Appended(name)];
      extra := extra - {name};
    }
  }

  /** `render(load(source))`. */
  function Expected(file: SourceFile, rules: Rules): Result<map<string, string>, ConfigError> {
    match file.document
    case Err(error) => Err(error)
    case Ok(document) => Rendered(document, rules)
  }

  /** `env` is the file's text if it exists, `marked` whether the marker file stands beside it, and
      `sources` the configuration files that can be read. */
  method Verify(env: Option<string>, marked: bool, sources: map<string, SourceFile>, rules: Rules)
    returns (report: Report)
    ensures env.Some? ==>
      var lines := SplitLines(env.value);
      var source := StampIn(lines, STAMP_SOURCE);
      && (source.None? ==> report == if marked then Replaced else HandMade(Repeats(Keys(lines))))
      && (source.Some? && source.value !in sources ==> report == SourceGone(Repeats(Keys(lines)), source.value))
      && (source.Some? && source.value in sources && StampIn(lines, STAMP_DIGEST).None? ==> report == NoDigestStamp)
      && (source.Some? && source.value in sources && StampIn(lines, STAMP_DIGEST).Some? ==>
            var file := sources[source.value];
            match Expected(file, rules)
            case Err(error) => report == Unrenderable(error)
            case Ok(rendered) =>
              && report.Compared?
              && (forall p :: p in report.problems <==> Holds(p, ReadingOf(lines), file.digest, rendered))
              && (report.problems == [] <==> Faithful(ReadingOf(lines), file.digest, rendered)))
    ensures env.None? ==> report == NothingRendered
  {
    if env.None? {
      return NothingRendered;
    }
    var text := env.value;
    var lines := SplitLines(text);
    var duplicates := FindDuplicatedKeys(text);
    var source := StampIn(lines, STAMP_SOURCE);
    if source.None? {
      return if marked then Replaced else HandMade(duplicates);
    }
    if source.value !in sources {
      return SourceGone(duplicates, source.value);
    }
    var stamped := StampIn(lines, STAMP_DIGEST);
    if stamped.None? {
      return NoDigestStamp;
    }
    var file := sources[source.value];
    if file.document.Err? {
      return Unrenderable(file.document.error);
    }
    var rendered := Render(file.document.value, rules);
    if rendered.Err? {
      return Unrenderable(rendered.error);
    }
    var present := EnvPairs(text);
    var reading := Reading(duplicates, stamped, present);
    var problems := CompareWithSource(reading, file.digest, rendered.value);
    SoundAndComplete(reading, file.digest, rendered.value);
    hide Holds, Faithful, Repeats, Keys, PairsOf, StampIn, SplitLines;
    assert problems != [] ==> problems[0] in problems;
    return Compared(problems);
  }

  // ---- a fresh file ---------------------------------------------------------------------

  lemma StampsOfFile(values: map<string, string>, order: seq<string>,
                     source: string, fileName: string, digest: string)
    requires Enumerates(order, values)
    requires SeparatorFree(source) && SeparatorFree(fileName) && SeparatorFree(digest)
    requires Trimmed(source) && Trimmed(digest)
    ensures var lines := SplitLines(Terminated(FileLines(values, order, source, fileName, digest)));
            && StampIn(lines, "# aira-config-source:") == Some(source)
            && StampIn(lines, "# aira-config-sha256:") == Some(digest)
  {
    var header, body := HeaderLines(source, fileName, digest), BodyLines(values, order);
    HeaderIsComments(source, fileName, digest);
    TerminatedConcat(header, body);
    SplitTerminated(header, Terminated(body));
    StampsInHeader(source, fileName, digest, SplitLines(Terminated(body)));
  }

  lemma StampsInHeader(source: string, fileName: string, digest: string, more: seq<string>)
    requires Trimmed(source) && Trimmed(digest)
    ensures StampIn(HeaderLines(source, fileName, digest) + more, STAMP_SOURCE) == Some(source)
    ensures StampIn(HeaderLines(source, fileName, digest) + more, STAMP_DIGEST) == Some(digest)
  {
    var first := GENERATED + fileName + BY_HAND;
    var second, third := STAMP_SOURCE + " " + source, STAMP_DIGEST + " " + digest;
    var rest := ["#", SECRETS, SECRET_ID, ""] + more;
    assert HeaderLines(source, fileName, digest) + more == [first] + ([COMPARES] + ([second] + ([third] + rest)));
    assert first[2] == 'G' && COMPARES[2] == '`' && STAMP_SOURCE[2] == 'a' && STAMP_DIGEST[2] == 'a';
    assert second[15] == 'o' && STAMP_DIGEST[15] == 'h';
    hide HeaderLines, StampIn;
    var stamps := [second] + ([third] + rest);
    StampAfter(first, [COMPARES] + stamps, STAMP_SOURCE);
    StampAfter(first, [COMPARES] + stamps, STAMP_DIGEST);
    StampAfter(COMPARES, stamps, STAMP_SOURCE);
    StampAfter(COMPARES, stamps, STAMP_DIGEST);
    StampHere(source, [third] + rest, STAMP_SOURCE);
    StampAfter(second, [third] + rest, STAMP_DIGEST);
    StampHere(digest, rest, STAMP_DIGEST);
  }

  lemma StampAfter(line: string, rest: seq<string>, stamp: string)
    requires exists i :: 0 <= i < |line| && i < |stamp| && line[i] != stamp[i]
    ensures StampIn([line] + rest, stamp) == StampIn(rest, stamp)
  {
    var i :| 0 <= i < |line| && i < |stamp| && line[i] != stamp[i];
    assert |stamp| <= |line| ==> line[..|stamp|][i] == line[i];
  }

  lemma StampHere(content: string, rest: seq<string>, stamp: string)
    requires Trimmed(content)
    ensures StampIn([stamp + " " + content] + rest, stamp) == Some(content)
  {
    var line := stamp + " " + content;
    assert line[..|stamp|] == stamp && line[|stamp|..] == " " + content;
    StripAfterSpace(content);
  }

  lemma StripAfterSpace(s: string)
    requires Trimmed(s)
    ensures Strip(" " + s) == s
  {
    StripTrims(s);
    StripDropsLeading(" " + s, 1);
    assert (" " + s)[1..] == s;
  }

  lemma FreshKeys(values: map<string, string>, order: seq<string>,
                  source: string, fileName: string, digest: string)
    requires Enumerates(order, values) && CleanValues(values)
    requires SeparatorFree(source) && SeparatorFree(fileName) && SeparatorFree(digest)
    ensures Repeats(Keys(FileLines(values, order, source, fileName, digest))) == []
  {
    var lines := FileLines(values, order, source, fileName, digest);
    var h := |HeaderLines(source, fileName, digest)|;
    hide Repeats, HeaderLines, BodyLines, KeyAt, Keys, CleanValues, SeparatorFree;
    assert |lines| == h + |order|;
    forall i, j | 0 <= i < j < |lines| && Keys(lines)[i].Some? ensures Keys(lines)[i] != Keys(lines)[j] {
      FreshKeyAt(values, order, source, fileName, digest, i);
      FreshKeyAt(values, order, source, fileName, digest, j);
    }
    NothingRepeated(Keys(lines));
  }

  lemma FreshKeyAt(values: map<string, string>, order: seq<string>,
                   source: string, fileName: string, digest: string, i: nat)
    requires Enumerates(order, values) && CleanValues(values)
    requires SeparatorFree(source) && SeparatorFree(fileName) && SeparatorFree(digest)
    requires i < |FileLines(values, order, source, fileName, digest)|
    ensures var h := |HeaderLines(source, fileName, digest)|;
            KeyAt(FileLines(values, order, source, fileName, digest)[i]) == if i < h then None else Some(order[i - h])
  {
    var header, body := HeaderLines(source, fileName, digest), BodyLines(values, order);
    if i < |header| {
      HeaderIsComments(source, fileName, digest);
      TwoReadings(header[i]);
    } else {
      var j := i - |header|;
      assert (header + body)[i] == body[j];
      assert order[j] in order;
      FreshKey(order[j], values[order[j]]);
    }
  }

  lemma FreshKey(name: string, value: string)
    requires CleanName(name)
    ensures KeyAt(BodyLine(name, value)) == Some(name)
  {
    ReadBodyLine(name, value);
    TwoReadings(BodyLine(name, value));
  }

  /** A file verified right after rendering is faithful exactly when every name is clean and no value
      holds an exotic separator. */
  lemma FreshFileIsFaithful(values: map<string, string>, order: seq<string>,
                            source: string, fileName: string, digest: string)
    requires Enumerates(order, values)
    requires SeparatorFree(source) && SeparatorFree(fileName) && SeparatorFree(digest)
    requires Trimmed(source) && Trimmed(digest)
    ensures var lines := SplitLines(Terminated(FileLines(values, order, source, fileName, digest)));
            && StampIn(lines, STAMP_SOURCE) == Some(source)
            && (Faithful(ReadingOf(lines), digest, values) <==> CleanValues(values))
  {
    StampsOfFile(values, order, source, fileName, digest);
    FileRoundTrip(values, order, source, fileName, digest);
    if CleanValues(values) {
      ReadableFile(values, order, source, fileName, digest);
      FreshKeys(values, order, source, fileName, digest);
    }
  }

  /** Rendering, and verifying what was written before anything else touches it: the report is silent
      exactly for clean names and values, and nothing is written of a document that is refused. */
  method RenderThenVerify(document: Document, order: seq<string>, source: string, fileName: string, digest: string,
                          sources: map<string, SourceFile>, marked: bool, rules: Rules)
    returns (report: Option<Report>)
    requires Rendered(document, rules).Ok? ==> Enumerates(order, Rendered(document, rules).value)
    requires SeparatorFree(source) && SeparatorFree(fileName) && SeparatorFree(digest)
    requires Trimmed(source) && Trimmed(digest)
    requires source in sources && sources[source] == SourceFile(Ok(document), digest)
    ensures report.Some? <==> Rendered(document, rules).Ok?
    ensures report.Some? ==> report.value.Compared?
                             && (report.value == Compared([]) <==> CleanValues(Rendered(document, rules).value))
  {
    var values := Render(document, rules);
    if values.Err? {
      return None;
    }
    var text := AsEnvFile(values.value, order, source, fileName, digest);
    FreshFileIsFaithful(values.value, order, source, fileName, digest);
    StampsOfFile(values.value, order, source, fileName, digest);
    hide Rendered, Faithful, CleanValues, StampIn, ReadingOf, SplitLines, FileLines, Holds;
    var found := Verify(Some(text), marked, sources, rules);
    return Some(found);
  }
}
