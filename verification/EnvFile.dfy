/** The rendered `.env` file as text: writing it, reading its pairs back, and when the two agree. */
module EnvFile {
  import opened EnvGrammar
  import opened Text

  const STAMP_SOURCE := "# aira-config-source:"
  const STAMP_DIGEST := "# aira-config-sha256:"

  // ---- writing --------------------------------------------------------------------------

  const GENERATED := "# Generated by " + "tools/config_render.py " + "from "
  const BY_HAND := ". Do not edit by " + "hand:"
  const COMPARES :=
    "# `--verify` " + "compares this file " + "with its source and "
    + "reports every " + "difference."
  const SECRETS :=
    "# Secrets are " + "deliberately " + "absent: they come "
    + "from HashiCorp " + "Vault, or \U{2014} for"
  const SECRET_ID :=
    "# the one " + "credential Vault " + "cannot supply \U{2014} "
    + "from " + "VAULT_SECRET_ID / " + "VAULT_SECRET_ID_FILE."

  /** The comment block every rendered file starts with. */
  function HeaderLines(source: string, fileName: string, digest: string): seq<string> {
    [ GENERATED + fileName + BY_HAND,
      COMPARES,
      STAMP_SOURCE + " " + source,
      STAMP_DIGEST + " " + digest,
      "#",
      SECRETS,
      SECRET_ID,
      "" ]
  }

  function BodyLine(name: string, value: string): string {
    name + "=" + EnvValue(value)
  }

  function BodyLines(values: map<string, string>, order: seq<string>): (lines: seq<string>)
    requires forall n :: n in order ==> n in values
    ensures |lines| == |order|
    ensures forall i :: 0 <= i < |order| ==> lines[i] == BodyLine(order[i], values[order[i]])
  {
    seq(|order|, i requires 0 <= i < |order| => BodyLine(order[i], values[order[i]]))
  }

  /** `order` lists every name of `values` once, as `sorted(values)` does. */
  ghost predicate Enumerates(order: seq<string>, values: map<string, string>) {
    && (forall n :: n in values <==> n in order)
    && (forall i, j :: 0 <= i < j < |order| ==> order[i] != order[j])
  }

  function FileLines(values: map<string, string>, order: seq<string>,
                     source: string, fileName: string, digest: string): seq<string>
    requires forall n :: n in order ==> n in values
  {
    HeaderLines(source, fileName, digest) + BodyLines(values, order)
  }

  /** `order` is whatever `sorted(values)` returns; nothing below depends on which order it is. */
  method AsEnvFile(values: map<string, string>, order: seq<string>,
                   source: string, fileName: string, digest: string) returns (text: string)
    requires Enumerates(order, values)
    ensures text == Terminated(FileLines(values, order, source, fileName, digest))
  {
    hide HeaderLines, BodyLine, Terminated;
    var lines := HeaderLines(source, fileName, digest);
    for i := 0 to |order|
      invariant lines == HeaderLines(source, fileName, digest) + BodyLines(values, order)[..i]
    {
      lines := lines + [BodyLine(order[i], values[order[i]])];
    }
    assert BodyLines(values, order)[..|order|] == BodyLines(values, order);
    text := Terminated(lines);
  }

  // ---- reading --------------------------------------------------------------------------

  /** Where the first `=` of a line stands, or its length. */
  function EqualsAt(line: string): (n: nat)
    ensures n <= |line|
    ensures forall i :: 0 <= i < n ==> line[i] != '='
    ensures n < |line| <==> '=' in line
    ensures n < |line| ==> line[n] == '='
  {
    if |line| == 0 then 0
    else if line[0] == '=' then 0
    else
      assert line == [line[0]] + line[1..];
      1 + EqualsAt(line[1..])
  }

  predicate IsDefinition(line: string) {
    line != "" && line[0] != '#' && '=' in line
  }

  function DefinedName(line: string): string
    requires IsDefinition(line)
  {
    Strip(line[..EqualsAt(line)])
  }

  function DefinedValue(line: string): string
    requires IsDefinition(line)
  {
    ReadEnvValue(line[EqualsAt(line) + 1..])
  }

  /** The dictionary the lines build up: a later line replaces an earlier one of the same name. */
  function PairsOf(lines: seq<string>): map<string, string> {
    if |lines| == 0 then map[]
    else
      var last := lines[|lines| - 1];
      var before := PairsOf(lines[..|lines| - 1]);
      if IsDefinition(last) then before[DefinedName(last) := DefinedValue(last)] else before
  }

  method EnvPairs(text: string) returns (out: map<string, string>)
    ensures out == PairsOf(SplitLines(text))
  {
    out := map[];
    var lines := SplitLines(text);
    for i := 0 to |lines|
      invariant out == PairsOf(lines[..i])
    {
      var line := lines[i];
      assert lines[..i + 1][..i] == lines[..i];
      if line == "" || line[0] == '#' || '=' !in line {
        continue;
      }
      var at := EqualsAt(line);
      out := out[Strip(line[..at]) := ReadEnvValue(line[at + 1..])];
    }
    assert lines[..|lines|] == lines;
  }

  // ---- what the two agree on ------------------------------------------------------------

  /** A name the reader hands back as it was written. */
  predicate CleanName(name: string) {
    && Trimmed(name) && '=' !in name && SeparatorFree(name)
    && (name == "" || name[0] != '#')
  }

  predicate CleanValues(values: map<string, string>) {
    forall n :: n in values ==> CleanName(n) && ExoticFree(values[n])
  }

  /** A name that survives being read, short of starting a comment. */
  predicate ReadableName(name: string) {
    Trimmed(name) && '=' !in name && SeparatorFree(name)
  }

  lemma JoinedByEquals(name: string, written: string)
    ensures var line := name + "=" + written;
            && line[|name|] == '=' && line[..|name|] == name && line[|name| + 1..] == written
            && forall i :: 0 <= i < |name| ==> line[i] == name[i] && name[i] in name
  {
  }

  lemma ReadBodyLine(name: string, value: string)
    requires ReadableName(name)
    ensures EqualsAt(BodyLine(name, value)) == |name|
    ensures IsDefinition(BodyLine(name, value)) <==> name == "" || name[0] != '#'
    ensures IsDefinition(BodyLine(name, value)) ==>
              DefinedName(BodyLine(name, value)) == name && DefinedValue(BodyLine(name, value)) == value
  {
    var line := BodyLine(name, value);
    JoinedByEquals(name, EnvValue(value));
    StripTrims(name);
    ReadWrite(value);
    hide EqualsAt, Strip, EnvValue, ReadEnvValue;
    assert EqualsAt(line) == |name|;
  }

  lemma {:induction false} PairsAfterHeader(header: seq<string>, body: seq<string>)
    requires forall i :: 0 <= i < |header| ==> !IsDefinition(header[i])
    ensures PairsOf(header + body) == PairsOf(body)
  {
    var all := header + body;
    if body != [] {
      assert all[..|all| - 1] == header + body[..|body| - 1];
      PairsAfterHeader(header, body[..|body| - 1]);
    } else if header != [] {
      assert all == header;
      PairsAfterHeader(header[..|header| - 1], []);
      assert header[..|header| - 1] + [] == header[..|header| - 1];
    }
  }

  function Uncommented(values: map<string, string>, order: seq<string>): map<string, string>
    requires forall n :: n in order ==> n in values
  {
    map n | n in order && (n == "" || n[0] != '#') :: values[n]
  }

  lemma UncommentedStep(values: map<string, string>, order: seq<string>, last: string)
    requires forall n :: n in order ==> n in values
    requires last in values
    ensures Uncommented(values, order + [last]) ==
            if |last| == 0 || last[0] != '#' then Uncommented(values, order)[last := values[last]]
            else Uncommented(values, order)
  {
  }

  lemma BodyStep(values: map<string, string>, order: seq<string>, last: string)
    requires forall n :: n in order ==> n in values
    requires last in values
    ensures BodyLines(values, order + [last]) == BodyLines(values, order) + [BodyLine(last, values[last])]
  {
  }

  lemma PairsStep(lines: seq<string>, last: string)
    ensures PairsOf(lines + [last]) ==
            if IsDefinition(last) then PairsOf(lines)[DefinedName(last) := DefinedValue(last)] else PairsOf(lines)
  {
    assert (lines + [last])[..|lines|] == lines;
  }

  /** Reading back readable names yields every one that does not start a comment, and nothing else. */
  lemma {:induction false} ReadBody(values: map<string, string>, order: seq<string>)
    requires forall n :: n in order ==> n in values && ReadableName(n)
    ensures PairsOf(BodyLines(values, order)) == Uncommented(values, order)
  {
    if order != [] {
      var rest, last := order[..|order| - 1], order[|order| - 1];
      assert last in order && order == rest + [last];
      ReadBody(values, rest);
      BodyStep(values, rest, last);
      PairsStep(BodyLines(values, rest), BodyLine(last, values[last]));
      ReadBodyLine(last, values[last]);
      UncommentedStep(values, rest, last);
    }
  }

  /** Whatever the lines say, a pair read from them has a readable name and a value on one line. */
  lemma {:induction false} PairsReadable(lines: seq<string>)
    requires forall i :: 0 <= i < |lines| ==> SeparatorFree(lines[i])
    ensures forall n :: n in PairsOf(lines) ==> ReadableName(n) && ExoticFree(PairsOf(lines)[n])
  {
    if lines != [] {
      var last := lines[|lines| - 1];
      PairsReadable(lines[..|lines| - 1]);
      if IsDefinition(last) {
        var at := EqualsAt(last);
        StripTrims(last[..at]);
        ReadFromOneLine(last[at + 1..]);
        SubstringSeparatorFree(DefinedName(last), last[..at]);
      }
    }
  }

  lemma SubstringSeparatorFree(s: string, whole: string)
    requires SeparatorFree(whole)
    requires forall c :: c in s ==> c in whole
    ensures SeparatorFree(s)
  {
    forall i | 0 <= i < |s| ensures !IsSeparator(s[i]) {
      assert s[i] in s;
      var j :| 0 <= j < |whole| && whole[j] == s[i];
    }
  }

  predicate IsComment(line: string) {
    |line| > 0 && line[0] == '#' && SeparatorFree(line)
  }

  lemma CommentGrows(comment: string, more: string)
    requires IsComment(comment) && SeparatorFree(more)
    ensures IsComment(comment + more) && !IsDefinition(comment + more)
  {
    SeparatorFreeConcat(comment, more);
  }

  lemma GeneratedIsComment()
    ensures IsComment(GENERATED) && !IsDefinition(GENERATED)
  {
    CommentGrows("# Generated by ", "tools/config_render.py ");
    CommentGrows("# Generated by " + "tools/config_render.py ", "from ");
  }

  lemma ByHandSeparatorFree()
    ensures SeparatorFree(BY_HAND)
  {
    SeparatorFreeConcat(". Do not edit by ", "hand:");
  }

  lemma ComparesIsComment()
    ensures IsComment(COMPARES) && !IsDefinition(COMPARES)
  {
    CommentGrows("# `--verify` ", "compares this file ");
    CommentGrows("# `--verify` " + "compares this file ", "with its source and ");
    CommentGrows("# `--verify` " + "compares this file " + "with its source and ", "reports every ");
    CommentGrows("# `--verify` " + "compares this file " + "with its source and " + "reports every ", "difference.");
  }

  lemma SecretsIsComment()
    ensures IsComment(SECRETS) && !IsDefinition(SECRETS)
  {
    CommentGrows("# Secrets are ", "deliberately ");
    CommentGrows("# Secrets are " + "deliberately ", "absent: they come ");
    CommentGrows("# Secrets are " + "deliberately " + "absent: they come ", "from HashiCorp ");
    CommentGrows("# Secrets are " + "deliberately " + "absent: they come " + "from HashiCorp ",
                 "Vault, or \U{2014} for");
  }

  lemma SecretIdIsComment()
    ensures IsComment(SECRET_ID) && !IsDefinition(SECRET_ID)
  {
    CommentGrows("# the one ", "credential Vault ");
    CommentGrows("# the one " + "credential Vault ", "cannot supply \U{2014} ");
    CommentGrows("# the one " + "credential Vault " + "cannot supply \U{2014} ", "from ");
    CommentGrows("# the one " + "credential Vault " + "cannot supply \U{2014} " + "from ", "VAULT_SECRET_ID / ");
    CommentGrows("# the one " + "credential Vault " + "cannot supply \U{2014} " + "from " + "VAULT_SECRET_ID / ",
                 "VAULT_SECRET_ID_FILE.");
  }

  lemma HeaderIsComments(source: string, fileName: string, digest: string)
    requires SeparatorFree(source) && SeparatorFree(fileName) && SeparatorFree(digest)
    ensures forall i :: 0 <= i < |HeaderLines(source, fileName, digest)| ==>
              && !IsDefinition(HeaderLines(source, fileName, digest)[i])
              && SeparatorFree(HeaderLines(source, fileName, digest)[i])
  {
    GeneratedIsComment();
    ByHandSeparatorFree();
    ComparesIsComment();
    SecretsIsComment();
    SecretIdIsComment();
    assert IsComment(STAMP_SOURCE + " ") && IsComment(STAMP_DIGEST + " ");
    assert IsComment("#") && !IsDefinition("#") && SeparatorFree("") && !IsDefinition("");
    assert IsComment(COMPARES) && SeparatorFree(COMPARES) && SeparatorFree(SECRETS) && SeparatorFree(SECRET_ID);
    hide SeparatorFree, IsDefinition;
    CommentGrows(GENERATED, fileName);
    CommentGrows(GENERATED + fileName, BY_HAND);
    CommentGrows(STAMP_SOURCE + " ", source);
    CommentGrows(STAMP_DIGEST + " ", digest);
  }

  /** A stamp free of line breaks leaves exactly this: the file reads back as the values it was
      written from if and only if every name is clean and no value holds an exotic separator. */
  lemma FileRoundTrip(values: map<string, string>, order: seq<string>,
                      source: string, fileName: string, digest: string)
    requires Enumerates(order, values)
    requires SeparatorFree(source) && SeparatorFree(fileName) && SeparatorFree(digest)
    ensures PairsOf(SplitLines(Terminated(FileLines(values, order, source, fileName, digest)))) == values
            <==> CleanValues(values)
  {
    var text := Terminated(FileLines(values, order, source, fileName, digest));
    LinesSeparatorFree(text);
    PairsReadable(SplitLines(text));
    if forall n :: n in values ==> ReadableName(n) && ExoticFree(values[n]) {
      ReadableFile(values, order, source, fileName, digest);
      UncommentedIsAll(values, order);
    }
  }

  lemma UncommentedIsAll(values: map<string, string>, order: seq<string>)
    requires Enumerates(order, values)
    requires forall n :: n in values ==> ReadableName(n) && ExoticFree(values[n])
    ensures Uncommented(values, order) == values <==> CleanValues(values)
  {
  }

  lemma ReadableFile(values: map<string, string>, order: seq<string>,
                     source: string, fileName: string, digest: string)
    requires Enumerates(order, values)
    requires SeparatorFree(source) && SeparatorFree(fileName) && SeparatorFree(digest)
    requires forall n :: n in values ==> ReadableName(n) && ExoticFree(values[n])
    ensures SplitLines(Terminated(FileLines(values, order, source, fileName, digest)))
            == FileLines(values, order, source, fileName, digest)
    ensures PairsOf(FileLines(values, order, source, fileName, digest)) == Uncommented(values, order)
  {
    var header, body := HeaderLines(source, fileName, digest), BodyLines(values, order);
    HeaderIsComments(source, fileName, digest);
    hide HeaderLines, BodyLine, Terminated, SplitLines, PairsOf, SeparatorFree;
    forall i | 0 <= i < |order| ensures SeparatorFree(body[i]) {
      assert order[i] in order;
      BodyLineSeparatorFree(order[i], values[order[i]]);
    }
    forall i | 0 <= i < |header + body| ensures SeparatorFree((header + body)[i]) {
      if |header| <= i {
        assert (header + body)[i] == body[i - |header|];
      }
    }
    SplitTerminated(header + body, "");
    assert Terminated(header + body) + "" == Terminated(header + body);
    PairsAfterHeader(header, body);
    ReadBody(values, order);
  }

  lemma BodyLineSeparatorFree(name: string, value: string)
    requires SeparatorFree(name) && ExoticFree(value)
    ensures SeparatorFree(BodyLine(name, value))
  {
    WrittenOnOneLine(value);
    SeparatorFreeConcat(name, "=");
    SeparatorFreeConcat(name + "=", EnvValue(value));
  }
}
