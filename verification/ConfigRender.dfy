/** Rendering a configuration document into environment settings. */
module ConfigRender {
  import EnvFile
  import Text
  import opened Wrappers

  /** A YAML value below a section. A number or date is carried as the text Python prints for it. */
  datatype Node =
    | Null
    | Flag(on: bool)
    | Scalar(text: string)
    | Items(items: seq<Node>)
    | Mapping(text: string)

  datatype Body = Absent | Settings(settings: seq<(string, Node)>) | NotAMapping

  datatype Document = Sections(sections: seq<(string, Body)>) | NotSections

  datatype ConfigError =
    | TopLevelNotAMapping
    | SectionNotAMapping(section: string)
    | TooDeep(section: string, key: string)
    | IsACredential(section: string, key: string, name: string)
    | NotYaml

  /** What the renderer takes from elsewhere: `str.upper`, and the list of credential names. */
  datatype Rules = Rules(upper: string -> string, credential: string -> bool)

  const VAULT_SECTION := "vault"
  const CORE_SECTION := "core"
  const DESCRIPTIVE_SECTION := "secrets"

  function ScalarText(value: Node): string {
    match value
    case Null => ""
    case Flag(on) => if on then "true" else "false"
    case Scalar(text) => text
    case Mapping(text) => text
    case Items(items) => JoinItems(items)
  }

  function JoinItems(items: seq<Node>): string {
    if |items| == 0 then ""
    else if |items| == 1 then ScalarText(items[0])
    else ScalarText(items[0]) + "," + JoinItems(items[1..])
  }

  function SettingName(section: string, key: string, rules: Rules): string {
    if section == VAULT_SECTION then rules.upper("VAULT_" + key)
    else if section == CORE_SECTION then rules.upper("AIRA_" + key)
    else rules.upper("AIRA_" + section + "_" + key)
  }

  /** What one value becomes: nothing is written for none, a flag is in lower case, and a list is its
      items' values with a comma wherever it is cut in two. */
  lemma {:induction false} ScalarWritten(items: seq<Node>, more: seq<Node>, item: Node, text: string)
    ensures ScalarText(Null) == "" && ScalarText(Flag(true)) == "true" && ScalarText(Flag(false)) == "false"
    ensures ScalarText(Scalar(text)) == ScalarText(Mapping(text)) == text
    ensures ScalarText(Items([])) == "" && ScalarText(Items([item])) == ScalarText(item)
    ensures items != [] && more != [] ==>
              ScalarText(Items(items + more)) == ScalarText(Items(items)) + "," + ScalarText(Items(more))
  {
    if items != [] && more != [] {
      assert (items + more)[1..] == items[1..] + more;
      if |items| > 1 {
        ScalarWritten(items[1..], more, item, text);
      }
    }
  }

  // ---- what a document says -------------------------------------------------------------

  /** One setting a document states, in the order the renderer meets it. */
  datatype Setting = Setting(section: string, key: string, value: Node)

  function SectionSettings(section: string, settings: seq<(string, Node)>): (r: seq<Setting>)
    ensures |r| == |settings|
    ensures forall i :: 0 <= i < |r| ==> r[i] == Setting(section, settings[i].0, settings[i].1)
  {
    seq(|settings|, i requires 0 <= i < |settings| => Setting(section, settings[i].0, settings[i].1))
  }

  function BodySettings(section: string, body: Body): seq<Setting> {
    if section == DESCRIPTIVE_SECTION || !body.Settings? then [] else SectionSettings(section, body.settings)
  }

  function SettingsOf(sections: seq<(string, Body)>): seq<Setting> {
    if |sections| == 0 then []
    else
      var last := sections[|sections| - 1];
      SettingsOf(sections[..|sections| - 1]) + BodySettings(last.0, last.1)
  }

  predicate Acceptable(s: Setting, rules: Rules) {
    !s.value.Mapping? && !rules.credential(SettingName(s.section, s.key, rules))
  }

  /** The settings written one after another, a later one of the same name replacing an earlier. */
  function Written(settings: seq<Setting>, rules: Rules): map<string, string> {
    if |settings| == 0 then map[]
    else
      var last := settings[|settings| - 1];
      Written(settings[..|settings| - 1], rules)[SettingName(last.section, last.key, rules) := ScalarText(last.value)]
  }

  ghost predicate AcceptableSection(section: string, body: Body, rules: Rules) {
    && (section == "secrets" || !body.NotAMapping?)
    && forall s :: s in BodySettings(section, body) ==> Acceptable(s, rules)
  }

  ghost predicate Renderable(document: Document, rules: Rules) {
    && document.Sections?
    && forall i :: 0 <= i < |document.sections| ==>
         AcceptableSection(document.sections[i].0, document.sections[i].1, rules)
  }

  /** Why a setting is refused, nesting before naming. */
  function RefusalOf(s: Setting, rules: Rules): Option<ConfigError> {
    if s.value.Mapping? then Some(TooDeep(s.section, s.key))
    else
      var name := SettingName(s.section, s.key, rules);
      if rules.credential(name) then Some(IsACredential(s.section, s.key, name)) else None
  }

  /** The first refusal among settings. */
  function FirstRefusal(settings: seq<Setting>, rules: Rules): Option<ConfigError> {
    if |settings| == 0 then None
    else
      var earlier := FirstRefusal(settings[..|settings| - 1], rules);
      if earlier.Some? then earlier else RefusalOf(settings[|settings| - 1], rules)
  }

  function SectionRefusal(section: string, body: Body, rules: Rules): Option<ConfigError> {
    if section != DESCRIPTIVE_SECTION && body.NotAMapping? then Some(SectionNotAMapping(section))
    else FirstRefusal(BodySettings(section, body), rules)
  }

  /** The first refusal in the order of the document. */
  function Refusal(sections: seq<(string, Body)>, rules: Rules): Option<ConfigError> {
    if |sections| == 0 then None
    else
      var earlier := Refusal(sections[..|sections| - 1], rules);
      var last := sections[|sections| - 1];
      if earlier.Some? then earlier else SectionRefusal(last.0, last.1, rules)
  }

  lemma {:induction false} NoRefusalIsAcceptable(settings: seq<Setting>, rules: Rules)
    ensures FirstRefusal(settings, rules).None? <==> forall s :: s in settings ==> Acceptable(s, rules)
  {
    if settings != [] {
      var before, last := settings[..|settings| - 1], settings[|settings| - 1];
      NoRefusalIsAcceptable(before, rules);
      assert RefusalOf(last, rules).None? <==> Acceptable(last, rules);
      assert settings == before + [last];
      assert forall s :: s in settings <==> s in before || s == last;
      hide Acceptable, RefusalOf;
    }
  }

  lemma SectionRenderable(section: string, body: Body, rules: Rules)
    ensures SectionRefusal(section, body, rules).None? <==> AcceptableSection(section, body, rules)
  {
    NoRefusalIsAcceptable(BodySettings(section, body), rules);
    hide FirstRefusal, BodySettings, Acceptable;
  }

  /** Nothing is refused exactly of a document made of mappings, in which no setting is itself a
      mapping and none carries a credential's name. */
  lemma {:induction false} RefusedUnlessRenderable(sections: seq<(string, Body)>, rules: Rules)
    ensures Refusal(sections, rules).None? <==> Renderable(Sections(sections), rules)
  {
    if sections != [] {
      var before, last := sections[..|sections| - 1], sections[|sections| - 1];
      RefusedUnlessRenderable(before, rules);
      SectionRenderable(last.0, last.1, rules);
      hide SectionRefusal, AcceptableSection;
      assert forall i :: 0 <= i < |before| ==> before[i] == sections[i];
    }
  }

  lemma {:induction false} RefusalStays(settings: seq<Setting>, i: nat, rules: Rules)
    requires i <= |settings| && FirstRefusal(settings[..i], rules).Some?
    ensures FirstRefusal(settings, rules) == FirstRefusal(settings[..i], rules)
    decreases |settings| - i
  {
    if i == |settings| {
      assert settings[..i] == settings;
    } else {
      assert settings[..i + 1][..i] == settings[..i];
      RefusalStays(settings, i + 1, rules);
    }
  }

  lemma {:induction false} DocumentRefusalStays(sections: seq<(string, Body)>, i: nat, rules: Rules)
    requires i <= |sections| && Refusal(sections[..i], rules).Some?
    ensures Refusal(sections, rules) == Refusal(sections[..i], rules)
    decreases |sections| - i
  {
    if i == |sections| {
      assert sections[..i] == sections;
    } else {
      assert sections[..i + 1][..i] == sections[..i];
      DocumentRefusalStays(sections, i + 1, rules);
    }
  }

  lemma WrittenStep(settings: seq<Setting>, last: Setting, rules: Rules)
    ensures Written(settings + [last], rules)
            == Written(settings, rules)[SettingName(last.section, last.key, rules) := ScalarText(last.value)]
  {
    assert (settings + [last])[..|settings|] == settings;
  }

  method RenderSection(section: string, settings: seq<(string, Node)>, before: map<string, string>,
                       ghost earlier: seq<Setting>, rules: Rules)
    returns (r: Result<map<string, string>, ConfigError>)
    requires before == Written(earlier, rules)
    ensures r == match FirstRefusal(SectionSettings(section, settings), rules)
                 case None => Ok(Written(earlier + SectionSettings(section, settings), rules))
                 case Some(error) => Err(error)
  {
    hide Written, ScalarText, SettingName;
    var out := before;
    ghost var mine := SectionSettings(section, settings);
    assert earlier + mine[..0] == earlier;
    for i := 0 to |settings|
      invariant out == Written(earlier + mine[..i], rules)
      invariant FirstRefusal(mine[..i], rules).None?
    {
      var (key, value) := settings[i];
      assert mine[..i + 1][..i] == mine[..i];
      assert FirstRefusal(mine[..i + 1], rules) == RefusalOf(mine[i], rules);
      if RefusalOf(mine[i], rules).Some? {
        RefusalStays(mine, i + 1, rules);
      }
      if value.Mapping? {
        return Err(TooDeep(section, key));
      }
      var name := SettingName(section, key, rules);
      if rules.credential(name) {
        return Err(IsACredential(section, key, name));
      }
      out := out[name := ScalarText(value)];
      WrittenStep(earlier + mine[..i], mine[i], rules);
      assert earlier + mine[..i + 1] == earlier + mine[..i] + [mine[i]];
    }
    assert mine[..|settings|] == mine;
    return Ok(out);
  }

  /** What a document renders to: its first refusal, or its settings, the last one of a name winning. */
  function Rendered(document: Document, rules: Rules): Result<map<string, string>, ConfigError> {
    if document.NotSections? then Err(TopLevelNotAMapping)
    else
      match Refusal(document.sections, rules)
      case Some(error) => Err(error)
      case None => Ok(Written(SettingsOf(document.sections), rules))
  }

  method Render(document: Document, rules: Rules) returns (r: Result<map<string, string>, ConfigError>)
    ensures r == Rendered(document, rules)
  {
    if document.NotSections? {
      return Err(TopLevelNotAMapping);
    }
    var out: map<string, string> := map[];
    var sections := document.sections;
    for i := 0 to |sections|
      invariant out == Written(SettingsOf(sections[..i]), rules)
      invariant Refusal(sections[..i], rules).None?
    {
      var (section, body) := sections[i];
      assert sections[..i + 1][..i] == sections[..i];
      assert SettingsOf(sections[..i + 1]) == SettingsOf(sections[..i]) + BodySettings(section, body);
      assert Refusal(sections[..i + 1], rules) == SectionRefusal(section, body, rules);
      if SectionRefusal(section, body, rules).Some? {
        DocumentRefusalStays(sections, i + 1, rules);
      }
      if section == DESCRIPTIVE_SECTION || body.Absent? {
        assert SettingsOf(sections[..i + 1]) == SettingsOf(sections[..i]);
        continue;
      }
      if body.NotAMapping? {
        return Err(SectionNotAMapping(section));
      }
      var extended := RenderSection(section, body.settings, out, SettingsOf(sections[..i]), rules);
      if extended.Err? {
        return extended;
      }
      out := extended.value;
    }
    assert sections[..|sections|] == sections;
    return Ok(out);
  }

  /** What a document renders to never holds a credential's name. */
  lemma {:induction false} NoCredentialRendered(sections: seq<(string, Body)>, rules: Rules)
    requires Renderable(Sections(sections), rules)
    ensures forall n :: n in Written(SettingsOf(sections), rules) ==> !rules.credential(n)
  {
    RenderedNames(SettingsOf(sections), rules);
    SettingsAcceptable(sections, rules);
  }

  lemma {:induction false} SettingsAcceptable(sections: seq<(string, Body)>, rules: Rules)
    requires Renderable(Sections(sections), rules)
    ensures forall s :: s in SettingsOf(sections) ==> Acceptable(s, rules)
  {
    if sections != [] {
      SettingsAcceptable(sections[..|sections| - 1], rules);
      var last := sections[|sections| - 1];
      assert AcceptableSection(last.0, last.1, rules);
    }
  }

  /** Each rendered name is some setting's, and no setting's name is dropped. */
  lemma {:induction false} RenderedNames(settings: seq<Setting>, rules: Rules)
    ensures Written(settings, rules).Keys == set s | s in settings :: SettingName(s.section, s.key, rules)
  {
    if settings != [] {
      var rest, last := settings[..|settings| - 1], settings[|settings| - 1];
      RenderedNames(rest, rules);
      assert settings == rest + [last];
      assert last in settings;
      assert forall s :: s in settings <==> s in rest || s == last;
    }
  }

  /** A setting's value is the file's unless a later setting has the same name. */
  lemma {:induction false} LastSettingWins(settings: seq<Setting>, i: nat, rules: Rules)
    requires i < |settings|
    requires forall j :: i < j < |settings| ==>
               SettingName(settings[j].section, settings[j].key, rules)
               != SettingName(settings[i].section, settings[i].key, rules)
    ensures var name := SettingName(settings[i].section, settings[i].key, rules);
            name in Written(settings, rules) && Written(settings, rules)[name] == ScalarText(settings[i].value)
  {
    if i < |settings| - 1 {
      LastSettingWins(settings[..|settings| - 1], i, rules);
    }
  }

  // ---- the names a document renders to --------------------------------------------------

  /** `str.upper` leaves the two prefixes, which are upper case already, as they are. */
  ghost predicate KeepsPrefixes(upper: string -> string) {
    forall s :: upper("AIRA_" + s) == "AIRA_" + upper(s) && upper("VAULT_" + s) == "VAULT_" + upper(s)
  }

  /** A name is its key's under the prefix of its section, upper case throughout. */
  lemma SettingNamed(section: string, key: string, rules: Rules)
    requires KeepsPrefixes(rules.upper)
    ensures SettingName("vault", key, rules) == "VAULT_" + rules.upper(key)
    ensures SettingName("core", key, rules) == "AIRA_" + rules.upper(key)
    ensures section != "vault" && section != "core" ==>
              SettingName(section, key, rules) == "AIRA_" + rules.upper(section + "_" + key)
  {
    assert "AIRA_" + section + "_" + key == "AIRA_" + (section + "_" + key);
  }

  /** What is left to ask of a rendered name: it starts with a letter, so only its end and what it
      holds can make it unreadable. */
  predicate EndsCleanly(name: string) {
    name != "" && !Text.IsSpace(name[|name| - 1]) && '=' !in name && Text.SeparatorFree(name)
  }

  lemma RenderedNameClean(section: string, key: string, rules: Rules)
    requires KeepsPrefixes(rules.upper)
    ensures EnvFile.CleanName(SettingName(section, key, rules)) <==> EndsCleanly(SettingName(section, key, rules))
  {
    var name := SettingName(section, key, rules);
    SettingNamed(section, key, rules);
    assert name[0] == 'A' || name[0] == 'V';
    hide SettingName, Text.SeparatorFree;
  }

  /** A rendered document is read back, and verifies clean, exactly when its names end cleanly and no
      value holds an exotic separator. */
  lemma RenderedValuesClean(settings: seq<Setting>, rules: Rules)
    requires KeepsPrefixes(rules.upper)
    ensures var values := Written(settings, rules);
            EnvFile.CleanValues(values) <==> forall n :: n in values ==> EndsCleanly(n) && Text.ExoticFree(values[n])
  {
    RenderedNames(settings, rules);
    forall n | n in Written(settings, rules) ensures EnvFile.CleanName(n) <==> EndsCleanly(n) {
      var s :| s in settings && SettingName(s.section, s.key, rules) == n;
      RenderedNameClean(s.section, s.key, rules);
    }
    hide Written, EnvFile.CleanName, EndsCleanly, Text.ExoticFree;
  }
}
