/** The quoting grammar of a rendered `.env` file: one writer, one reader, and their round trip. */
module EnvGrammar {
  import opened Text

  // ---- the writer -----------------------------------------------------------------------

  /** What a value may hold and still be written without quotes. */
  predicate IsBareChar(c: char) {
    'A' <= c <= 'Z' || 'a' <= c <= 'z' || '0' <= c <= '9' || c in "_./:@%+=-"
  }

  predicate IsBare(value: string) {
    value != "" && forall i :: 0 <= i < |value| ==> IsBareChar(value[i])
  }

  /** Whether single quotes carry the value literally. */
  predicate FitsSingleQuotes(value: string) {
    && '\'' !in value && '\n' !in value && '\r' !in value
    && (value == "" || value[|value| - 1] != '\\')
  }

  function EscapeChar(c: char): string {
    match c
    case '\\' => "\\\\"
    case '\"' => "\\\""
    case '$' => "$$"
    case '\n' => "\\n"
    case '\r' => "\\r"
    case _ => [c]
  }

  function Escape(value: string): string {
    if |value| == 0 then "" else EscapeChar(value[0]) + Escape(value[1..])
  }

  function EnvValue(value: string): string {
    if IsBare(value) then value
    else if FitsSingleQuotes(value) then "'" + value + "'"
    else "\"" + Escape(value) + "\""
  }

  // ---- the reader -----------------------------------------------------------------------

  /** `str.replace("\\'", "'")`. */
  function UnescapeQuote(s: string): string {
    if |s| == 0 then ""
    else if |s| >= 2 && s[0] == '\\' && s[1] == '\'' then "'" + UnescapeQuote(s[2..])
    else [s[0]] + UnescapeQuote(s[1..])
  }

  predicate IsEscapable(c: char) {
    c == '\\' || c == '\"' || c == 'n' || c == 'r' || c == 't' || c == '$'
  }

  function UnescapedChar(c: char): char
    requires IsEscapable(c)
  {
    match c
    case 'n' => '\n'
    case 'r' => '\r'
    case 't' => '\t'
    case _ => c
  }

  /** The left-to-right substitution of `\x` escapes and of `$$` inside double quotes. */
  function Unescape(s: string): string {
    if |s| == 0 then ""
    else if |s| >= 2 && s[0] == '\\' && IsEscapable(s[1]) then [UnescapedChar(s[1])] + Unescape(s[2..])
    else if |s| >= 2 && s[0] == '$' && s[1] == '$' then "$" + Unescape(s[2..])
    else [s[0]] + Unescape(s[1..])
  }

  predicate Quoted(raw: string, quote: char) {
    |raw| >= 2 && raw[0] == quote && raw[|raw| - 1] == quote
  }

  function ReadEnvValue(raw: string): string {
    if Quoted(raw, '\'') then UnescapeQuote(raw[1..|raw| - 1])
    else if Quoted(raw, '\"') then Unescape(raw[1..|raw| - 1])
    else raw
  }

  // ---- Compose's reading ----------------------------------------------------------------

  /** Made of characters that are nothing special outside quotes. */
  ghost predicate IsPlain(value: string) {
    value != "" && forall c :: c in value ==> c in UPPER || c in LOWER || c in DIGITS || c in "_./:@%+=-"
  }

  /** Between quotes of this kind these letters are read as that character: between single quotes every
      character but the quote itself, between double quotes what is neither interpolated nor an escape. */
  ghost predicate IsToken(token: string, c: char, quote: char) {
    if quote == '\'' then (token == "\\'" && c == '\'') || (token == [c] && c !in "'\n\r")
    else
      || (token == [c] && c !in "\\\"$\n\r")
      || (c == '$' && token in {"$$", "\\$"}) || (c == '\\' && token == "\\\\")
      || (c == '\"' && token == "\\\"") || (c == '\n' && token == "\\n")
      || (c == '\r' && token == "\\r") || (c == '\t' && token == "\\t")
  }

  ghost predicate Tokens(inner: string, value: string, quote: char)
    decreases |value|
  {
    if value == "" then inner == ""
    else exists n :: 0 < n <= |inner| && IsToken(inner[..n], value[0], quote) && Tokens(inner[n..], value[1..], quote)
  }

  /** The text between two such quotes, the closing one not escaped. */
  ghost predicate QuotedAs(written: string, inner: string, value: string, quote: char) {
    written == [quote] + inner + [quote] && Tokens(inner, value, quote) &&
    (quote == '\'' && inner != "" ==> inner[|inner| - 1] != '\\')
  }

  /** How Compose reads the right-hand side of a line: as it stands where nothing in it is special, and
      otherwise what stands between single or double quotes. */
  ghost predicate ComposeReads(written: string, value: string) {
    || (written == value && IsPlain(value))
    || (exists inner :: QuotedAs(written, inner, value, '\''))
    || (exists inner :: QuotedAs(written, inner, value, '\"'))
  }

  lemma InAlphabet(letters: string, first: char, c: char)
    requires forall i :: 0 <= i < |letters| ==> letters[i] as int == first as int + i
    ensures c in letters <==> 0 <= c as int - first as int < |letters|
  {
    if 0 <= c as int - first as int < |letters| {
      assert letters[c as int - first as int] == c;
    }
  }

  lemma LettersAre(c: char)
    ensures 'A' <= c <= 'Z' <==> c in UPPER
    ensures 'a' <= c <= 'z' <==> c in LOWER
    ensures '0' <= c <= '9' <==> c in DIGITS
  {
    InOrder();
    hide UPPER, LOWER, DIGITS;
    InAlphabet(UPPER, 'A', c);
    InAlphabet(LOWER, 'a', c);
    InAlphabet(DIGITS, '0', c);
  }

  lemma BareExactly(value: string)
    ensures IsBare(value) <==> IsPlain(value)
  {
    forall c ensures IsBareChar(c) <==> c in UPPER || c in LOWER || c in DIGITS || c in "_./:@%+=-" {
      LettersAre(c);
    }
    hide IsBareChar;
  }

  lemma TokenFirst(token: string, rest: string, value: string, quote: char)
    requires value != "" && token != "" && IsToken(token, value[0], quote) && Tokens(rest, value[1..], quote)
    ensures Tokens(token + rest, value, quote)
  {
    var inner := token + rest;
    assert inner[..|token|] == token && inner[|token|..] == rest;
  }

  lemma {:induction false} LiteralTokens(value: string)
    requires '\'' !in value && '\n' !in value && '\r' !in value
    ensures Tokens(value, value, '\'')
  {
    if value != "" {
      LiteralTokens(value[1..]);
      TokenFirst([value[0]], value[1..], value, '\'');
      assert value == [value[0]] + value[1..];
    }
  }

  lemma {:induction false} EscapedTokens(value: string)
    ensures Tokens(Escape(value), value, '\"')
  {
    if value != "" {
      EscapedTokens(value[1..]);
      TokenFirst(EscapeChar(value[0]), Escape(value[1..]), value, '\"');
    }
  }

  /** Compose reads every value back as it was, whatever it holds. */
  lemma WrittenForCompose(value: string)
    ensures ComposeReads(EnvValue(value), value)
  {
    BareExactly(value);
    if !IsBare(value) {
      if FitsSingleQuotes(value) {
        LiteralTokens(value);
        assert QuotedAs(EnvValue(value), value, value, '\'');
      } else {
        EscapedTokens(value);
        assert QuotedAs(EnvValue(value), Escape(value), value, '\"');
      }
    }
  }

  lemma {:induction false} UnescapeQuoteReads(inner: string, value: string)
    requires Tokens(inner, value, '\'')
    ensures UnescapeQuote(inner) == value
    decreases |value|
  {
    if value != "" {
      var n :| 0 < n <= |inner| && IsToken(inner[..n], value[0], '\'') && Tokens(inner[n..], value[1..], '\'');
      UnescapeQuoteReads(inner[n..], value[1..]);
      if inner[n..] != "" {
        NoQuoteFirst(inner[n..], value[1..]);
      }
      LiteralRead(inner[..n], value[0], inner[n..]);
      hide IsToken, UnescapeQuote;
      assert inner == inner[..n] + inner[n..];
    }
  }

  lemma LiteralRead(token: string, c: char, tail: string)
    requires IsToken(token, c, '\'') && (tail == "" || tail[0] != '\'')
    ensures UnescapeQuote(token + tail) == [c] + UnescapeQuote(tail)
  {
    var s := token + tail;
    if |token| == 2 {
      assert s[2..] == tail && s[0] == token[0] && s[1] == token[1];
    } else {
      assert s[0] == c && s[1..] == tail && (tail != "" ==> s[1] == tail[0]);
    }
  }

  /** Between single quotes no piece starts with the quote. */
  lemma NoQuoteFirst(inner: string, value: string)
    requires Tokens(inner, value, '\'') && inner != ""
    ensures inner[0] != '\''
  {
  }

  lemma {:induction false} UnescapeReads(inner: string, value: string)
    requires Tokens(inner, value, '\"')
    ensures Unescape(inner) == value
    decreases |value|
  {
    if value != "" {
      var n :| 0 < n <= |inner| && IsToken(inner[..n], value[0], '\"') && Tokens(inner[n..], value[1..], '\"');
      UnescapeReads(inner[n..], value[1..]);
      TokenRead(inner[..n], value[0], inner[n..]);
      hide IsToken, Unescape;
      assert inner == inner[..n] + inner[n..];
    }
  }

  lemma TokenRead(token: string, c: char, tail: string)
    requires IsToken(token, c, '\"')
    ensures Unescape(token + tail) == [c] + Unescape(tail)
  {
    var s := token + tail;
    if |token| == 2 {
      assert s[2..] == tail && s[0] == token[0] && s[1] == token[1];
    } else {
      assert s[0] == c && s[1..] == tail;
    }
  }

  /** The reader is Compose's, on everything Compose reads and not only on what the writer writes. */
  lemma ReaderIsComposes(written: string, value: string)
    requires ComposeReads(written, value)
    ensures ReadEnvValue(written) == value
  {
    if inner :| QuotedAs(written, inner, value, '\'') {
      assert written[1..|written| - 1] == inner;
      UnescapeQuoteReads(inner, value);
    } else if inner :| QuotedAs(written, inner, value, '\"') {
      assert written[1..|written| - 1] == inner;
      UnescapeReads(inner, value);
    } else {
      BareExactly(value);
      assert IsBareChar(value[0]);
    }
  }

  /** Quotes are used only where they are needed, and double ones only for what single ones cannot hold. */
  lemma QuotedWhereNeeded(value: string)
    ensures EnvValue(value) == value <==> IsPlain(value)
    ensures EnvValue(value) == "'" + value + "'" <==>
            && !IsPlain(value) && '\'' !in value && '\n' !in value && '\r' !in value
            && (value != "" ==> value[|value| - 1] != '\\')
  {
    BareExactly(value);
    EscapeGrows(value);
    hide IsBare, Escape, IsPlain;
    var double := "\"" + Escape(value) + "\"";
    assert double[0] != ("'" + value + "'")[0];
  }

  lemma {:induction false} EscapeGrows(value: string)
    ensures |Escape(value)| >= |value|
  {
    if value != "" {
      EscapeGrows(value[1..]);
    }
  }

  // ---- round trip -----------------------------------------------------------------------

  /** Every string, whatever it holds, is read back as it was written. */
  lemma ReadWrite(value: string)
    ensures ReadEnvValue(EnvValue(value)) == value
  {
    WrittenForCompose(value);
    ReaderIsComposes(EnvValue(value), value);
  }

  lemma EnvValueInjective(v: string, w: string)
    requires EnvValue(v) == EnvValue(w)
    ensures v == w
  {
    ReadWrite(v);
    ReadWrite(w);
  }

  // ---- lines ----------------------------------------------------------------------------

  lemma EscapedSeparator(c: char)
    ensures SeparatorFree(EscapeChar(c)) <==> !IsExoticSeparator(c)
  {
    assert EscapeChar(c) == [c] ==> EscapeChar(c)[0] == c;
  }

  lemma {:induction false} EscapeSeparators(value: string)
    ensures SeparatorFree(Escape(value)) <==> ExoticFree(value)
  {
    if value != "" {
      var e, tail := EscapeChar(value[0]), Escape(value[1..]);
      EscapeSeparators(value[1..]);
      EscapedSeparator(value[0]);
      SeparatorFreeConcat(e, tail);
      assert value == [value[0]] + value[1..];
      assert ExoticFree(value) <==> !IsExoticSeparator(value[0]) && ExoticFree(value[1..]) by {
        assert forall i :: 1 <= i < |value| ==> value[i] == value[1..][i - 1];
        if ExoticFree(value) {
          assert !IsExoticSeparator(value[0]);
        }
      }
    }
  }

  lemma SeparatorFreeConcat(a: string, b: string)
    ensures SeparatorFree(a + b) <==> SeparatorFree(a) && SeparatorFree(b)
  {
    if SeparatorFree(a + b) {
      forall i | 0 <= i < |a| ensures !IsSeparator(a[i]) {
        assert (a + b)[i] == a[i];
      }
      forall i | 0 <= i < |b| ensures !IsSeparator(b[i]) {
        assert (a + b)[|a| + i] == b[i];
      }
    }
  }

  /** A written value stays on one line exactly when the value holds no exotic separator. */
  lemma WrittenOnOneLine(value: string)
    ensures SeparatorFree(EnvValue(value)) <==> ExoticFree(value)
  {
    if IsBare(value) {
      forall i | 0 <= i < |value| ensures !IsSeparator(value[i]) {
        assert IsBareChar(value[i]);
      }
    } else if FitsSingleQuotes(value) {
      SeparatorFreeConcat("'", value);
      SeparatorFreeConcat("'" + value, "'");
      assert SeparatorFree(value) <==> ExoticFree(value) by {
        forall i | 0 <= i < |value| ensures IsSeparator(value[i]) == IsExoticSeparator(value[i]) {
          assert value[i] in value;
        }
      }
    } else {
      SeparatorFreeConcat("\"", Escape(value));
      SeparatorFreeConcat("\"" + Escape(value), "\"");
      EscapeSeparators(value);
    }
  }

  lemma {:induction false} UnescapeExoticFree(s: string)
    requires SeparatorFree(s)
    ensures ExoticFree(Unescape(s))
  {
    if s != "" {
      assert !IsSeparator(s[0]);
      if |s| >= 2 && ((s[0] == '\\' && IsEscapable(s[1])) || (s[0] == '$' && s[1] == '$')) {
        UnescapeExoticFree(s[2..]);
      } else {
        UnescapeExoticFree(s[1..]);
      }
    }
  }

  lemma {:induction false} UnescapeQuoteSeparatorFree(s: string)
    requires SeparatorFree(s)
    ensures SeparatorFree(UnescapeQuote(s))
  {
    if s != "" {
      assert !IsSeparator(s[0]);
      if |s| >= 2 && s[0] == '\\' && s[1] == '\'' {
        UnescapeQuoteSeparatorFree(s[2..]);
      } else {
        UnescapeQuoteSeparatorFree(s[1..]);
      }
    }
  }

  /** No value read from a single line can hold an exotic separator. */
  lemma ReadFromOneLine(raw: string)
    requires SeparatorFree(raw)
    ensures ExoticFree(ReadEnvValue(raw))
  {
    if Quoted(raw, '\'') {
      UnescapeQuoteSeparatorFree(raw[1..|raw| - 1]);
    } else if Quoted(raw, '\"') {
      UnescapeExoticFree(raw[1..|raw| - 1]);
    }
  }
}
