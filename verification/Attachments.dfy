/** Replacing inline binary content in a payload tree with its description. */
module Attachments {
  import opened Base64
  import Decimal
  import opened JsonValues
  import opened Octets
  import opened Wrappers

  /** What is taken from elsewhere: the digest, Python's `str` of a list or dictionary, the truth of
      a number, the length of spoken audio, and whether the base64 library is the tolerant one. */
  datatype Library = Library(
    sha256: Bytes -> string,
    repr: Json -> string,
    isZero: string -> bool,
    duration: (string, nat) -> Option<string>,
    tolerant: bool)

  const MIME := "mimeType"
  const MIME_SNAKE := "mime_type"
  const INLINE := "inlineData"
  const INLINE_SNAKE := "inline_data"
  const DATA := "data"

  /** The map is inline binary: a media type and the bytes, together. */
  predicate InlineDatum(fields: map<string, Json>) {
    (MIME in fields || MIME_SNAKE in fields) && DATA in fields
  }

  predicate HoldsMap(fields: map<string, Json>, key: string) {
    key in fields && fields[key].Dict?
  }

  /** The wrapper key whose map is described, the camel-case spelling first. */
  function WrapperKey(fields: map<string, Json>): Option<string> {
    if HoldsMap(fields, INLINE) then Some(INLINE)
    else if HoldsMap(fields, INLINE_SNAKE) then Some(INLINE_SNAKE)
    else None
  }

  // ---- measuring ------------------------------------------------------------------------

  function PyStr(v: Json, lib: Library): string {
    match v
    case Null => "None"
    case Bool(on) => if on then "True" else "False"
    case Number(text) => text
    case Str(text) => text
    case _ => lib.repr(v)
  }

  /** The decoded size and digest, or nothing and no digest of what is not base64. */
  function Measure(raw: Json, lib: Library): (nat, string) {
    match Decode(PyStr(raw, lib), lib.tolerant)
    case None => (0, "")
    case Some(decoded) => (|decoded|, lib.sha256(decoded))
  }

  function Summary(raw: Json, lib: Library): Json {
    var (size, digest) := Measure(raw, lib);
    Dict(map["kind" := Str("data"), "bytes" := Number(Decimal.Print(size)), "sha256" := Str(digest)])
  }

  function MediaType(inner: map<string, Json>, lib: Library): string {
    if MIME in inner && inner[MIME].Truthy(lib.isZero) then PyStr(inner[MIME], lib)
    else if MIME_SNAKE in inner && inner[MIME_SNAKE].Truthy(lib.isZero) then PyStr(inner[MIME_SNAKE], lib)
    else "unknown"
  }

  /** What stands under a wrapper key in place of its map. A map without `data` is measured as the
      text Python prints for nothing. */
  function Described(inner: map<string, Json>, lib: Library): Json {
    var mediaType := MediaType(inner, lib);
    var (size, digest) := Measure(if DATA in inner then inner[DATA] else Null, lib);
    var described := map["kind" := Str("data"), "media_type" := Str(mediaType),
                         "bytes" := Number(Decimal.Print(size)), "sha256" := Str(digest)];
    match lib.duration(mediaType, size)
    case None => Dict(described)
    case Some(seconds) => Dict(described["seconds" := Number(seconds)])
  }

  // ---- stripping ------------------------------------------------------------------------

  function Strip(payload: Json, lib: Library): Json {
    match payload
    case List(items) => List(seq(|items|, i requires 0 <= i < |items| => Strip(items[i], lib)))
    case Dict(fields) =>
      if InlineDatum(fields) then Dict(fields[DATA := Summary(fields[DATA], lib)])
      else
        var key := WrapperKey(fields);
        Dict(map k | k in fields ::
               if Some(k) == key then Described(fields[k].fields, lib) else Strip(fields[k], lib))
    case _ => payload
  }

  // ---- what is left -----------------------------------------------------------------------

  predicate IsSummary(v: Json) {
    && v.Dict? && v.fields.Keys == {"kind", "bytes", "sha256"}
    && v.fields["kind"] == Str("data") && v.fields["bytes"].Number? && v.fields["sha256"].Str?
  }

  /** A media type in either spelling, and bytes beside it. */
  ghost predicate IsInline(fields: map<string, Json>) {
    "data" in fields && ("mimeType" in fields || "mime_type" in fields)
  }

  /** A wrapper key holds a map with bytes under `data`. */
  ghost predicate WrapperExposes(fields: map<string, Json>, key: string) {
    HoldsMap(fields, key) && "data" in fields[key].fields && !IsSummary(fields[key].fields["data"])
  }

  /** The first of the two wrapper keys that holds a map. */
  ghost predicate IsWrapper(fields: map<string, Json>, key: string) {
    && key in fields && fields[key].Dict?
    && (key == "inlineData" || (key == "inline_data" && !("inlineData" in fields && fields["inlineData"].Dict?)))
  }

  /** Somewhere in the tree inline bytes stand as they were sent. */
  ghost predicate Exposed(t: Json) {
    match t
    case List(items) => exists i :: 0 <= i < |items| && Exposed(items[i])
    case Dict(fields) =>
      || (IsInline(fields) && !IsSummary(fields["data"]))
      || WrapperExposes(fields, "inlineData") || WrapperExposes(fields, "inline_data")
      || exists k :: k in fields && Exposed(fields[k])
    case _ => false
  }

  /** Where stripping does not reach: beside the bytes of an inline datum, whose siblings are kept as
      they are, and under a second wrapper key whose map names no media type. */
  ghost predicate OutOfReach(t: Json) {
    match t
    case List(items) => exists i :: 0 <= i < |items| && OutOfReach(items[i])
    case Dict(fields) =>
      if IsInline(fields) then
        || WrapperExposes(fields, "inlineData") || WrapperExposes(fields, "inline_data")
        || exists k :: k in fields && k != "data" && Exposed(fields[k])
      else
        || (IsWrapper(fields, "inlineData") && WrapperExposes(fields, "inline_data")
            && !IsInline(fields["inline_data"].fields))
        || exists k :: k in fields && !IsWrapper(fields, k) && OutOfReach(fields[k])
    case _ => false
  }

  lemma SummaryHidesBytes(raw: Json, lib: Library)
    ensures IsSummary(Summary(raw, lib)) && !Exposed(Summary(raw, lib))
  {
    var s := Summary(raw, lib);
    assert s.fields.Keys == {"kind", "bytes", "sha256"};
    assert forall k :: k in s.fields ==> s.fields[k].Str? || s.fields[k].Number?;
  }

  lemma DescriptionHidesBytes(inner: map<string, Json>, lib: Library)
    ensures Described(inner, lib).Dict? && DATA !in Described(inner, lib).fields && !Exposed(Described(inner, lib))
  {
    var d := Described(inner, lib);
    assert d.fields.Keys <= {"kind", "media_type", "bytes", "sha256", "seconds"};
    assert forall k :: k in d.fields ==> d.fields[k].Str? || d.fields[k].Number?;
  }

  lemma StripKeepsSummaries(v: Json, lib: Library)
    ensures IsSummary(Strip(v, lib)) <==> IsSummary(v)
  {
    hide Described, Summary;
    if v.Dict? {
      var s := Strip(v, lib).fields;
      assert s.Keys == v.fields.Keys;
      if s.Keys == {"kind", "bytes", "sha256"} {
        assert MIME !in s && MIME_SNAKE !in s && INLINE !in s && INLINE_SNAKE !in s;
        assert forall k :: k in s ==> s[k] == Strip(v.fields[k], lib);
      }
    }
  }

  /** Bytes are left exposed in the stripped tree exactly when the payload carries some out of reach. */
  lemma {:induction false} ExposedOnlyOutOfReach(t: Json, lib: Library)
    ensures Exposed(Strip(t, lib)) <==> OutOfReach(t)
  {
    match t
    case List(items) =>
      forall i | 0 <= i < |items| ensures Exposed(Strip(items[i], lib)) <==> OutOfReach(items[i]) {
        ExposedOnlyOutOfReach(items[i], lib);
      }
      var s := Strip(t, lib);
      assert |s.items| == |items| && forall i :: 0 <= i < |items| ==> s.items[i] == Strip(items[i], lib);
    case Dict(fields) =>
      if InlineDatum(fields) {
        SummaryHidesBytes(fields[DATA], lib);
        InlineSiblings(fields, lib);
      } else {
        forall k | k in fields ensures Exposed(Strip(fields[k], lib)) <==> OutOfReach(fields[k]) {
          ExposedOnlyOutOfReach(fields[k], lib);
        }
        if WrapperKey(fields).Some? {
          DescriptionHidesBytes(fields[WrapperKey(fields).value].fields, lib);
        }
        StrippedFields(fields, lib);
      }
    case _ =>
  }

  lemma InlineSiblings(fields: map<string, Json>, lib: Library)
    requires InlineDatum(fields) && IsSummary(Summary(fields[DATA], lib)) && !Exposed(Summary(fields[DATA], lib))
    ensures Exposed(Strip(Dict(fields), lib)) <==> OutOfReach(Dict(fields))
  {
    var s := Strip(Dict(fields), lib).fields;
    assert s == fields[DATA := Summary(fields[DATA], lib)];
    assert WrapperExposes(s, INLINE) == WrapperExposes(fields, INLINE);
    assert WrapperExposes(s, INLINE_SNAKE) == WrapperExposes(fields, INLINE_SNAKE);
    assert forall k :: k in fields && k != DATA ==> s[k] == fields[k];
  }

  lemma StrippedFields(fields: map<string, Json>, lib: Library)
    requires !InlineDatum(fields)
    requires forall k :: k in fields ==> (Exposed(Strip(fields[k], lib)) <==> OutOfReach(fields[k]))
    requires WrapperKey(fields).Some? ==>
               var d := Described(fields[WrapperKey(fields).value].fields, lib);
               d.Dict? && DATA !in d.fields && !Exposed(d)
    ensures Exposed(Strip(Dict(fields), lib)) <==> OutOfReach(Dict(fields))
  {
    hide Described, Summary, IsSummary;
    var s, key := Strip(Dict(fields), lib).fields, WrapperKey(fields);
    assert s.Keys == fields.Keys && !InlineDatum(s);
    assert forall k :: k in fields && !IsWrapper(fields, k) ==> s[k] == Strip(fields[k], lib);
    assert forall k :: k in fields && IsWrapper(fields, k) ==> !Exposed(s[k]);
    StrippedWrappers(fields, lib);
    hide Strip, WrapperExposes, IsWrapper, HoldsMap, WrapperKey;
  }

  lemma StrippedWrappers(fields: map<string, Json>, lib: Library)
    requires !InlineDatum(fields)
    requires WrapperKey(fields).Some? ==>
               var d := Described(fields[WrapperKey(fields).value].fields, lib);
               d.Dict? && DATA !in d.fields
    ensures var s := Strip(Dict(fields), lib).fields;
            && !WrapperExposes(s, INLINE)
            && (WrapperExposes(s, INLINE_SNAKE) <==>
                IsWrapper(fields, INLINE) && WrapperExposes(fields, INLINE_SNAKE)
                && !IsInline(fields[INLINE_SNAKE].fields))
  {
    hide Described, Summary, IsSummary;
    var s, key := Strip(Dict(fields), lib).fields, WrapperKey(fields);
    assert forall k :: k in fields && Some(k) != key ==> s[k] == Strip(fields[k], lib);
    if HoldsMap(fields, INLINE_SNAKE) && key == Some(INLINE) {
      SecondWrapper(fields[INLINE_SNAKE].fields, lib);
    }
    assert forall k :: k in fields && Some(k) != key && s[k].Dict? ==> fields[k].Dict?;
  }

  /** The map under a second wrapper key is only rid of its bytes when it names its media type. */
  lemma SecondWrapper(inner: map<string, Json>, lib: Library)
    ensures var s := Strip(Dict(inner), lib);
            s.Dict? && (DATA in s.fields && !IsSummary(s.fields[DATA])
                        <==> DATA in inner && !IsSummary(inner[DATA]) && !InlineDatum(inner))
  {
    if InlineDatum(inner) {
      SummaryHidesBytes(inner[DATA], lib);
    } else if DATA in inner {
      StripKeepsSummaries(inner[DATA], lib);
    }
  }

  /** Inline data with scalar siblings only, and no map with both wrapper keys. */
  ghost predicate Ordinary(t: Json) {
    match t
    case List(items) => forall i :: 0 <= i < |items| ==> Ordinary(items[i])
    case Dict(fields) =>
      if IsInline(fields) then forall k :: k in fields && k != "data" ==> !fields[k].List? && !fields[k].Dict?
      else !("inlineData" in fields && "inline_data" in fields) && forall k :: k in fields ==> Ordinary(fields[k])
    case _ => true
  }

  /** An ordinary payload keeps no inline bytes at all. */
  lemma OrdinaryPayloadIsStripped(t: Json, lib: Library)
    requires Ordinary(t)
    ensures !Exposed(Strip(t, lib))
  {
    OrdinaryInReach(t);
    ExposedOnlyOutOfReach(t, lib);
  }

  lemma {:induction false} OrdinaryInReach(t: Json)
    requires Ordinary(t)
    ensures !OutOfReach(t)
  {
    match t
    case List(items) =>
      forall i | 0 <= i < |items| ensures !OutOfReach(items[i]) {
        OrdinaryInReach(items[i]);
      }
    case Dict(fields) =>
      if !InlineDatum(fields) {
        forall k | k in fields ensures !OutOfReach(fields[k]) {
          OrdinaryInReach(fields[k]);
        }
      }
    case _ =>
  }

  /** The bytes of an attachment nested beside another's survive: the smallest such payload. */
  lemma SiblingSurvives(inner: map<string, Json>, lib: Library)
    requires IsInline(inner) && !IsSummary(inner["data"])
    ensures var payload := Dict(map["mimeType" := Str("a/b"), "data" := Str(""), "parts" := List([Dict(inner)])]);
            Exposed(Strip(payload, lib)) && Strip(payload, lib).fields["parts"] == List([Dict(inner)])
  {
    var parts := List([Dict(inner)]);
    assert Exposed(parts) by {
      assert Exposed(parts.items[0]);
    }
    var payload := map[MIME := Str("a/b"), DATA := Str(""), "parts" := parts];
    assert Strip(Dict(payload), lib).fields["parts"] == parts;
  }

  // ---- what is kept -----------------------------------------------------------------------

  /** The value under the key is replaced: the bytes of an inline datum, or a wrapped map. */
  ghost predicate Replaced(fields: map<string, Json>, key: string) {
    if IsInline(fields) then key == "data" else IsWrapper(fields, key)
  }

  /** The same lists and maps, value for value outside the replaced ones. */
  ghost predicate SameShape(t: Json, s: Json) {
    match t
    case List(items) =>
      s.List? && |s.items| == |items| && forall i :: 0 <= i < |items| ==> SameShape(items[i], s.items[i])
    case Dict(fields) =>
      && s.Dict? && s.fields.Keys == fields.Keys
      && forall k :: k in fields && !Replaced(fields, k) ==> SameShape(fields[k], s.fields[k])
    case _ => s == t
  }

  lemma {:induction false} SameShapeReflexive(t: Json)
    ensures SameShape(t, t)
  {
    match t
    case List(items) =>
      forall i | 0 <= i < |items| ensures SameShape(items[i], items[i]) {
        SameShapeReflexive(items[i]);
      }
    case Dict(fields) =>
      forall k | k in fields ensures SameShape(fields[k], fields[k]) {
        SameShapeReflexive(fields[k]);
      }
    case _ =>
  }

  /** Stripping keeps every list's length and every map's keys, and every scalar it does not replace. */
  lemma {:induction false} StripKeepsShape(t: Json, lib: Library)
    ensures SameShape(t, Strip(t, lib))
  {
    match t
    case List(items) =>
      forall i | 0 <= i < |items| ensures SameShape(items[i], Strip(items[i], lib)) {
        StripKeepsShape(items[i], lib);
      }
    case Dict(fields) =>
      forall k | k in fields ensures SameShape(fields[k], Strip(fields[k], lib)) && SameShape(fields[k], fields[k]) {
        StripKeepsShape(fields[k], lib);
        SameShapeReflexive(fields[k]);
      }
      assert Strip(t, lib).fields.Keys == fields.Keys;
    case _ =>
  }

  /** A tree with no inline datum and no wrapper key holding a map. */
  ghost predicate TextOnly(t: Json) {
    match t
    case List(items) => forall i :: 0 <= i < |items| ==> TextOnly(items[i])
    case Dict(fields) => forall k :: k in fields ==> !Replaced(fields, k) && TextOnly(fields[k])
    case _ => true
  }

  /** Such a tree is left untouched. */
  lemma {:induction false} TextOnlyUntouched(t: Json, lib: Library)
    requires TextOnly(t)
    ensures Strip(t, lib) == t
  {
    match t
    case List(items) =>
      forall i | 0 <= i < |items| ensures Strip(items[i], lib) == items[i] {
        TextOnlyUntouched(items[i], lib);
      }
      assert Strip(t, lib).items == items;
    case Dict(fields) =>
      forall k | k in fields ensures Strip(fields[k], lib) == fields[k] {
        TextOnlyUntouched(fields[k], lib);
      }
      assert Strip(t, lib).fields == fields;
    case _ =>
  }

  // ---- what is recorded -------------------------------------------------------------------

  /** The datum is a string that spells these bytes, in either alphabet and padded as far as one likes. */
  ghost predicate IsSpelled(raw: Json, b: Bytes, lib: Library) {
    raw.Str? && Spells(raw.text, b, lib.tolerant)
  }

  lemma SpelledBytesMeasured(raw: Json, b: Bytes, lib: Library)
    requires IsSpelled(raw, b, lib)
    ensures Measure(raw, lib) == (|b|, lib.sha256(b))
  {
    DecodesExactly(raw.text, b, lib.tolerant);
    hide Decode, Spells;
  }

  /** The size and digest recorded for an inline datum are those of the bytes that were sent,
      whichever way they were spelled. */
  lemma InlineSizeIsDecodedSize(fields: map<string, Json>, b: Bytes, lib: Library)
    requires IsInline(fields) && IsSpelled(fields["data"], b, lib)
    ensures Strip(Dict(fields), lib).fields[DATA]
            == Dict(map["kind" := Str("data"), "bytes" := Number(Decimal.Print(|b|)), "sha256" := Str(lib.sha256(b))])
  {
    SpelledBytesMeasured(fields[DATA], b, lib);
    hide Measure, IsSpelled, Decimal.Print;
  }

  /** A string that spells no bytes is recorded as none, without a digest. */
  lemma UndecodedDatum(fields: map<string, Json>, lib: Library)
    requires IsInline(fields) && fields["data"].Str? && forall b :: !Spells(fields["data"].text, b, lib.tolerant)
    ensures Strip(Dict(fields), lib).fields[DATA]
            == Dict(map["kind" := Str("data"), "bytes" := Number("0"), "sha256" := Str("")])
  {
    var text := fields[DATA].text;
    if Decode(text, lib.tolerant).Some? {
      DecodesExactly(text, Decode(text, lib.tolerant).value, lib.tolerant);
    }
    hide Decode, Spells;
    assert Decimal.Print(0) == "0";
  }

  /** What Python prints for a value it takes for true. */
  ghost predicate Printed(v: Json, text: string, lib: Library) {
    match v
    case Null => false
    case Bool(on) => on && text == "True"
    case Number(numeral) => text == numeral
    case Str(s) => text == s
    case List(_) => text == lib.repr(v)
    case Dict(_) => text == lib.repr(v)
  }

  ghost predicate NamedUnder(inner: map<string, Json>, key: string, text: string, lib: Library) {
    key in inner && !inner[key].Falsy(lib.isZero) && Printed(inner[key], text, lib)
  }

  ghost predicate Unnamed(inner: map<string, Json>, key: string, lib: Library) {
    key in inner ==> inner[key].Falsy(lib.isZero)
  }

  /** The media type a map names: under the camel-case key, or else under the other, or else unknown. */
  ghost predicate NamesType(inner: map<string, Json>, text: string, lib: Library) {
    || NamedUnder(inner, "mimeType", text, lib)
    || (Unnamed(inner, "mimeType", lib) && NamedUnder(inner, "mime_type", text, lib))
    || (Unnamed(inner, "mimeType", lib) && Unnamed(inner, "mime_type", lib) && text == "unknown")
  }

  lemma TypeNamed(inner: map<string, Json>, text: string, lib: Library)
    ensures MediaType(inner, lib) == text <==> NamesType(inner, text, lib)
  {
  }

  /** So are those recorded under a wrapper key, the first of the two that holds a map, with the media
      type that map names and, where its format tells, how long it sounds. */
  lemma WrappedSizeIsDecodedSize(fields: map<string, Json>, key: string, b: Bytes, mediaType: string, lib: Library)
    requires !IsInline(fields) && IsWrapper(fields, key)
    requires "data" in fields[key].fields && IsSpelled(fields[key].fields["data"], b, lib)
    requires NamesType(fields[key].fields, mediaType, lib)
    ensures var recorded := map["kind" := Str("data"), "media_type" := Str(mediaType),
                                "bytes" := Number(Decimal.Print(|b|)), "sha256" := Str(lib.sha256(b))];
            Strip(Dict(fields), lib).fields[key] == Dict(
              match lib.duration(mediaType, |b|)
              case None => recorded
              case Some(seconds) => recorded["seconds" := Number(seconds)])
  {
    var inner := fields[key].fields;
    assert Strip(Dict(fields), lib).fields[key] == Described(inner, lib);
    SpelledBytesMeasured(inner[DATA], b, lib);
    TypeNamed(inner, mediaType, lib);
    hide Measure, MediaType, NamesType, IsSpelled, Decimal.Print;
  }

  lemma DescriptionRecords(inner: map<string, Json>, lib: Library)
    ensures var measured := Measure(if DATA in inner then inner[DATA] else Null, lib);
            && Described(inner, lib).fields["bytes"] == Number(Decimal.Print(measured.0))
            && Described(inner, lib).fields["sha256"] == Str(measured.1)
  {
    hide Measure, MediaType, Decimal.Print;
  }

  /** The size an audit may be told of a datum: that of the bytes a base64 string stands for, and nothing
      for a string that is not base64 or for what is no string. */
  function SizeSent(raw: Json, lib: Library): nat {
    if !raw.Str? then 0
    else
      match Decode(raw.text, lib.tolerant)
      case None => 0
      case Some(decoded) => |decoded|
  }

  /** The datum is a string, or what Python prints for it is nothing or not base64. */
  predicate SizedRight(raw: Json, lib: Library) {
    raw.Str? || PyStr(raw, lib) == "" || Decode(PyStr(raw, lib), lib.tolerant).None?
  }

  lemma MeasuredRight(raw: Json, lib: Library)
    ensures Measure(raw, lib).0 == SizeSent(raw, lib) <==> SizedRight(raw, lib)
  {
    var text := PyStr(raw, lib);
    hide Decode;
    NothingDecoded(text, lib.tolerant);
  }

  /** The size recorded for an inline datum is the size sent exactly then. */
  lemma InlineSizeRight(fields: map<string, Json>, lib: Library)
    requires IsInline(fields)
    ensures Strip(Dict(fields), lib).fields[DATA].fields["bytes"] == Number(Decimal.Print(SizeSent(fields[DATA], lib)))
            <==> SizedRight(fields[DATA], lib)
  {
    hide Measure, SizeSent, SizedRight, Decimal.Print;
    MeasuredRight(fields[DATA], lib);
    Decimal.PrintInjective(Measure(fields[DATA], lib).0, SizeSent(fields[DATA], lib));
  }

  /** So is the one recorded under a wrapper key, where a datum that is missing is read as null. */
  lemma WrappedSizeRight(fields: map<string, Json>, key: string, lib: Library)
    requires !IsInline(fields) && IsWrapper(fields, key)
    ensures var inner, recorded := fields[key].fields, Strip(Dict(fields), lib).fields[key];
            var datum := if DATA in inner then inner[DATA] else Null;
            recorded.fields["bytes"] == Number(Decimal.Print(SizeSent(datum, lib))) <==> SizedRight(datum, lib)
  {
    var inner := fields[key].fields;
    var datum := if DATA in inner then inner[DATA] else Null;
    hide Described, Measure, SizeSent, SizedRight, Decimal.Print;
    assert Strip(Dict(fields), lib).fields[key] == Described(inner, lib);
    MeasuredRight(datum, lib);
    DescriptionRecords(inner, lib);
    Decimal.PrintInjective(Measure(datum, lib).0, SizeSent(datum, lib));
  }

  /** What is not sized right: null, a missing datum and `true` are recorded as three bytes, and a
      number as six bits for each sign of its numeral, unless that is one over whole quads. */
  lemma MissizedData(text: string, lib: Library)
    ensures Measure(Null, lib).0 == 3 && Measure(Bool(true), lib).0 == 3 && Measure(Bool(false), lib).0 == 0
    ensures (forall i :: 0 <= i < |text| ==> InEitherAlphabet(text[i])) ==>
              Measure(Number(text), lib).0 == if |text| % 4 == 1 then 0 else |text| * 6 / 8
  {
    hide Measure;
    LettersMeasured(Null, "None", lib);
    LettersMeasured(Bool(true), "True", lib);
    LettersMeasured(Bool(false), "False", lib);
    if forall i :: 0 <= i < |text| ==> InEitherAlphabet(text[i]) {
      LettersMeasured(Number(text), text, lib);
    }
  }

  lemma LettersMeasured(raw: Json, printed: string, lib: Library)
    requires PyStr(raw, lib) == printed && forall i :: 0 <= i < |printed| ==> InEitherAlphabet(printed[i])
    ensures Measure(raw, lib).0 == if |printed| % 4 == 1 then 0 else |printed| * 6 / 8
  {
    hide Decode, PyStr;
    LettersDecode(printed, lib.tolerant);
  }

  /** Letters of the alphabets need no padding to be decoded, and one over whole quads are refused. */
  lemma LettersDecode(letters: string, tolerant: bool)
    requires forall i :: 0 <= i < |letters| ==> InEitherAlphabet(letters[i])
    ensures Decode(letters, tolerant).Some? <==> |letters| % 4 != 1
    ensures Decode(letters, tolerant).Some? ==> |Decode(letters, tolerant).value| == |letters| * 6 / 8
  {
    assert letters != "" ==> letters[|letters| - 1] != '=';
    assert TrailingPads(letters) == 0 && DataOf(letters) == letters;
    hide Decode, DataOf, TrailingPads, InEitherAlphabet;
    AcceptedExactly(letters, tolerant);
  }
}
