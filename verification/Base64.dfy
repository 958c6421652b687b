/** Base64 in either alphabet, padded or not, and otherwise strict (sections 4 and 5 of RFC 4648). */
module Base64 {
  import opened Octets
  import Text
  import opened Wrappers

  /** A six-bit value. */
  type Sextet = n: int | 0 <= n < 64

  // ---- the alphabet ---------------------------------------------------------------------

  predicate InStandardAlphabet(c: char) {
    'A' <= c <= 'Z' || 'a' <= c <= 'z' || '0' <= c <= '9' || c == '+' || c == '/'
  }

  predicate InEitherAlphabet(c: char) {
    InStandardAlphabet(c) || c == '-' || c == '_'
  }

  function ValueOf(c: char): Sextet
    requires InStandardAlphabet(c)
  {
    if 'A' <= c <= 'Z' then c as int - 'A' as int
    else if 'a' <= c <= 'z' then c as int - 'a' as int + 26
    else if '0' <= c <= '9' then c as int - '0' as int + 52
    else if c == '+' then 62
    else 63
  }

  function CharOf(n: Sextet): (c: char)
    ensures InStandardAlphabet(c) && ValueOf(c) == n
  {
    if n < 26 then (n + 'A' as int) as char
    else if n < 52 then (n - 26 + 'a' as int) as char
    else if n < 62 then (n - 52 + '0' as int) as char
    else if n == 62 then '+'
    else '/'
  }

  /** The URL-safe letters mapped onto the standard ones. */
  function Standard(c: char): char {
    if c == '-' then '+' else if c == '_' then '/' else c
  }

  function Translate(raw: string): (text: string)
    ensures |text| == |raw| && forall i :: 0 <= i < |raw| ==> text[i] == Standard(raw[i])
  {
    seq(|raw|, i requires 0 <= i < |raw| => Standard(raw[i]))
  }

  function Pads(n: nat): (s: string)
    ensures |s| == n && forall i :: 0 <= i < n ==> s[i] == '='
  {
    seq(n, i => '=')
  }

  /** How many `=` complete a text of this length: `-len(text) % 4`. */
  function Missing(length: nat): nat {
    (4 - length % 4) % 4
  }

  // ---- the library's strict decoder -----------------------------------------------------

  function TrailingPads(s: string): (n: nat)
    ensures n <= |s|
    ensures forall i :: |s| - n <= i < |s| ==> s[i] == '='
    ensures n < |s| ==> s[|s| - n - 1] != '='
  {
    if |s| == 0 || s[|s| - 1] != '=' then 0 else 1 + TrailingPads(s[..|s| - 1])
  }

  function DataOf(s: string): string {
    s[..|s| - TrailingPads(s)]
  }

  predicate AllStandard(s: string) {
    forall i :: 0 <= i < |s| ==> InStandardAlphabet(s[i])
  }

  function Values(s: string): (v: seq<Sextet>)
    requires AllStandard(s)
    ensures |v| == |s| && forall i :: 0 <= i < |s| ==> v[i] == ValueOf(s[i])
  {
    seq(|s|, i requires 0 <= i < |s| => ValueOf(s[i]))
  }

  function FirstByte(a: int, b: int): int { a * 4 + b / 16 }

  function SecondByte(b: int, c: int): int { b % 16 * 16 + c / 4 }

  function ThirdByte(c: int, d: int): int { c % 4 * 64 + d }

  function FromSextets(v: seq<Sextet>): Bytes {
    if |v| < 2 then []
    else if |v| == 2 then [FirstByte(v[0], v[1])]
    else if |v| == 3 then [FirstByte(v[0], v[1]), SecondByte(v[1], v[2])]
    else [FirstByte(v[0], v[1]), SecondByte(v[1], v[2]), ThirdByte(v[2], v[3])] + FromSextets(v[4..])
  }

  /** Whether `pads` signs may follow `data` letters. `tolerant` is a library that lets padding stand
      behind whole quads, as some releases of CPython do. */
  predicate PaddingFits(data: nat, pads: nat, tolerant: bool) {
    match data % 4
    case 0 => pads == 0 || (tolerant && data > 0)
    case 1 => false
    case 2 => pads == 2
    case _ => pads == 1
  }

  /** `base64.b64decode(text, validate=True)`. */
  function StrictDecode(text: string, tolerant: bool): Option<Bytes> {
    var data := DataOf(text);
    if !AllStandard(data) || !PaddingFits(|data|, TrailingPads(text), tolerant) then None
    else Some(FromSextets(Values(data)))
  }

  /** Either alphabet, padding optional. */
  function Decode(raw: string, tolerant: bool): Option<Bytes> {
    var text := Translate(raw);
    StrictDecode(text + Pads(Missing(|text|)), tolerant)
  }

  // ---- encoding, for the round trip ------------------------------------------------------

  function FirstSextet(a: Byte): Sextet { a / 4 }

  function SecondSextet(a: Byte, b: Byte): Sextet { a % 4 * 16 + b / 16 }

  function ThirdSextet(b: Byte, c: Byte): Sextet { b % 16 * 4 + c / 64 }

  function FourthSextet(c: Byte): Sextet { c % 64 }

  function ToSextets(b: Bytes): seq<Sextet> {
    if |b| == 0 then []
    else if |b| == 1 then [FirstSextet(b[0]), SecondSextet(b[0], 0)]
    else if |b| == 2 then [FirstSextet(b[0]), SecondSextet(b[0], b[1]), ThirdSextet(b[1], 0)]
    else [FirstSextet(b[0]), SecondSextet(b[0], b[1]), ThirdSextet(b[1], b[2]), FourthSextet(b[2])] + ToSextets(b[3..])
  }

  function Letters(v: seq<Sextet>): (s: string)
    ensures |s| == |v| && forall i :: 0 <= i < |v| ==> s[i] == CharOf(v[i])
  {
    seq(|v|, i requires 0 <= i < |v| => CharOf(v[i]))
  }

  /** The unpadded standard encoding. */
  function Encode(b: Bytes): string {
    Letters(ToSextets(b))
  }

  lemma ThreeBytes(a: Byte, b: Byte, c: Byte)
    ensures FirstByte(FirstSextet(a), SecondSextet(a, b)) == a
    ensures SecondByte(SecondSextet(a, b), ThirdSextet(b, c)) == b
    ensures ThirdByte(ThirdSextet(b, c), FourthSextet(c)) == c
  {
  }

  lemma FromGroup(a: Sextet, b: Sextet, c: Sextet, d: Sextet, more: seq<Sextet>)
    ensures FromSextets([a, b, c, d] + more) == [FirstByte(a, b), SecondByte(b, c), ThirdByte(c, d)] + FromSextets(more)
  {
    assert ([a, b, c, d] + more)[4..] == more;
  }

  lemma LastGroup(b: Bytes)
    requires |b| < 3
    ensures FromSextets(ToSextets(b)) == b
  {
    hide FirstByte, SecondByte, ThirdByte, FirstSextet, SecondSextet, ThirdSextet, FourthSextet;
    var v := ToSextets(b);
    if |b| == 1 {
      ThreeBytes(b[0], 0, 0);
      assert FromSextets(v) == [FirstByte(v[0], v[1])];
    } else if |b| == 2 {
      ThreeBytes(b[0], b[1], 0);
      assert FromSextets(v) == [FirstByte(v[0], v[1]), SecondByte(v[1], v[2])];
    }
  }

  lemma {:induction false} SextetsRoundTrip(b: Bytes)
    ensures FromSextets(ToSextets(b)) == b
  {
    if |b| < 3 {
      LastGroup(b);
    } else {
      SextetsRoundTrip(b[3..]);
      ThreeBytes(b[0], b[1], b[2]);
      var more := ToSextets(b[3..]);
      FromGroup(FirstSextet(b[0]), SecondSextet(b[0], b[1]), ThirdSextet(b[1], b[2]), FourthSextet(b[2]), more);
      hide FromSextets, FirstByte, SecondByte, ThirdByte, FirstSextet, SecondSextet, ThirdSextet, FourthSextet;
      assert b == [b[0], b[1], b[2]] + b[3..];
    }
  }

  lemma PadsOf(data: string, n: nat)
    requires data == "" || data[|data| - 1] != '='
    ensures TrailingPads(data + Pads(n)) == n && DataOf(data + Pads(n)) == data
  {
    var s := data + Pads(n);
    assert forall i :: |data| <= i < |s| ==> s[i] == '=';
    assert data != "" ==> s[|data| - 1] == data[|data| - 1];
    assert TrailingPads(s) == n;
    assert s[..|data|] == data;
  }

  /** Filling up to a multiple of four completes the padding exactly when what was there fits. */
  lemma PaddingCompleted(data: nat, pads: nat, tolerant: bool)
    ensures PaddingFits(data, pads + Missing(data + pads), tolerant) <==> OwnPaddingFits(data, pads, tolerant)
  {
  }

  /** What padding a text may carry of its own. */
  predicate OwnPaddingFits(data: nat, pads: nat, tolerant: bool) {
    match data % 4
    case 0 => pads == 0 || (tolerant && data > 0)
    case 1 => false
    case 2 => pads <= 2
    case _ => pads <= 1
  }

  lemma Refilled(raw: string, n: nat)
    ensures DataOf(Translate(raw) + Pads(n)) == Translate(DataOf(raw))
    ensures TrailingPads(Translate(raw) + Pads(n)) == TrailingPads(raw) + n
  {
    TranslatedParts(raw, n);
    LastLetter(raw);
    hide Translate, TrailingPads, DataOf, Standard;
    PadsOf(Translate(DataOf(raw)), TrailingPads(raw) + n);
  }

  lemma TranslatedParts(raw: string, n: nat)
    ensures Translate(raw) + Pads(n) == Translate(DataOf(raw)) + Pads(TrailingPads(raw) + n)
  {
    assert forall i :: |DataOf(raw)| <= i < |raw| ==> Translate(raw)[i] == '=';
  }

  lemma LastLetter(raw: string)
    ensures var data := Translate(DataOf(raw)); data == "" || data[|data| - 1] != '='
  {
    var data := DataOf(raw);
    assert data != "" ==> data[|data| - 1] != '=';
  }

  lemma StrictAccepts(text: string, tolerant: bool)
    ensures StrictDecode(text, tolerant).Some?
            <==> AllStandard(DataOf(text)) && PaddingFits(|DataOf(text)|, TrailingPads(text), tolerant)
    ensures StrictDecode(text, tolerant).Some? ==>
              |StrictDecode(text, tolerant).value| == |DataOf(text)| * 6 / 8
  {
    var data := DataOf(text);
    if AllStandard(data) && |data| % 4 != 1 {
      DecodedLength(Values(data));
    }
  }

  lemma TranslatedLetters(data: string)
    ensures AllStandard(Translate(data)) <==> forall i :: 0 <= i < |data| ==> InEitherAlphabet(data[i])
  {
    assert forall i :: 0 <= i < |data| ==> (InStandardAlphabet(Translate(data)[i]) <==> InEitherAlphabet(data[i]));
  }

  /** A text is taken exactly when its data is made of letters of the two alphabets and what padding
      it carries completes the last group in part or in full; it then yields a byte for every eight
      bits of its data, so nothing is decoded to something shorter. */
  lemma AcceptedExactly(raw: string, tolerant: bool)
    ensures Decode(raw, tolerant).Some? <==>
            && (forall i :: 0 <= i < |DataOf(raw)| ==> InEitherAlphabet(DataOf(raw)[i]))
            && OwnPaddingFits(|DataOf(raw)|, TrailingPads(raw), tolerant)
    ensures Decode(raw, tolerant).Some? ==> |Decode(raw, tolerant).value| == |DataOf(raw)| * 6 / 8
  {
    hide StrictDecode, OwnPaddingFits, PaddingFits, Missing, TrailingPads, DataOf, InEitherAlphabet, Translate, Pads;
    DataAndPads(raw);
    RefilledAccepts(raw, Missing(|raw|), tolerant);
    PaddingCompleted(|DataOf(raw)|, TrailingPads(raw), tolerant);
  }

  lemma DataAndPads(raw: string)
    ensures |raw| == |DataOf(raw)| + TrailingPads(raw)
  {
  }

  lemma RefilledAccepts(raw: string, n: nat, tolerant: bool)
    ensures var r, data := StrictDecode(Translate(raw) + Pads(n), tolerant), DataOf(raw);
            && (r.Some? <==> (forall i :: 0 <= i < |data| ==> InEitherAlphabet(data[i]))
                             && PaddingFits(|data|, TrailingPads(raw) + n, tolerant))
            && (r.Some? ==> |r.value| == |data| * 6 / 8)
  {
    hide StrictDecode, PaddingFits, TrailingPads, DataOf, InEitherAlphabet, InStandardAlphabet, AllStandard;
    Refilled(raw, n);
    StrictAccepts(Translate(raw) + Pads(n), tolerant);
    TranslatedLetters(DataOf(raw));
  }

  lemma {:induction false} DecodedLength(v: seq<Sextet>)
    requires |v| % 4 != 1
    ensures |FromSextets(v)| == |v| * 6 / 8
  {
    if |v| >= 4 {
      DecodedLength(v[4..]);
    }
  }

  // ---- what a text spells ----------------------------------------------------------------

  /** The letter stands for the value in table 1 of RFC 4648, or in its URL-safe table 2. */
  ghost predicate Stands(c: char, n: Sextet) {
    if n < 26 then c == Text.UPPER[n]
    else if n < 52 then c == Text.LOWER[n - 26]
    else if n < 62 then c == Text.DIGITS[n - 52]
    else if n == 62 then c == '+' || c == '-'
    else c == '/' || c == '_'
  }

  /** The text is letters that stand for these values, and then `pads` signs. */
  ghost predicate Written(raw: string, v: seq<Sextet>, pads: nat) {
    && |raw| == |v| + pads
    && (forall i :: 0 <= i < |v| ==> Stands(raw[i], v[i]))
    && (forall i :: |v| <= i < |raw| ==> raw[i] == '=')
  }

  /** Four values are three bytes, read as one number of 24 bits; what is left over at the end is one
      byte of twelve bits, or two of eighteen. */
  ghost predicate Packs(v: seq<Sextet>, b: Bytes) {
    match |v|
    case 0 => b == []
    case 1 => false
    case 2 => |b| == 1 && b[0] == SextetNumber(v[0], v[1], 0, 0) / 65536
    case 3 => |b| == 2 && ByteNumber(0, b[0], b[1]) == SextetNumber(v[0], v[1], v[2], 0) / 256
    case _ => |b| >= 3 && ByteNumber(b[0], b[1], b[2]) == SextetNumber(v[0], v[1], v[2], v[3]) && Packs(v[4..], b[3..])
  }

  ghost function SextetNumber(a: int, b: int, c: int, d: int): int {
    a * 262144 + b * 4096 + c * 64 + d
  }

  ghost function ByteNumber(x: int, y: int, z: int): int {
    x * 65536 + y * 256 + z
  }

  /** The text spells these bytes, padded as far as one likes. */
  ghost predicate Spells(raw: string, b: Bytes, tolerant: bool) {
    exists v, pads :: Written(raw, v, pads) && Packs(v, b) && OwnPaddingFits(|v|, pads, tolerant)
  }

  lemma StandsExactly(c: char, n: Sextet)
    ensures Stands(c, n) <==> InEitherAlphabet(c) && ValueOf(Standard(c)) == n
  {
    Text.InOrder();
    hide Text.UPPER, Text.LOWER, Text.DIGITS;
  }

  lemma OneNumber(a: Sextet, b: Sextet, c: Sextet, d: Sextet, x: Byte, y: Byte, z: Byte)
    ensures ByteNumber(x, y, z) == SextetNumber(a, b, c, d)
            <==> x == FirstByte(a, b) && y == SecondByte(b, c) && z == ThirdByte(c, d)
  {
    assert b == b / 16 * 16 + b % 16 && c == c / 4 * 4 + c % 4;
  }

  lemma OneByte(a: Sextet, b: Sextet)
    ensures SextetNumber(a, b, 0, 0) / 65536 == FirstByte(a, b)
  {
    assert SextetNumber(a, b, 0, 0) == (a * 4 + b / 16) * 65536 + b % 16 * 4096;
  }

  lemma TwoBytes(a: Sextet, b: Sextet, c: Sextet)
    ensures SextetNumber(a, b, c, 0) / 256 == ByteNumber(0, FirstByte(a, b), SecondByte(b, c))
    ensures 0 <= FirstByte(a, b) < 256 && 0 <= SecondByte(b, c) < 256
  {
    assert SextetNumber(a, b, c, 0) == ByteNumber(0, FirstByte(a, b), SecondByte(b, c)) * 256 + c % 4 * 64;
  }

  lemma SameBytes(x: Byte, y: Byte, x': Byte, y': Byte)
    ensures ByteNumber(0, x, y) == ByteNumber(0, x', y') <==> x == x' && y == y'
  {
  }

  lemma LastTwo(v: seq<Sextet>, b: Bytes)
    requires |v| == 2
    ensures Packs(v, b) <==> b == FromSextets(v)
  {
    OneByte(v[0], v[1]);
    hide FirstByte, SextetNumber;
    assert FromSextets(v) == [FirstByte(v[0], v[1])];
  }

  lemma LastThree(v: seq<Sextet>, b: Bytes)
    requires |v| == 3
    ensures Packs(v, b) <==> b == FromSextets(v)
  {
    TwoBytes(v[0], v[1], v[2]);
    var x, y := FirstByte(v[0], v[1]), SecondByte(v[1], v[2]);
    hide FirstByte, SecondByte, SextetNumber, ByteNumber;
    assert FromSextets(v) == [x, y];
    if |b| == 2 {
      SameBytes(b[0], b[1], x, y);
    }
  }

  /** The grouping of values into bytes is the library's. */
  lemma {:induction false} PacksExactly(v: seq<Sextet>, b: Bytes)
    requires |v| % 4 != 1
    ensures Packs(v, b) <==> b == FromSextets(v)
  {
    if |v| == 2 {
      LastTwo(v, b);
    } else if |v| == 3 {
      LastThree(v, b);
    } else if |v| >= 4 && |b| >= 3 {
      PacksExactly(v[4..], b[3..]);
      OneNumber(v[0], v[1], v[2], v[3], b[0], b[1], b[2]);
      hide FirstByte, SecondByte, ThirdByte, SextetNumber, ByteNumber;
      assert b == [b[0], b[1], b[2]] + b[3..];
    }
  }

  lemma DecodedValues(raw: string, tolerant: bool)
    requires Decode(raw, tolerant).Some?
    ensures AllStandard(Translate(DataOf(raw)))
    ensures Decode(raw, tolerant).value == FromSextets(Values(Translate(DataOf(raw))))
  {
    hide TrailingPads, DataOf, Translate, AllStandard, PaddingFits, FromSextets, Values;
    Refilled(raw, Missing(|Translate(raw)|));
  }

  lemma WrittenParts(raw: string, v: seq<Sextet>, pads: nat)
    requires Written(raw, v, pads)
    ensures |DataOf(raw)| == |v| && TrailingPads(raw) == pads
    ensures forall i :: 0 <= i < |v| ==> InEitherAlphabet(DataOf(raw)[i]) && ValueOf(Standard(DataOf(raw)[i])) == v[i]
  {
    var data := raw[..|v|];
    forall i | 0 <= i < |v| ensures InEitherAlphabet(data[i]) && ValueOf(Standard(data[i])) == v[i] {
      StandsExactly(raw[i], v[i]);
    }
    assert raw == data + Pads(pads);
    hide TrailingPads, DataOf;
    PadsOf(data, pads);
  }

  /** Decoding yields these bytes exactly for a text that spells them, in either alphabet letter by
      letter, by the values of its letters. */
  lemma DecodesExactly(raw: string, b: Bytes, tolerant: bool)
    ensures Decode(raw, tolerant) == Some(b) <==> Spells(raw, b, tolerant)
  {
    if Decode(raw, tolerant) == Some(b) {
      DecodedSpells(raw, b, tolerant);
    }
    if Spells(raw, b, tolerant) {
      var v, pads :| Written(raw, v, pads) && Packs(v, b) && OwnPaddingFits(|v|, pads, tolerant);
      SpellingDecodes(raw, v, pads, b, tolerant);
    }
  }

  lemma DecodedSpells(raw: string, b: Bytes, tolerant: bool)
    requires Decode(raw, tolerant) == Some(b)
    ensures Spells(raw, b, tolerant)
  {
    AcceptedExactly(raw, tolerant);
    DecodedValues(raw, tolerant);
    DataAndPads(raw);
    hide Decode, FromSextets, Packs, TrailingPads, OwnPaddingFits;
    var v := Values(Translate(DataOf(raw)));
    forall i | 0 <= i < |v| ensures Stands(raw[i], v[i]) {
      StandsExactly(raw[i], v[i]);
    }
    assert Written(raw, v, TrailingPads(raw));
    PacksExactly(v, b) by {
      assert |v| % 4 != 1;
    }
  }

  lemma SpellingDecodes(raw: string, v: seq<Sextet>, pads: nat, b: Bytes, tolerant: bool)
    requires Written(raw, v, pads) && Packs(v, b) && OwnPaddingFits(|v|, pads, tolerant)
    ensures Decode(raw, tolerant) == Some(b)
  {
    WrittenParts(raw, v, pads);
    AcceptedExactly(raw, tolerant);
    PacksExactly(v, b);
    hide Decode, FromSextets, Packs, Written, DataOf, TrailingPads;
    DecodedValues(raw, tolerant);
    assert Values(Translate(DataOf(raw))) == v;
  }

  lemma {:induction false} NotOneOver(b: Bytes)
    ensures |ToSextets(b)| % 4 != 1
  {
    if |b| >= 3 {
      NotOneOver(b[3..]);
      assert |ToSextets(b)| == 4 + |ToSextets(b[3..])|;
    }
  }

  /** Every byte string has a spelling, and its encoding, padded or not, is decoded to it. */
  lemma RoundTrip(b: Bytes, pads: nat, tolerant: bool)
    requires pads <= Missing(|Encode(b)|)
    ensures Spells(Encode(b) + Pads(pads), b, tolerant)
    ensures Decode(Encode(b) + Pads(pads), tolerant) == Some(b)
  {
    hide ToSextets, FromSextets, Packs, Decode, Stands;
    var v, raw := ToSextets(b), Encode(b) + Pads(pads);
    NotOneOver(b);
    SextetsRoundTrip(b);
    PacksExactly(v, b);
    forall i | 0 <= i < |v| ensures Stands(raw[i], v[i]) {
      StandsExactly(raw[i], v[i]);
    }
    assert Written(raw, v, pads);
    assert OwnPaddingFits(|v|, pads, tolerant);
    hide Written, Pads, Encode;
    DecodesExactly(raw, b, tolerant);
  }

  /** Padding aside, a letter outside both alphabets refuses the text. */
  lemma ForeignLetterRefused(raw: string, i: nat, tolerant: bool)
    requires i < |raw| && !InEitherAlphabet(raw[i])
    requires raw[i] != '=' || exists j :: i < j < |raw| && raw[j] != '='
    ensures Decode(raw, tolerant).None?
  {
    AcceptedExactly(raw, tolerant);
    assert i < |DataOf(raw)| by {
      if raw[i] == '=' {
        var j :| i < j < |raw| && raw[j] != '=';
      }
    }
    assert DataOf(raw)[i] == raw[i];
  }

  /** A length of one more than a multiple of four is refused, unless the library tolerates padding
      behind whole quads and the one character too many is such padding. */
  lemma LengthOneOverRefused(raw: string, tolerant: bool)
    requires |raw| % 4 == 1
    ensures Decode(raw, tolerant).Some? ==> tolerant && |DataOf(raw)| % 4 == 0 && TrailingPads(raw) % 4 == 1
  {
    hide Decode, DataOf, TrailingPads, OwnPaddingFits, InEitherAlphabet;
    var data, pads := |DataOf(raw)|, TrailingPads(raw);
    DataAndPads(raw);
    AcceptedExactly(raw, tolerant);
    if OwnPaddingFits(data, pads, tolerant) {
      OneOver(data, pads, tolerant);
    }
  }

  lemma OneOver(data: nat, pads: nat, tolerant: bool)
    requires (data + pads) % 4 == 1 && OwnPaddingFits(data, pads, tolerant)
    ensures tolerant && data % 4 == 0 && pads % 4 == 1
  {
  }

  // ---- an uploaded part -----------------------------------------------------------------

  datatype Rejection = NotBase64(index: nat) | Empty(index: nat)

  function DecodePart(raw: string, index: nat, tolerant: bool): Result<Bytes, Rejection> {
    match Decode(raw, tolerant)
    case None => Err(NotBase64(index))
    case Some(decoded) => if |decoded| == 0 then Err(Empty(index)) else Ok(decoded)
  }

  /** An upload arrives as the bytes it spells, if there are any; the empty one is refused as such, and
      any other text as no base64. */
  lemma UploadArrives(raw: string, index: nat, tolerant: bool)
    ensures forall b :: DecodePart(raw, index, tolerant) == Ok(b) <==> b != [] && Spells(raw, b, tolerant)
    ensures DecodePart(raw, index, tolerant) == Err(Empty(index)) <==> raw == ""
    ensures DecodePart(raw, index, tolerant) == Err(NotBase64(index)) <==> forall b :: !Spells(raw, b, tolerant)
  {
    forall b ensures Decode(raw, tolerant) == Some(b) <==> Spells(raw, b, tolerant) {
      DecodesExactly(raw, b, tolerant);
    }
    NothingDecoded(raw, tolerant);
    hide Decode, Spells;
  }

  /** Only the empty text is decoded to nothing. */
  lemma NothingDecoded(raw: string, tolerant: bool)
    ensures Decode(raw, tolerant) == Some([]) <==> raw == ""
  {
    AcceptedExactly(raw, tolerant);
    DataAndPads(raw);
    hide Decode, DataOf, TrailingPads, InEitherAlphabet;
  }
}
