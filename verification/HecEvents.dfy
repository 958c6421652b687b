/** A body of JSON objects written one after another, with no enclosing array. */
module HecEvents {
  import Text
  import opened Wrappers

  /** A decoded JSON value: an object, or anything else with the name of its type. */
  datatype Value<Doc> = Object(doc: Doc) | Other(typeName: string)

  datatype EventError = NotJson(at: nat) | NotAnEvent(typeName: string) | NestedTooDeep(at: nat)

  /** What decoding comes to: a value, a `ValueError`, or, where values nest deeper than the interpreter
      recurses, a `RecursionError`, which is none. */
  datatype Decoding<+T> = Decoded(value: T) | Invalid | TooDeep

  /** The library: `JSONDecoder.raw_decode`, which decodes the value standing at an index and says where
      it ends, or fails. */
  datatype Decoder<!Doc> = Decoder(rawDecode: (string, nat) -> Decoding<(Value<Doc>, nat)>)

  /** A decoded value takes up text. */
  ghost predicate Advances<Doc>(d: Decoder<Doc>) {
    forall text, at: nat :: at < |text| && d.rawDecode(text, at).Decoded? ==>
      at < d.rawDecode(text, at).value.1 <= |text|
  }

  function SkipSpaces(text: string, at: nat): (n: nat)
    requires at <= |text|
    ensures at <= n <= |text|
    ensures forall i :: at <= i < n ==> Text.IsSpace(text[i])
    ensures n < |text| ==> !Text.IsSpace(text[n])
    decreases |text| - at
  {
    if at < |text| && Text.IsSpace(text[at]) then SkipSpaces(text, at + 1) else at
  }

  function Prepend<Doc>(docs: seq<Doc>, r: Result<seq<Doc>, EventError>): Result<seq<Doc>, EventError> {
    match r
    case Ok(rest) => Ok(docs + rest)
    case Err(e) => Err(e)
  }

  lemma PrependTwice<Doc>(xs: seq<Doc>, ys: seq<Doc>, r: Result<seq<Doc>, EventError>)
    ensures Prepend([], r) == r
    ensures Prepend(xs + ys, r) == Prepend(xs, Prepend(ys, r))
  {
    if r.Ok? {
      assert [] + r.value == r.value;
      assert (xs + ys) + r.value == xs + (ys + r.value);
    }
  }

  /** The events from index `at` on. */
  ghost function EventsFrom<Doc>(d: Decoder<Doc>, text: string, at: nat): Result<seq<Doc>, EventError>
    requires Advances(d) && at <= |text|
    decreases |text| - at
  {
    var start := SkipSpaces(text, at);
    if start == |text| then Ok([])
    else
      match d.rawDecode(text, start)
      case Invalid => Err(NotJson(start))
      case TooDeep => Err(NestedTooDeep(start))
      case Decoded((Other(name), _)) => Err(NotAnEvent(name))
      case Decoded((Object(doc), end)) => Prepend([doc], EventsFrom(d, text, end))
  }

  method ReadEvents<Doc>(d: Decoder<Doc>, text: string) returns (r: Result<seq<Doc>, EventError>)
    requires Advances(d)
    ensures r == EventsFrom(d, text, 0)
  {
    var events: seq<Doc> := [];
    var at := 0;
    PrependTwice<Doc>([], [], EventsFrom(d, text, 0));
    while true
      invariant at <= |text|
      invariant EventsFrom(d, text, 0) == Prepend(events, EventsFrom(d, text, at))
      decreases |text| - at
    {
      ghost var entry := at;
      while at < |text| && Text.IsSpace(text[at])
        invariant entry <= at <= |text| && SkipSpaces(text, entry) == SkipSpaces(text, at)
      {
        at := at + 1;
      }
      if at == |text| {
        assert events + [] == events;
        return Ok(events);
      }
      var decoded := d.rawDecode(text, at);
      if !decoded.Decoded? {
        return Err(if decoded.Invalid? then NotJson(at) else NestedTooDeep(at));
      }
      var (event, end) := decoded.value;
      if event.Other? {
        return Err(NotAnEvent(event.typeName));
      }
      PrependTwice(events, [event.doc], EventsFrom(d, text, end));
      events := events + [event.doc];
      at := end;
    }
  }

  // ---- what is accepted -----------------------------------------------------------------

  ghost predicate SpacesBetween(text: string, from: nat, to: nat)
    requires from <= to <= |text|
  {
    forall i :: from <= i < to ==> Text.IsSpace(text[i])
  }

  /** From `at` to `to` the text is spaces and object values in turn, the i-th of them starting at
      `starts[i]` and holding `docs[i]`, and spaces at the end. */
  ghost predicate LeadsTo<Doc>(d: Decoder<Doc>, text: string, at: nat, docs: seq<Doc>, starts: seq<nat>, to: nat)
    requires at <= |text|
    decreases |docs|
  {
    && |docs| == |starts|
    && if |docs| == 0 then at <= to <= |text| && SpacesBetween(text, at, to)
       else
         && at <= starts[0] < |text|
         && SpacesBetween(text, at, starts[0]) && !Text.IsSpace(text[starts[0]])
         && d.rawDecode(text, starts[0]).Decoded?
         && var (value, end) := d.rawDecode(text, starts[0]).value;
            && value == Object(docs[0]) && starts[0] < end <= |text|
            && LeadsTo(d, text, end, docs[1..], starts[1..], to)
  }

  /** The whole text is such a run of these objects. */
  ghost predicate IsSomeRun<Doc>(d: Decoder<Doc>, text: string, docs: seq<Doc>) {
    exists starts: seq<nat> :: LeadsTo(d, text, 0, docs, starts, |text|)
  }

  /** What stands at an index is no object, and this is what to say of it. */
  ghost predicate IsFault<Doc>(d: Decoder<Doc>, text: string, at: nat, error: EventError) {
    && at < |text| && !Text.IsSpace(text[at])
    && match error
       case NotJson(where) => where == at && d.rawDecode(text, at).Invalid?
       case NestedTooDeep(where) => where == at && d.rawDecode(text, at).TooDeep?
       case NotAnEvent(name) => d.rawDecode(text, at).Decoded? && d.rawDecode(text, at).value.0 == Other(name)
  }

  /** Such a run leads from `at` to a fault. */
  ghost predicate LeadsToFault<Doc>(d: Decoder<Doc>, text: string, at: nat, docs: seq<Doc>, starts: seq<nat>,
                                    to: nat, error: EventError)
    requires at <= |text|
  {
    LeadsTo(d, text, at, docs, starts, to) && IsFault(d, text, to, error)
  }

  ghost predicate IsFaulty<Doc(!new)>(d: Decoder<Doc>, text: string, error: EventError) {
    exists docs: seq<Doc>, starts: seq<nat>, to: nat :: LeadsToFault(d, text, 0, docs, starts, to, error)
  }

  lemma SkipsTo(text: string, at: nat, start: nat)
    requires at <= start <= |text| && SpacesBetween(text, at, start)
    requires start < |text| ==> !Text.IsSpace(text[start])
    ensures SkipSpaces(text, at) == start
  {
  }

  /** Reading comes to the end of a run, or to a fault behind one. */
  lemma {:induction false} ReadingLeadsOn<Doc>(d: Decoder<Doc>, text: string, at: nat)
    returns (docs: seq<Doc>, starts: seq<nat>, to: nat)
    requires Advances(d) && at <= |text|
    ensures LeadsTo(d, text, at, docs, starts, to)
    ensures match EventsFrom(d, text, at)
            case Ok(events) => to == |text| && docs == events
            case Err(error) => IsFault(d, text, to, error)
    decreases |text| - at
  {
    var start := SkipSpaces(text, at);
    if start == |text| || !d.rawDecode(text, start).Decoded? || d.rawDecode(text, start).value.0.Other? {
      docs, starts, to := [], [], start;
    } else {
      var (value, end) := d.rawDecode(text, start).value;
      var rest, later, last := ReadingLeadsOn(d, text, end);
      docs, starts, to := [value.doc] + rest, [start] + later, last;
      assert docs[1..] == rest && starts[1..] == later;
    }
  }

  /** Reading goes along a run, and then from where it leads to. */
  lemma {:induction false} ReadAlong<Doc>(d: Decoder<Doc>, text: string, at: nat, docs: seq<Doc>, starts: seq<nat>,
                                           to: nat)
    requires Advances(d) && at <= |text|
    requires LeadsTo(d, text, at, docs, starts, to) && to <= |text|
    requires to < |text| ==> !Text.IsSpace(text[to])
    ensures EventsFrom(d, text, at) == Prepend(docs, EventsFrom(d, text, to))
    decreases |docs|
  {
    PrependTwice<Doc>([], [], EventsFrom(d, text, to));
    SkipsTo(text, to, to);
    if docs == [] {
      SkipsTo(text, at, to);
    } else {
      SkipsTo(text, at, starts[0]);
      ReadAlong(d, text, d.rawDecode(text, starts[0]).value.1, docs[1..], starts[1..], to);
      assert docs == [docs[0]] + docs[1..];
      PrependTwice([docs[0]], docs[1..], EventsFrom(d, text, to));
    }
  }

  /** A body is read as `docs` exactly when it is a run of those objects. */
  lemma ReadsExactlyRuns<Doc(!new)>(d: Decoder<Doc>, text: string, docs: seq<Doc>)
    requires Advances(d)
    ensures EventsFrom(d, text, 0) == Ok(docs) <==> IsSomeRun(d, text, docs)
  {
    var found, starts, to := ReadingLeadsOn(d, text, 0);
    if IsSomeRun(d, text, docs) {
      var begins: seq<nat> :| LeadsTo(d, text, 0, docs, begins, |text|);
      ReadAlong(d, text, 0, docs, begins, |text|);
      SkipsTo(text, |text|, |text|);
      assert docs + [] == docs;
    }
  }

  /** It is refused, and with which words, exactly for the first thing behind a run that is no object:
      what is no JSON and what is nested too deep by where it stands, any other value by its type. */
  lemma RefusesExactlyFaults<Doc(!new)>(d: Decoder<Doc>, text: string, error: EventError)
    requires Advances(d)
    ensures EventsFrom(d, text, 0) == Err(error) <==> IsFaulty(d, text, error)
  {
    var found, starts, to := ReadingLeadsOn(d, text, 0);
    if EventsFrom(d, text, 0) == Err(error) {
      assert LeadsToFault(d, text, 0, found, starts, to, error);
    }
    if IsFaulty(d, text, error) {
      var docs: seq<Doc>, begins: seq<nat>, at: nat :| LeadsToFault(d, text, 0, docs, begins, at, error);
      ReadAlong(d, text, 0, docs, begins, at);
      SkipsTo(text, at, at);
    }
  }

  lemma ReadsOrRefuses<Doc(!new)>(d: Decoder<Doc>, text: string)
    requires Advances(d)
    ensures forall docs :: EventsFrom(d, text, 0) == Ok(docs) <==> IsSomeRun(d, text, docs)
    ensures forall error :: EventsFrom(d, text, 0) == Err(error) <==> IsFaulty(d, text, error)
  {
    forall docs ensures EventsFrom(d, text, 0) == Ok(docs) <==> IsSomeRun(d, text, docs) {
      ReadsExactlyRuns(d, text, docs);
    }
    forall error ensures EventsFrom(d, text, 0) == Err(error) <==> IsFaulty(d, text, error) {
      RefusesExactlyFaults(d, text, error);
    }
  }

  // ---- the printed run ------------------------------------------------------------------

  /** A JSON object is self-delimiting: printed anywhere and followed by anything, it is decoded to
      itself and ends where it was printed to. */
  ghost predicate SelfDelimiting<Doc(!new)>(d: Decoder<Doc>, print_: Doc -> string) {
    forall doc, before: string, after: string ::
      && print_(doc) != "" && !Text.IsSpace(print_(doc)[0])
      && d.rawDecode(before + print_(doc) + after, |before|) == Decoded((Object(doc), |before| + |print_(doc)|))
  }

  /** `docs` printed one after another behind the gaps, the last gap closing the text. */
  function Printed<Doc>(print_: Doc -> string, docs: seq<Doc>, gaps: seq<string>): string
    requires |gaps| == |docs| + 1
  {
    if |docs| == 0 then gaps[0] else gaps[0] + print_(docs[0]) + Printed(print_, docs[1..], gaps[1..])
  }

  ghost predicate Gaps(gaps: seq<string>) {
    forall g :: 0 <= g < |gaps| ==> SpacesBetween(gaps[g], 0, |gaps[g]|)
  }

  /** One printed object behind a gap is the next event, whatever stands around it. */
  lemma InPlace(before: string, gap: string, body: string, after: string)
    ensures var text := before + (gap + body + after);
            && text == (before + gap) + body + after && text == (before + gap + body) + after
            && (body != "" ==> text[|before + gap|] == body[0])
            && forall i :: |before| <= i < |before + gap| ==> text[i] == gap[i - |before|]
  {
  }

  lemma PrintedObjectIsNext<Doc(!new)>(d: Decoder<Doc>, print_: Doc -> string,
                                        before: string, gap: string, doc: Doc, after: string)
    requires Advances(d) && SelfDelimiting(d, print_)
    requires SpacesBetween(gap, 0, |gap|)
    ensures EventsFrom(d, before + (gap + print_(doc) + after), |before|)
            == Prepend([doc], EventsFrom(d, (before + gap + print_(doc)) + after, |before + gap + print_(doc)|))
  {
    var text := before + (gap + print_(doc) + after);
    var at := |before + gap|;
    InPlace(before, gap, print_(doc), after);
    SkipsTo(text, |before|, at);
  }

  /** Any list of objects, with any spaces before, between and after, is read back as that list. */
  lemma {:induction false} PrintedRunIsRead<Doc(!new)>(d: Decoder<Doc>, print_: Doc -> string,
                                                        before: string, docs: seq<Doc>, gaps: seq<string>)
    requires Advances(d) && SelfDelimiting(d, print_)
    requires |gaps| == |docs| + 1 && Gaps(gaps)
    ensures EventsFrom(d, before + Printed(print_, docs, gaps), |before|) == Ok(docs)
    decreases |docs|
  {
    if docs == [] {
      var text := before + gaps[0];
      assert forall i :: |before| <= i < |text| ==> text[i] == gaps[0][i - |before|];
      SkipsTo(text, |before|, |text|);
    } else {
      PrintedObjectIsNext(d, print_, before, gaps[0], docs[0], Printed(print_, docs[1..], gaps[1..]));
      PrintedRunIsRead(d, print_, before + gaps[0] + print_(docs[0]), docs[1..], gaps[1..]);
      assert docs == [docs[0]] + docs[1..];
    }
  }

  /** `rest` starts with a JSON value that is not an object, or with no JSON value at all. */
  ghost predicate StartsWithNonObject<Doc(!new)>(d: Decoder<Doc>, rest: string) {
    && rest != "" && !Text.IsSpace(rest[0])
    && forall before: string :: d.rawDecode(before + rest, |before|).Decoded? ==>
                                  d.rawDecode(before + rest, |before|).value.0.Other?
  }

  lemma NonObjectStops<Doc>(d: Decoder<Doc>, text: string, at: nat, start: nat)
    requires Advances(d) && at <= start < |text|
    requires SpacesBetween(text, at, start) && !Text.IsSpace(text[start])
    requires !d.rawDecode(text, start).Decoded? || d.rawDecode(text, start).value.0.Other?
    ensures EventsFrom(d, text, at).Err?
  {
    SkipsTo(text, at, start);
  }

  lemma NonObjectIsNext<Doc(!new)>(d: Decoder<Doc>, before: string, gap: string, rest: string, text: string)
    requires Advances(d) && SpacesBetween(gap, 0, |gap|) && StartsWithNonObject(d, rest)
    requires text == before + (gap + rest)
    ensures EventsFrom(d, text, |before|).Err?
  {
    var b := before + gap;
    assert text == b + rest;
    assert SpacesBetween(text, |before|, |b|) && text[|b|] == rest[0] by {
      GapBetween(before, gap, rest);
    }
    var decoded := d.rawDecode(text, |b|);
    assert !decoded.Decoded? || decoded.value.0.Other? by {
      NonObjectHere(d, b, rest);
    }
    NonObjectStops(d, text, |before|, |b|);
  }

  lemma GapBetween(before: string, gap: string, rest: string)
    requires SpacesBetween(gap, 0, |gap|) && rest != ""
    ensures SpacesBetween(before + (gap + rest), |before|, |before + gap|)
    ensures (before + (gap + rest))[|before + gap|] == rest[0]
  {
    assert forall i :: |before| <= i < |before + gap| ==> (before + (gap + rest))[i] == gap[i - |before|];
  }

  lemma NonObjectHere<Doc(!new)>(d: Decoder<Doc>, before: string, rest: string)
    requires StartsWithNonObject(d, rest)
    ensures var decoded := d.rawDecode(before + rest, |before|);
            !decoded.Decoded? || decoded.value.0.Other?
  {
  }

  /** A run in which anything but an object stands is refused, whatever follows it. */
  lemma {:induction false} NonObjectRefused<Doc(!new)>(d: Decoder<Doc>, print_: Doc -> string, before: string,
                                                        docs: seq<Doc>, gaps: seq<string>, rest: string)
    requires Advances(d) && SelfDelimiting(d, print_)
    requires |gaps| == |docs| + 1 && Gaps(gaps)
    requires StartsWithNonObject(d, rest)
    ensures EventsFrom(d, before + (Printed(print_, docs, gaps) + rest), |before|).Err?
    decreases |docs|
  {
    if docs == [] {
      NonObjectIsNext(d, before, gaps[0], rest, before + (gaps[0] + rest));
    } else {
      var tail := Printed(print_, docs[1..], gaps[1..]);
      assert Printed(print_, docs, gaps) + rest == gaps[0] + print_(docs[0]) + (tail + rest);
      PrintedObjectIsNext(d, print_, before, gaps[0], docs[0], tail + rest);
      NonObjectRefused(d, print_, before + gaps[0] + print_(docs[0]), docs[1..], gaps[1..], rest);
    }
  }
}
